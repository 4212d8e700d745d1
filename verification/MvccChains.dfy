/**
 Version chains over runs: append-only history, linking, current cells, first-committer-wins
 and how many versions of a row a transaction can see.
*/
module MvccChains {
  import opened Basics
  import opened Catalog
  import opened Constraints
  import opened Mvcc
  import opened MvccSnapshots

  // ----- append-only history -----

  /** Versions are only added; creator and values never change, a deleter is set at most once. */
  ghost predicate Extends(chain: Chain, chain1: Chain) {
    && |chain| <= |chain1|
    && forall k :: 0 <= k < |chain| ==>
         && chain1[k].xmin == chain[k].xmin
         && chain1[k].values == chain[k].values
         && (chain[k].xmax.Some? ==> chain1[k].xmax == chain[k].xmax)
  }

  ghost predicate TableExtends(t: VTable, t1: VTable) {
    && |t.chains| <= |t1.chains| && t.rowCount <= t1.rowCount
    && forall i :: 0 <= i < |t.chains| ==> Extends(t.chains[i], t1.chains[i])
  }

  lemma StepExtends(s: State, step: Step)
    requires Good(s) && Enabled(s, step) && !step.Vacuum?
    ensures TableExtends(s.tab, Next(s, step).tab)
  {
    if step.Insert? { InsertedChains(s.tab.chains, |step.rows|, step.txn.id); }
  }

  /** History is append-only along every run without VACUUM. */
  lemma {:induction false} RunExtends(s: State, steps: seq<Step>)
    requires Good(s) && RunEnabled(s, steps) && NoVacuum(steps)
    ensures TableExtends(s.tab, Run(s, steps).tab)
    decreases |steps|
  {
    if steps != [] {
      assert !steps[0].Vacuum?;
      var s1 := Next(s, steps[0]);
      StepExtends(s, steps[0]);
      StepKeepsGood(s, steps[0]);
      RunExtends(s1, steps[1..]);
      ExtendsTwice(s.tab, s1.tab, Run(s, steps).tab);
    }
  }

  lemma ExtendsTwice(t: VTable, t1: VTable, t2: VTable)
    requires TableExtends(t, t1) && TableExtends(t1, t2)
    ensures TableExtends(t, t2)
  {
    forall i | 0 <= i < |t.chains| ensures Extends(t.chains[i], t2.chains[i]) {
      assert Extends(t.chains[i], t1.chains[i]) && Extends(t1.chains[i], t2.chains[i]);
    }
  }

  // ----- the newest version and the columns -----

  ghost predicate OnlyLastLive(chain: Chain) {
    forall k :: 0 <= k < |chain| - 1 ==> chain[k].xmax.Some?
  }

  /** A live newest version that an UPDATE wrote holds exactly the cells of the columns. */
  ghost predicate CellsCurrent(chain: Chain, row: Row) {
    chain != [] && chain[|chain| - 1].xmax.None? && (|chain| >= 2 || chain[|chain| - 1].values != []) ==>
      chain[|chain| - 1].values == row
  }

  ghost predicate Current(t: VTable) {
    forall i :: 0 <= i < |t.chains| ==> OnlyLastLive(t.chains[i]) && CellsCurrent(t.chains[i], t.RowAt(i))
  }

  lemma {:induction false} RetainLive(m: Manager, oldest: nat, chain: Chain, row: Row)
    requires OnlyLastLive(chain) && CellsCurrent(chain, row)
    ensures OnlyLastLive(Retain(m, oldest, chain)) && CellsCurrent(Retain(m, oldest, chain), row)
  {
    if chain != [] {
      var n := |chain| - 1;
      var rest := Retain(m, oldest, chain[..n]);
      forall v | v in rest ensures v.xmax.Some? {
        assert v in chain[..n];
      }
      assert forall k :: 0 <= k < |rest| ==> rest[k] in rest;
      RetainShorter(m, oldest, chain[..n]);
    }
  }

  lemma {:induction false} RetainShorter(m: Manager, oldest: nat, chain: Chain)
    ensures |Retain(m, oldest, chain)| <= |chain|
  {
    if chain != [] { RetainShorter(m, oldest, chain[..|chain| - 1]); }
  }

  lemma UpdatedRowAt(t: VTable, id: nat, mask: seq<bool>, assigns: seq<Assignment>, i: nat)
    requires t.Valid() && |mask| == t.rowCount && i < t.rowCount
    ensures UpdatedRows(t, id, mask, assigns).RowAt(i) == AssignedRow(t, mask, assigns, i)
  {
  }

  lemma VacuumedRowAt(m: Manager, oldest: nat, t: VTable, k: nat)
    requires t.Valid() && |LiveRows(m, oldest, t.chains)| < t.rowCount && k < |LiveRows(m, oldest, t.chains)|
    ensures Vacuumed(m, oldest, t).RowAt(k) == t.RowAt(LiveRows(m, oldest, t.chains)[k])
  {
  }

  lemma VacuumCurrent(m: Manager, oldest: nat, t: VTable)
    requires t.Valid() && Current(t)
    ensures Current(Vacuumed(m, oldest, t))
  {
    var t1 := Vacuumed(m, oldest, t);
    var live := LiveRows(m, oldest, t.chains);
    forall k | 0 <= k < |t1.chains| ensures OnlyLastLive(t1.chains[k]) && CellsCurrent(t1.chains[k], t1.RowAt(k)) {
      var i := if |live| < t.rowCount then live[k] else k;
      RetainLive(m, oldest, t.chains[i], t.RowAt(i));
      if |live| < t.rowCount { VacuumedRowAt(m, oldest, t, k); }
    }
  }

  /** Every step, VACUUM included, keeps the newest live version equal to the columns. */
  lemma StepKeepsCurrent(s: State, step: Step)
    requires Good(s) && Enabled(s, step) && Current(s.tab)
    ensures Current(Next(s, step).tab)
  {
    var s1 := Next(s, step);
    if !Refused(s, step) {
      match step
      case Begin(_) =>
      case Commit(_) =>
      case Rollback(_) =>
      case Vacuum => VacuumCurrent(WithoutAborted(s.mgr), Oldest(WithoutAborted(s.mgr)), s.tab);
      case Insert(t, rows) =>
        InsertedChains(s.tab.chains, |rows|, t.id);
        forall i | 0 <= i < |s1.tab.chains| ensures OnlyLastLive(s1.tab.chains[i]) && CellsCurrent(s1.tab.chains[i], s1.tab.RowAt(i)) {
          if i < |s.tab.chains| { assert s1.tab.RowAt(i) == s.tab.RowAt(i); }
        }
      case Update(t, mask, assigns) =>
        forall i | 0 <= i < |s1.tab.chains| ensures OnlyLastLive(s1.tab.chains[i]) && CellsCurrent(s1.tab.chains[i], s1.tab.RowAt(i)) {
          UpdatedRowAt(s.tab, t.id, mask, assigns, i);
        }
      case Delete(t, mask) =>
        forall i | 0 <= i < |s1.tab.chains| ensures OnlyLastLive(s1.tab.chains[i]) && CellsCurrent(s1.tab.chains[i], s1.tab.RowAt(i)) {
          assert s1.tab.RowAt(i) == s.tab.RowAt(i);
        }
    }
  }

  lemma {:induction false} RunKeepsCurrent(s: State, steps: seq<Step>)
    requires Good(s) && RunEnabled(s, steps) && Current(s.tab)
    ensures Current(Run(s, steps).tab)
    decreases |steps|
  {
    if steps != [] {
      StepKeepsGood(s, steps[0]);
      StepKeepsCurrent(s, steps[0]);
      RunKeepsCurrent(Next(s, steps[0]), steps[1..]);
    }
  }

  // ----- linking -----

  /** Each superseded version was superseded by the creator of the next one. */
  ghost predicate Linked(chain: Chain) {
    forall k :: 0 <= k < |chain| - 1 ==> chain[k].xmax == Some(chain[k + 1].xmin)
  }

  /** Everyone who wrote the row, oldest first: the creators, then the deleter of the last version. */
  function Writers(chain: Chain): (ws: seq<nat>)
    ensures |chain| <= |ws| <= |chain| + 1
    ensures forall k :: 0 <= k < |chain| ==> ws[k] == chain[k].xmin
    ensures |ws| == |chain| + 1 <==> chain != [] && chain[|chain| - 1].xmax.Some?
  {
    seq(|chain|, k requires 0 <= k < |chain| => chain[k].xmin) +
    (if chain != [] && chain[|chain| - 1].xmax.Some? then [chain[|chain| - 1].xmax.value] else [])
  }

  lemma WriteLinked(chain: Chain, id: nat, values: seq<u64>)
    requires Linked(chain)
    ensures Linked(MarkDeleted(chain, id).0) && Linked(Superseded(chain, id, values))
    ensures MarkDeleted(chain, id).1 ==>
      Writers(MarkDeleted(chain, id).0) == Writers(Superseded(chain, id, values)) == Writers(chain) + [id]
    ensures !MarkDeleted(chain, id).1 ==> MarkDeleted(chain, id).0 == Superseded(chain, id, values) == chain
  {
    var marked, updated := MarkDeleted(chain, id).0, Superseded(chain, id, values);
    if MarkDeleted(chain, id).1 {
      var n := |chain| - 1;
      assert forall k :: 0 <= k < n ==> marked[k] == chain[k];
      assert updated == marked + [Version(id, None, values)];
      assert Writers(marked) == Writers(chain) + [id];
      assert Writers(updated) == Writers(chain) + [id];
    }
  }

  ghost predicate AllLinked(t: VTable) {
    forall i :: 0 <= i < |t.chains| ==> Linked(t.chains[i])
  }

  lemma StepKeepsLinked(s: State, step: Step)
    requires Good(s) && Enabled(s, step) && !step.Vacuum? && AllLinked(s.tab)
    ensures AllLinked(Next(s, step).tab)
  {
    var s1 := Next(s, step);
    if step.Insert? { InsertedChains(s.tab.chains, |step.rows|, step.txn.id); }
    if step.Update? {
      forall i | 0 <= i < |s1.tab.chains| ensures Linked(s1.tab.chains[i]) {
        WriteLinked(s.tab.chains[i], step.txn.id, Assign(s.tab.RowAt(i), step.assigns));
      }
    }
    if step.Delete? {
      forall i | 0 <= i < |s1.tab.chains| ensures Linked(s1.tab.chains[i]) {
        WriteLinked(s.tab.chains[i], step.txn.id, []);
      }
    }
  }

  /** Chains stay linked along every run without VACUUM. */
  lemma {:induction false} RunKeepsLinked(s: State, steps: seq<Step>)
    requires Good(s) && RunEnabled(s, steps) && NoVacuum(steps) && AllLinked(s.tab)
    ensures AllLinked(Run(s, steps).tab)
    decreases |steps|
  {
    if steps != [] {
      assert !steps[0].Vacuum?;
      StepKeepsGood(s, steps[0]);
      StepKeepsLinked(s, steps[0]);
      RunKeepsLinked(Next(s, steps[0]), steps[1..]);
    }
  }

  // ----- first committer wins -----

  /** Every other writer of the row has committed. */
  ghost predicate OthersCommitted(m: Manager, chain: Chain, id: nat) {
    forall k :: 0 <= k < |Writers(chain)| ==> Writers(chain)[k] == id || m.State(Writers(chain)[k]).Committed?
  }

  /** What the check and the tombstone really do to the version a transaction sees. */
  lemma ConflictCheckMeans(m: Manager, chain: Chain, t: Txn, k: nat)
    requires Linked(chain) && LatestVisible(m, chain, t) == Some(k)
    ensures Conflict(m, chain, t) <==> chain[k].xmax.Some? && m.State(chain[k].xmax.value).Committed?
    ensures chain[k].xmax.None? ==>
      k == |chain| - 1 && MarkDeleted(chain, t.id) == (chain[k := chain[k].(xmax := Some(t.id))], true)
    ensures chain[k].xmax.Some? ==> MarkDeleted(chain, t.id).0[k] == chain[k]
  {
    VisibleIff(m, chain[k], t);
  }

  /**
   First committer wins: when every other writer has committed, a Serializable write of a row it
   can see is either refused, exactly when the seen version has been superseded since, or
   tombstones exactly the version it saw, which is the newest one and still live.
  */
  lemma FirstCommitterWins(m: Manager, chain: Chain, t: Txn, k: nat)
    requires Linked(chain) && OthersCommitted(m, chain, t.id) && LatestVisible(m, chain, t) == Some(k)
    ensures Conflict(m, chain, t) <==> chain[k].xmax.Some?
    ensures !Conflict(m, chain, t) ==>
      k == |chain| - 1 && MarkDeleted(chain, t.id) == (chain[k := chain[k].(xmax := Some(t.id))], true)
  {
    VisibleIff(m, chain[k], t);
    ConflictCheckMeans(m, chain, t, k);
    if chain[k].xmax.Some? {
      assert chain[k].xmax.value == Writers(chain)[k + 1];
    }
  }

  /**
   An UPDATE that is let through always overwrites the cells of a matched row; it records the new
   values in a version iff the newest version of the row carries no tombstone, whoever set it and
   whether or not that transaction is still running, committed or was rolled back.
  */
  lemma UpdateRecordsIff(s: State, t: Txn, mask: seq<bool>, assigns: seq<Assignment>, i: nat)
    requires Good(s) && Enabled(s, Update(t, mask, assigns)) && !Refused(s, Update(t, mask, assigns))
    requires i < |s.tab.chains| && mask[i]
    ensures
      var s1, cells := Next(s, Update(t, mask, assigns)), Assign(s.tab.RowAt(i), assigns);
      var chain, chain1 := s.tab.chains[i], s1.tab.chains[i];
      && s1.tab.RowAt(i) == cells
      && (chain1 == MarkDeleted(chain, t.id).0 + [Version(t.id, None, cells)] <==> chain[|chain| - 1].xmax.None?)
      && (chain[|chain| - 1].xmax.Some? ==> chain1 == chain)
  {
    UpdatedRowAt(s.tab, t.id, mask, assigns, i);
    var chain := s.tab.chains[i];
    assert |MarkDeleted(chain, t.id).0| == |chain|;
  }

  /**
   A DELETE that is let through marks the newest version of exactly the matched rows, if nobody marked
   it before; every other version and every cell stays.
  */
  lemma DeleteMarks(s: State, t: Txn, mask: seq<bool>, i: nat)
    requires Good(s) && Enabled(s, Delete(t, mask)) && !Refused(s, Delete(t, mask)) && i < |s.tab.chains|
    ensures
      var s1, n := Next(s, Delete(t, mask)), |s.tab.chains[i]| - 1;
      var chain, chain1 := s.tab.chains[i], s1.tab.chains[i];
      && |chain1| == |chain| && (forall k :: 0 <= k < n ==> chain1[k] == chain[k])
      && chain1[n] == chain[n].(xmax := if mask[i] && chain[n].xmax.None? then Some(t.id) else chain[n].xmax)
      && s1.tab.columns == s.tab.columns && s1.mgr == s.mgr
  {
  }

  /** After a rolled-back DELETE a Serializable UPDATE of the row changes its cells and records nothing. */
  lemma OverwriteWithoutVersion(s: State, step: Step)
    requires s == State(Manager(4, 1, map[1 := Committed(1), 2 := Aborted, 3 := InProgress], map[3 := 1], None),
                        VTable([[7]], 1, [[Version(1, Some(2), [])]]))
    requires step == Update(Txn(3, 1, Serializable), [true], [Assignment(0, 8)])
    ensures Good(s) && Enabled(s, step) && !Refused(s, step)
    ensures LatestVisible(s.mgr, s.tab.chains[0], step.txn) == Some(0)
    ensures Next(s, step).tab.RowAt(0) == [8] && Next(s, step).tab.chains == s.tab.chains
  {
    var t, chain := step.txn, s.tab.chains[0];
    assert VisibleTo(s.mgr, chain[0], t);
    assert !Conflict(s.mgr, Chains(s.tab.chains, 0), t);
    assert !Refused(s, step);
    UpdateRecordsIff(s, t, [true], [Assignment(0, 8)], 0);
    var assigns := [Assignment(0, 8)];
    assert assigns[..0] == [] && s.tab.RowAt(0) == [7];
    assert Assign([7], assigns[..0]) == [7];
    assert Next(s, step).tab.chains == [chain];
  }

  // ----- how many versions a reader sees -----

  /** Each writer committed before the next different one came, so their commit ids increase. */
  ghost predicate Orderly(m: Manager, ws: seq<nat>) {
    forall k :: 0 <= k < |ws| - 1 ==> ws[k] == ws[k + 1] || Before(m, ws[k], ws[k + 1])
  }

  ghost predicate Before(m: Manager, a: nat, b: nat) {
    && m.State(a).Committed?
    && (m.State(b).Committed? ==> m.State(a).cid < m.State(b).cid)
  }

  lemma {:induction false} AfterOpenWriter(m: Manager, ws: seq<nat>, id: nat, j: nat, k: nat)
    requires Orderly(m, ws) && j <= k < |ws| && ws[j] == id && m.State(id).InProgress?
    ensures ws[k] == id
    decreases k - j
  {
    if j < k { AfterOpenWriter(m, ws, id, j + 1, k); }
  }

  /** Past an unseen writer a reader sees only its own writes. */
  lemma {:induction false} UnseenStays(m: Manager, ws: seq<nat>, t: Txn, j: nat, k: nat)
    requires Orderly(m, ws) && m.Open(t) && j <= k < |ws| && !Sees(m, t, ws[j]) && ws[k] != t.id
    ensures !Sees(m, t, ws[k])
    decreases k - j
  {
    if j < k {
      if ws[j + 1] == t.id { AfterOpenWriter(m, ws, t.id, j + 1, k); }
      UnseenStays(m, ws, t, j + 1, k);
    }
  }

  lemma LinkedVisible(m: Manager, chain: Chain, t: Txn, k: nat)
    requires Linked(chain) && k < |chain|
    ensures
      var ws := Writers(chain);
      VisibleTo(m, chain[k], t) <==> Sees(m, t, ws[k]) && (k + 1 < |ws| ==> !Sees(m, t, ws[k + 1]))
  {
    VisibleIff(m, chain[k], t);
  }

  /** The reader sees writer `k` but not the next one: version `k` is the last of a stretch it sees. */
  predicate LosesSight(m: Manager, ws: seq<nat>, t: Txn, k: nat)
    requires k < |ws|
  {
    Sees(m, t, ws[k]) && (k + 1 < |ws| ==> !Sees(m, t, ws[k + 1]))
  }

  /** The writers the reader sees come in one stretch: it loses sight of them at most once. */
  ghost predicate OneStretch(m: Manager, chain: Chain, t: Txn) {
    var ws := Writers(chain);
    forall j, k :: 0 <= j < k < |chain| ==> !(LosesSight(m, ws, t, j) && LosesSight(m, ws, t, k))
  }

  /** On every linked chain, whoever wrote it: at most one version is visible iff the seen writers come in one stretch. */
  lemma SingleVisibleIff(m: Manager, chain: Chain, t: Txn)
    requires Linked(chain)
    ensures AtMostOneVisible(m, chain, t) <==> OneStretch(m, chain, t)
  {
    var ws := Writers(chain);
    forall k | 0 <= k < |chain| ensures VisibleTo(m, chain[k], t) <==> LosesSight(m, ws, t, k) {
      LinkedVisible(m, chain, t, k);
    }
  }

  /** What an UPDATE that records a version does to its own view: everything seen below the newest version stays. */
  lemma OwnWriteVisibleIff(m: Manager, chain: Chain, t: Txn, values: seq<u64>)
    requires Linked(chain) && chain != [] && chain[|chain| - 1].xmax.None?
    ensures AtMostOneVisible(m, Superseded(chain, t.id, values), t) <==>
      forall k :: 0 <= k < |chain| - 1 ==> !VisibleTo(m, chain[k], t)
  {
    var chain1, n := Superseded(chain, t.id, values), |chain| - 1;
    assert chain1[n + 1] == Version(t.id, None, values);
    assert forall k :: 0 <= k < n ==> chain1[k] == chain[k];
    VisibleIff(m, chain1[n], t);
    VisibleIff(m, chain1[n + 1], t);
    assert VisibleTo(m, chain1[n + 1], t) && !VisibleTo(m, chain1[n], t);
    if AtMostOneVisible(m, chain1, t) {
      forall k | 0 <= k < n ensures !VisibleTo(m, chain[k], t) { assert chain1[k] == chain[k]; }
    }
  }

  /**
   When a write that passes the conflict check is safe: its own view stays at one version iff it
   sees the newest writer of the row. Otherwise the version it saw had been overwritten by another
   transaction that is still open or was rolled back, which the check does not look at.
  */
  lemma SerializableWriteSafeIff(m: Manager, chain: Chain, t: Txn, values: seq<u64>, k: nat)
    requires Linked(chain) && chain != [] && chain[|chain| - 1].xmax.None? && AtMostOneVisible(m, chain, t)
    requires LatestVisible(m, chain, t) == Some(k) && !Conflict(m, chain, t)
    ensures AtMostOneVisible(m, Superseded(chain, t.id, values), t) <==> Sees(m, t, chain[|chain| - 1].xmin)
    ensures !Sees(m, t, chain[|chain| - 1].xmin) ==>
      k + 1 < |chain| && chain[k + 1].xmin != t.id && !m.State(chain[k + 1].xmin).Committed?
  {
    var n := |chain| - 1;
    OwnWriteVisibleIff(m, chain, t, values);
    VisibleIff(m, chain[n], t);
    VisibleIff(m, chain[k], t);
  }

  /**
   A DELETE hides the row from its own transaction iff nothing below the newest version was visible
   to it and the newest version, if somebody had marked it before, was not visible either.
  */
  lemma OwnDeleteVisibleIff(m: Manager, chain: Chain, t: Txn)
    requires chain != []
    ensures
      var n := |chain| - 1;
      LatestVisible(m, MarkDeleted(chain, t.id).0, t).None? <==>
        && (forall k :: 0 <= k < n ==> !VisibleTo(m, chain[k], t))
        && (chain[n].xmax.Some? ==> !VisibleTo(m, chain[n], t))
  {
    var chain1, n := MarkDeleted(chain, t.id).0, |chain| - 1;
    forall k | 0 <= k < n ensures chain1[k] == chain[k] { }
    VisibleIff(m, chain1[n], t);
    if LatestVisible(m, chain1, t).None? {
      forall k | 0 <= k < n ensures !VisibleTo(m, chain[k], t) { assert !VisibleTo(m, chain1[k], t); }
    }
  }

  /** The DELETE that passes the conflict check hides the row from its own transaction iff it sees the newest writer. */
  lemma SerializableDeleteSafeIff(m: Manager, chain: Chain, t: Txn, k: nat)
    requires Linked(chain) && chain != [] && chain[|chain| - 1].xmax.None? && AtMostOneVisible(m, chain, t)
    requires LatestVisible(m, chain, t) == Some(k) && !Conflict(m, chain, t)
    ensures LatestVisible(m, MarkDeleted(chain, t.id).0, t).None? <==> Sees(m, t, chain[|chain| - 1].xmin)
  {
    var n := |chain| - 1;
    OwnDeleteVisibleIff(m, chain, t);
    VisibleIff(m, chain[n], t);
    VisibleIff(m, chain[k], t);
  }

  ghost predicate AtMostOneVisible(m: Manager, chain: Chain, t: Txn) {
    forall j, k :: 0 <= j < k < |chain| ==> !(VisibleTo(m, chain[j], t) && VisibleTo(m, chain[k], t))
  }

  /** The reader sees an old version, overwrote one it does not see, and its own is live. */
  ghost predicate Straddles(m: Manager, chain: Chain, t: Txn) {
    var ws := Writers(chain);
    && chain != [] && chain[|chain| - 1].xmax.None?
    && Sees(m, t, ws[0])
    && exists k :: OverUnseen(m, ws, t, k)
  }

  /** Write `k` is the reader's own, over a writer it does not see. */
  predicate OverUnseen(m: Manager, ws: seq<nat>, t: Txn, k: int) {
    1 <= k < |ws| && ws[k] == t.id && !Sees(m, t, ws[k - 1])
  }

  lemma TwoVisibleStraddles(m: Manager, chain: Chain, t: Txn, j: nat, k: nat)
    requires Linked(chain) && Orderly(m, Writers(chain)) && m.Open(t)
    requires j < k < |chain| && VisibleTo(m, chain[j], t) && VisibleTo(m, chain[k], t)
    ensures Straddles(m, chain, t)
  {
    var ws := Writers(chain);
    LinkedVisible(m, chain, t, j);
    LinkedVisible(m, chain, t, k);
    if ws[k] != t.id { UnseenStays(m, ws, t, j + 1, k); }
    var p := FirstOwn(m, ws, t, j + 1, k);
    assert OverUnseen(m, ws, t, p);
    if !Sees(m, t, ws[0]) {
      if ws[j] != t.id { UnseenStays(m, ws, t, 0, j); }
      AfterOpenWriter(m, ws, t.id, j, j + 1);
    }
  }

  /** Between an unseen writer and an own write there is an own write directly over an unseen one. */
  lemma {:induction false} FirstOwn(m: Manager, ws: seq<nat>, t: Txn, j: nat, k: nat) returns (p: nat)
    requires Orderly(m, ws) && m.Open(t) && j <= k < |ws| && !Sees(m, t, ws[j]) && ws[k] == t.id
    ensures j < p <= k && ws[p] == t.id && !Sees(m, t, ws[p - 1])
    decreases k - j
  {
    if ws[j + 1] == t.id {
      p := j + 1;
    } else {
      UnseenStays(m, ws, t, j, j + 1);
      p := FirstOwn(m, ws, t, j + 1, k);
    }
  }

  lemma {:induction false} Crossing(m: Manager, ws: seq<nat>, t: Txn, k: nat) returns (j: nat)
    requires k < |ws| && Sees(m, t, ws[0]) && !Sees(m, t, ws[k])
    ensures j < k && Sees(m, t, ws[j]) && !Sees(m, t, ws[j + 1])
    decreases k
  {
    if Sees(m, t, ws[k - 1]) { j := k - 1; } else { j := Crossing(m, ws, t, k - 1); }
  }

  /**
   With writers one after another, a transaction sees at most one version of a row iff it has not
   overwritten, over its own old view of the row, a version it cannot see.
  */
  lemma OrderlyVisibleIff(m: Manager, chain: Chain, t: Txn)
    requires Linked(chain) && Orderly(m, Writers(chain)) && m.Open(t)
    ensures AtMostOneVisible(m, chain, t) <==> !Straddles(m, chain, t)
  {
    if !AtMostOneVisible(m, chain, t) {
      var j, k :| 0 <= j < k < |chain| && VisibleTo(m, chain[j], t) && VisibleTo(m, chain[k], t);
      TwoVisibleStraddles(m, chain, t, j, k);
    }
    if Straddles(m, chain, t) {
      var ws := Writers(chain);
      var k :| OverUnseen(m, ws, t, k);
      var n := |chain| - 1;
      AfterOpenWriter(m, ws, t.id, k, n);
      LinkedVisible(m, chain, t, n);
      var j := Crossing(m, ws, t, k - 1);
      LinkedVisible(m, chain, t, j);
      assert VisibleTo(m, chain[j], t) && VisibleTo(m, chain[n], t);
    }
  }

  /** A reader that never wrote the row sees at most one version of it. */
  lemma PureReaderSeesOne(m: Manager, chain: Chain, t: Txn)
    requires Linked(chain) && Orderly(m, Writers(chain)) && m.Open(t) && t.id !in Writers(chain)
    ensures AtMostOneVisible(m, chain, t)
  {
    OrderlyVisibleIff(m, chain, t);
  }

  /** Under RepeatableRead a lost update makes a transaction see two versions of one row. */
  lemma LostUpdateShowsTwoVersions()
    ensures
      var m := Manager(4, 2, map[1 := Committed(1), 2 := InProgress, 3 := Committed(2)], map[2 := 1], None);
      var reader := Txn(2, 1, RepeatableRead);
      var chain := Superseded(Superseded([Version(1, None, [])], 3, [7]), 2, [8]);
      && m.Valid() && m.Open(reader) && Linked(chain) && Orderly(m, Writers(chain))
      && !AtMostOneVisible(m, chain, reader)
  {
    var m := Manager(4, 2, map[1 := Committed(1), 2 := InProgress, 3 := Committed(2)], map[2 := 1], None);
    var reader := Txn(2, 1, RepeatableRead);
    var chain := Superseded(Superseded([Version(1, None, [])], 3, [7]), 2, [8]);
    assert chain == [Version(1, Some(3), []), Version(3, Some(2), [7]), Version(2, None, [8])];
    assert VisibleTo(m, chain[0], reader) && VisibleTo(m, chain[2], reader);
  }

  /** A Serializable UPDATE over a version whose writer is still open passes the check and shows two versions. */
  lemma OpenWriterShowsTwoVersions(s: State, step: Step)
    requires s == State(Manager(4, 1, map[1 := Committed(1), 2 := InProgress, 3 := InProgress], map[2 := 1, 3 := 1], None),
                        VTable([[7]], 1, [[Version(1, Some(2), []), Version(2, None, [7])]]))
    requires step == Update(Txn(3, 1, Serializable), [true], [])
    ensures Good(s) && Enabled(s, step) && !Refused(s, step) && Linked(s.tab.chains[0])
    ensures AtMostOneVisible(s.mgr, s.tab.chains[0], step.txn)
    ensures !AtMostOneVisible(s.mgr, Next(s, step).tab.chains[0], step.txn)
  {
    var t, chain := step.txn, s.tab.chains[0];
    assert VisibleTo(s.mgr, chain[0], t) && !VisibleTo(s.mgr, chain[1], t);
    UnseenNewest(s, step);
  }

  /** The same over a version whose writer was rolled back. */
  lemma AbortedWriterShowsTwoVersions(s: State, step: Step)
    requires s == State(Manager(4, 1, map[1 := Committed(1), 2 := Aborted, 3 := InProgress], map[3 := 1], None),
                        VTable([[7]], 1, [[Version(1, Some(2), []), Version(2, None, [7])]]))
    requires step == Update(Txn(3, 1, Serializable), [true], [])
    ensures Good(s) && Enabled(s, step) && !Refused(s, step) && Linked(s.tab.chains[0])
    ensures AtMostOneVisible(s.mgr, s.tab.chains[0], step.txn)
    ensures !AtMostOneVisible(s.mgr, Next(s, step).tab.chains[0], step.txn)
  {
    var t, chain := step.txn, s.tab.chains[0];
    assert VisibleTo(s.mgr, chain[0], t) && !VisibleTo(s.mgr, chain[1], t);
    UnseenNewest(s, step);
  }

  /** A Serializable DELETE over a version whose writer is still open passes the check, and the row stays for its deleter. */
  lemma DeleteOverOpenWriter(s: State, step: Step)
    requires s == State(Manager(4, 1, map[1 := Committed(1), 2 := InProgress, 3 := InProgress], map[2 := 1, 3 := 1], None),
                        VTable([[7]], 1, [[Version(1, Some(2), []), Version(2, None, [7])]]))
    requires step == Delete(Txn(3, 1, Serializable), [true])
    ensures Good(s) && Enabled(s, step) && !Refused(s, step)
    ensures LatestVisible(s.mgr, s.tab.chains[0], step.txn) == Some(0)
    ensures Next(s, step).tab.chains[0][1].xmax == Some(3)
    ensures LatestVisible(s.mgr, Next(s, step).tab.chains[0], step.txn) == Some(0)
  {
    var t, chain := step.txn, s.tab.chains[0];
    assert VisibleTo(s.mgr, chain[0], t) && !VisibleTo(s.mgr, chain[1], t);
    UnseenNewestDelete(s, step);
  }

  lemma UnseenNewestDelete(s: State, step: Step)
    requires Enabled(s, step) && step.Delete? && step.mask == [true] && |s.tab.chains| == 1
    requires
      var chain := s.tab.chains[0];
      && |chain| == 2 && Linked(chain) && chain[1].xmax.None?
      && VisibleTo(s.mgr, chain[0], step.txn) && !VisibleTo(s.mgr, chain[1], step.txn)
      && !s.mgr.State(chain[1].xmin).Committed?
    ensures !Refused(s, step)
    ensures LatestVisible(s.mgr, s.tab.chains[0], step.txn) == Some(0)
    ensures |Next(s, step).tab.chains[0]| == 2 && Next(s, step).tab.chains[0][1].xmax == Some(step.txn.id)
    ensures LatestVisible(s.mgr, Next(s, step).tab.chains[0], step.txn) == Some(0)
  {
    var m, t, chain := s.mgr, step.txn, s.tab.chains[0];
    assert LatestVisible(m, chain, t) == Some(0);
    assert !Conflict(m, Chains(s.tab.chains, 0), t);
    assert !Refused(s, step);
    OwnDeleteVisibleIff(m, chain, t);
    VisibleIff(m, Next(s, step).tab.chains[0][1], t);
  }

  /**
   A later transaction that never wrote the row sees two versions of it: the UPDATE over a rolled-back
   version commits, and neither the first version nor the last has a committed deleter.
  */
  lemma ReaderAfterAbortedWriter(s: State, steps: seq<Step>)
    requires s == State(Manager(4, 1, map[1 := Committed(1), 2 := Aborted, 3 := InProgress], map[3 := 1], None),
                        VTable([[7]], 1, [[Version(1, Some(2), []), Version(2, None, [7])]]))
    requires steps == [Update(Txn(3, 1, Serializable), [true], []), Commit(Txn(3, 1, Serializable)), Begin(Serializable)]
    ensures Good(s) && RunEnabled(s, steps)
    ensures
      var s1, reader := Run(s, steps), Txn(4, 2, Serializable);
      && s1.mgr.Open(reader) && |s1.tab.chains| == 1 && Linked(s1.tab.chains[0]) && reader.id !in Writers(s1.tab.chains[0])
      && !AtMostOneVisible(s1.mgr, s1.tab.chains[0], reader)
  {
    AbortedWriterShowsTwoVersions(s, steps[0]);
    var s1 := Next(s, steps[0]);
    var chain := s1.tab.chains[0];
    assert chain == [Version(1, Some(2), []), Version(2, Some(3), [7]), Version(3, None, [7])] by {
      assert s.tab.RowAt(0) == [7];
    }
    var s2 := Next(s1, steps[1]);
    var s3 := Next(s2, steps[2]);
    RunOfThree(s, steps);
    var reader := Txn(4, 2, Serializable);
    assert VisibleTo(s3.mgr, chain[0], reader) && VisibleTo(s3.mgr, chain[2], reader);
  }

  lemma RunOfThree(s: State, steps: seq<Step>)
    requires |steps| == 3 && Enabled(s, steps[0]) && Enabled(Next(s, steps[0]), steps[1])
    requires Enabled(Next(Next(s, steps[0]), steps[1]), steps[2])
    ensures RunEnabled(s, steps) && Run(s, steps) == Next(Next(Next(s, steps[0]), steps[1]), steps[2])
  {
    var s1 := Next(s, steps[0]);
    var s2 := Next(s1, steps[1]);
    assert steps[1..][0] == steps[1] && steps[1..][1..] == [steps[2]];
    var s3, last := Next(s2, steps[2]), [steps[2]];
    assert last[0] == steps[2] && last[1..] == [];
    assert RunEnabled(s3, last[1..]) && Run(s3, last[1..]) == s3;
    assert RunEnabled(s2, last) && Run(s2, last) == Run(s3, last[1..]);
    assert RunEnabled(s1, steps[1..]) && Run(s1, steps[1..]) == Run(s2, last);
  }

  /** One row of two versions, the first seen and the second not: the UPDATE goes through and is unsafe. */
  lemma UnseenNewest(s: State, step: Step)
    requires Enabled(s, step) && step.Update? && step.mask == [true] && |s.tab.chains| == 1
    requires
      var chain := s.tab.chains[0];
      && |chain| == 2 && Linked(chain) && chain[1].xmax.None?
      && VisibleTo(s.mgr, chain[0], step.txn) && !VisibleTo(s.mgr, chain[1], step.txn)
      && !s.mgr.State(chain[1].xmin).Committed?
    ensures !Refused(s, step)
    ensures AtMostOneVisible(s.mgr, s.tab.chains[0], step.txn)
    ensures !AtMostOneVisible(s.mgr, Next(s, step).tab.chains[0], step.txn)
  {
    var m, t, chain := s.mgr, step.txn, s.tab.chains[0];
    var k := LatestVisible(m, chain, t);
    assert k == Some(0);
    assert !Conflict(m, Chains(s.tab.chains, 0), t);
    assert !Refused(s, step);
    OwnWriteVisibleIff(m, chain, t, Assign(s.tab.RowAt(0), step.assigns));
  }
}
