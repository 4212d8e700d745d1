/** What an open transaction sees never changes through the steps of other transactions. */
module MvccSnapshots {
  import opened Basics
  import opened Catalog
  import opened Constraints
  import opened Mvcc

  /** A step not taken by the reader itself. */
  predicate ByOther(step: Step, reader: Txn) {
    match step
    case Begin(_) => true
    case Vacuum => true
    case Insert(t, _) => t.id != reader.id
    case Update(t, _, _) => t.id != reader.id
    case Delete(t, _) => t.id != reader.id
    case Commit(t) => t.id != reader.id
    case Rollback(t) => t.id != reader.id
  }

  /** Creator and values of the version a reader gets for a row, if any. */
  function Seen(m: Manager, chain: Chain, t: Txn): Option<(nat, seq<u64>)> {
    match LatestVisible(m, chain, t)
    case None => None
    case Some(k) => Some((chain[k].xmin, chain[k].values))
  }

  /** The visible versions of a table, one per visible row, in row order. */
  function Scan(m: Manager, chains: seq<Chain>, t: Txn): seq<(nat, seq<u64>)> {
    if chains == [] then []
    else
      var n := |chains| - 1;
      var seen := Seen(m, chains[n], t);
      Scan(m, chains[..n], t) + (if seen.Some? then [seen.value] else [])
  }

  ghost predicate SameSight(m: Manager, m1: Manager, t: Txn) {
    forall id: nat :: Sees(m1, t, id) == Sees(m, t, id)
  }

  /** Nothing another transaction does moves a transaction into or out of the reader's sight. */
  lemma SightStable(s: State, step: Step, reader: Txn)
    requires Good(s) && Enabled(s, step) && s.mgr.Open(reader) && ByOther(step, reader)
    ensures Next(s, step).mgr.Open(reader)
    ensures SameSight(s.mgr, Next(s, step).mgr, reader)
  {
    var m1 := Next(s, step).mgr;
    forall id: nat ensures Sees(m1, reader, id) == Sees(s.mgr, reader, id) {
    }
  }

  lemma SightVisible(m: Manager, m1: Manager, t: Txn, v: Version)
    requires SameSight(m, m1, t)
    ensures VisibleTo(m1, v, t) == VisibleTo(m, v, t)
  {
    VisibleIff(m, v, t);
    VisibleIff(m1, v, t);
  }

  lemma {:induction false} SightLatest(m: Manager, m1: Manager, t: Txn, chain: Chain)
    requires SameSight(m, m1, t)
    ensures LatestVisible(m1, chain, t) == LatestVisible(m, chain, t)
    decreases |chain|
  {
    if chain != [] {
      SightVisible(m, m1, t, chain[|chain| - 1]);
      SightLatest(m, m1, t, chain[..|chain| - 1]);
    }
  }

  /** A writer the reader does not see leaves the reader's version of the row in place. */
  lemma UnseenWriter(m: Manager, chain: Chain, t: Txn, w: nat, values: seq<u64>)
    requires !Sees(m, t, w)
    ensures
      var marked, updated := MarkDeleted(chain, w).0, Superseded(chain, w, values);
      var k := LatestVisible(m, chain, t);
      && LatestVisible(m, marked, t) == k
      && LatestVisible(m, updated, t) == k
      && (k.Some? ==>
            marked[k.value].xmin == updated[k.value].xmin == chain[k.value].xmin
            && marked[k.value].values == updated[k.value].values == chain[k.value].values)
  {
    var marked, updated := MarkDeleted(chain, w).0, Superseded(chain, w, values);
    if chain != [] && chain[|chain| - 1].xmax.None? {
      var n := |chain| - 1;
      VisibleIff(m, chain[n], t);
      VisibleIff(m, marked[n], t);
      assert marked[..n] == chain[..n];
      var added := Version(w, None, values);
      VisibleIff(m, added, t);
      assert updated == marked + [added];
      assert updated[..n + 1] == marked && updated[n + 1] == added;
    }
  }

  lemma {:induction false} ScanPointwise(m: Manager, m1: Manager, chains: seq<Chain>, chains1: seq<Chain>, t: Txn)
    requires |chains| <= |chains1|
    requires forall i :: 0 <= i < |chains| ==> Seen(m1, chains1[i], t) == Seen(m, chains[i], t)
    requires forall i :: |chains| <= i < |chains1| ==> Seen(m1, chains1[i], t).None?
    ensures Scan(m1, chains1, t) == Scan(m, chains, t)
    decreases |chains1|
  {
    if chains1 != [] {
      var n := |chains1| - 1;
      if |chains| == |chains1| {
        ScanPointwise(m, m1, chains[..n], chains1[..n], t);
      } else {
        ScanPointwise(m, m1, chains, chains1[..n], t);
      }
    }
  }

  // ----- VACUUM -----

  /** A version VACUUM removes is invisible to every open transaction. */
  lemma DeadIsInvisible(m: Manager, oldest: nat, v: Version, t: Txn)
    requires m.Open(t) && oldest <= t.snapshot && Dead(m, oldest, v)
    ensures !VisibleTo(m, v, t)
  {
    VisibleIff(m, v, t);
  }

  lemma SeenSnoc(m: Manager, chain: Chain, v: Version, t: Txn)
    ensures Seen(m, chain + [v], t) == if VisibleTo(m, v, t) then Some((v.xmin, v.values)) else Seen(m, chain, t)
  {
    assert (chain + [v])[..|chain|] == chain;
  }

  lemma {:induction false} RetainSeen(m: Manager, oldest: nat, chain: Chain, t: Txn)
    requires m.Open(t) && oldest <= t.snapshot
    ensures Seen(m, Retain(m, oldest, chain), t) == Seen(m, chain, t)
    decreases |chain|
  {
    if chain != [] {
      var n := |chain| - 1;
      RetainSeen(m, oldest, chain[..n], t);
      assert chain == chain[..n] + [chain[n]];
      SeenSnoc(m, chain[..n], chain[n], t);
      if Dead(m, oldest, chain[n]) {
        DeadIsInvisible(m, oldest, chain[n], t);
        assert Retain(m, oldest, chain) == Retain(m, oldest, chain[..n]);
      } else {
        SeenSnoc(m, Retain(m, oldest, chain[..n]), chain[n], t);
      }
    }
  }

  /** The chains VACUUM leaves, in row order. */
  function Survivors(m: Manager, oldest: nat, chains: seq<Chain>): seq<Chain> {
    var live := LiveRows(m, oldest, chains);
    seq(|live|, k requires 0 <= k < |live| => Retain(m, oldest, chains[live[k]]))
  }

  lemma SurvivorsSnoc(m: Manager, oldest: nat, chains: seq<Chain>, c: Chain)
    ensures
      var kept := Retain(m, oldest, c);
      Survivors(m, oldest, chains + [c]) == Survivors(m, oldest, chains) + (if kept == [] then [] else [kept])
  {
    assert (chains + [c])[..|chains|] == chains;
    assert (chains + [c])[|chains|] == c;
  }

  lemma ScanSnoc(m: Manager, chains: seq<Chain>, c: Chain, t: Txn)
    ensures Scan(m, chains + [c], t) == Scan(m, chains, t) + (if Seen(m, c, t).Some? then [Seen(m, c, t).value] else [])
  {
    assert (chains + [c])[..|chains|] == chains;
    assert (chains + [c])[|chains|] == c;
  }

  lemma {:induction false} ScanSurvivors(m: Manager, oldest: nat, chains: seq<Chain>, t: Txn)
    requires m.Open(t) && oldest <= t.snapshot
    ensures Scan(m, Survivors(m, oldest, chains), t) == Scan(m, chains, t)
    decreases |chains|
  {
    if chains != [] {
      var n := |chains| - 1;
      var c := chains[n];
      var kept := Retain(m, oldest, c);
      assert chains == chains[..n] + [c];
      ScanSurvivors(m, oldest, chains[..n], t);
      RetainSeen(m, oldest, c, t);
      SurvivorsSnoc(m, oldest, chains[..n], c);
      ScanSnoc(m, chains[..n], c, t);
      if kept == [] {
        assert Survivors(m, oldest, chains) == Survivors(m, oldest, chains[..n]);
      } else {
        ScanSnoc(m, Survivors(m, oldest, chains[..n]), kept, t);
      }
    }
  }

  lemma VacuumScan(m: Manager, oldest: nat, tab: VTable, t: Txn)
    requires m.Open(t) && oldest <= t.snapshot && tab.Tracked()
    ensures Scan(m, Vacuumed(m, oldest, tab).chains, t) == Scan(m, tab.chains, t)
  {
    var after := Vacuumed(m, oldest, tab);
    if |LiveRows(m, oldest, tab.chains)| < tab.rowCount {
      assert after.chains == Survivors(m, oldest, tab.chains);
      ScanSurvivors(m, oldest, tab.chains, t);
    } else {
      forall i | 0 <= i < |tab.chains| ensures Seen(m, after.chains[i], t) == Seen(m, tab.chains[i], t) {
        RetainSeen(m, oldest, tab.chains[i], t);
      }
      ScanPointwise(m, m, tab.chains, after.chains, t);
    }
  }

  // ----- every step -----

  /** Row by row: steps other than VACUUM keep the position and the content of what is seen. */
  lemma RowStable(s: State, step: Step, reader: Txn, i: nat)
    requires Good(s) && Enabled(s, step) && s.mgr.Open(reader) && ByOther(step, reader) && !step.Vacuum?
    requires i < |Next(s, step).tab.chains|
    ensures |s.tab.chains| <= |Next(s, step).tab.chains|
    ensures
      var s1 := Next(s, step);
      && LatestVisible(s1.mgr, s1.tab.chains[i], reader) == LatestVisible(s.mgr, Chains(s.tab.chains, i), reader)
      && Seen(s1.mgr, s1.tab.chains[i], reader) == Seen(s.mgr, Chains(s.tab.chains, i), reader)
  {
    var s1 := Next(s, step);
    SightStable(s, step, reader);
    SightLatest(s.mgr, s1.mgr, reader, s1.tab.chains[i]);
    match step
    case Begin(_) =>
    case Commit(_) =>
    case Rollback(_) =>
    case Insert(t, rows) =>
      InsertedRowUnseen(s, t, rows, reader, i);
    case Update(t, mask, assigns) =>
      UnseenWriter(s.mgr, s.tab.chains[i], reader, t.id, Assign(s.tab.RowAt(i), assigns));
    case Delete(t, mask) =>
      UnseenWriter(s.mgr, s.tab.chains[i], reader, t.id, []);
  }

  /** The rows another transaction inserts are invisible, the rows before them untouched. */
  lemma InsertedRowUnseen(s: State, t: Txn, rows: seq<Row>, reader: Txn, i: nat)
    requires Good(s) && Enabled(s, Insert(t, rows)) && !Sees(s.mgr, reader, t.id)
    requires i < |Next(s, Insert(t, rows)).tab.chains|
    ensures |s.tab.chains| <= |Next(s, Insert(t, rows)).tab.chains|
    ensures
      var chain := Next(s, Insert(t, rows)).tab.chains[i];
      && LatestVisible(s.mgr, chain, reader) == LatestVisible(s.mgr, Chains(s.tab.chains, i), reader)
      && Seen(s.mgr, chain, reader) == Seen(s.mgr, Chains(s.tab.chains, i), reader)
  {
    InsertedChains(s.tab.chains, |rows|, t.id);
    VisibleIff(s.mgr, Version(t.id, None, []), reader);
    if i >= |s.tab.chains| {
      var chain := [Version(t.id, None, [])];
      assert Next(s, Insert(t, rows)).tab.chains[i] == chain;
      assert chain[..0] == [];
    }
  }

  /** One step of another transaction, VACUUM included, leaves the reader's whole scan as it was. */
  lemma StepStable(s: State, step: Step, reader: Txn)
    requires Good(s) && Enabled(s, step) && s.mgr.Open(reader) && ByOther(step, reader)
    ensures Next(s, step).mgr.Open(reader)
    ensures Scan(Next(s, step).mgr, Next(s, step).tab.chains, reader) == Scan(s.mgr, s.tab.chains, reader)
  {
    var s1 := Next(s, step);
    SightStable(s, step, reader);
    if step.Vacuum? {
      StepKeepsGood(s, step);
      VacuumScan(s1.mgr, Oldest(s1.mgr), s.tab, reader);
      forall i | 0 <= i < |s.tab.chains| ensures Seen(s1.mgr, s.tab.chains[i], reader) == Seen(s.mgr, s.tab.chains[i], reader) {
        SightLatest(s.mgr, s1.mgr, reader, s.tab.chains[i]);
      }
      ScanPointwise(s.mgr, s1.mgr, s.tab.chains, s.tab.chains, reader);
    } else {
      ChainsGrow(s, step);
      forall i | 0 <= i < |s1.tab.chains| ensures Seen(s1.mgr, s1.tab.chains[i], reader) == Seen(s.mgr, Chains(s.tab.chains, i), reader) {
        RowStable(s, step, reader, i);
      }
      ScanPointwise(s.mgr, s1.mgr, s.tab.chains, s1.tab.chains, reader);
    }
  }

  lemma ChainsGrow(s: State, step: Step)
    requires Good(s) && Enabled(s, step) && !step.Vacuum?
    ensures |s.tab.chains| <= |Next(s, step).tab.chains|
  {
    if step.Insert? { InsertedChains(s.tab.chains, |step.rows|, step.txn.id); }
  }

  // ----- every run -----

  /** Every step of the run is enabled when its turn comes. */
  ghost predicate RunEnabled(s: State, steps: seq<Step>)
    decreases |steps|
  {
    steps == [] || (Enabled(s, steps[0]) && RunEnabled(Next(s, steps[0]), steps[1..]))
  }

  ghost function Run(s: State, steps: seq<Step>): State
    requires RunEnabled(s, steps)
    decreases |steps|
  {
    if steps == [] then s else Run(Next(s, steps[0]), steps[1..])
  }

  ghost predicate AllByOthers(steps: seq<Step>, reader: Txn) {
    forall i :: 0 <= i < |steps| ==> ByOther(steps[i], reader)
  }

  lemma {:induction false} RunKeepsGood(s: State, steps: seq<Step>)
    requires Good(s) && RunEnabled(s, steps)
    ensures Good(Run(s, steps))
    decreases |steps|
  {
    if steps != [] {
      StepKeepsGood(s, steps[0]);
      RunKeepsGood(Next(s, steps[0]), steps[1..]);
    }
  }

  /**
   Snapshot stability: however many transactions begin, insert, update, delete, commit, roll back
   or VACUUM in the meantime, an open transaction scans the same versions in the same order.
  */
  lemma {:induction false} SnapshotStability(s: State, steps: seq<Step>, reader: Txn)
    requires Good(s) && RunEnabled(s, steps) && s.mgr.Open(reader) && AllByOthers(steps, reader)
    ensures Run(s, steps).mgr.Open(reader)
    ensures Scan(Run(s, steps).mgr, Run(s, steps).tab.chains, reader) == Scan(s.mgr, s.tab.chains, reader)
    decreases |steps|
  {
    if steps != [] {
      assert ByOther(steps[0], reader);
      StepKeepsGood(s, steps[0]);
      StepStable(s, steps[0], reader);
      SnapshotStability(Next(s, steps[0]), steps[1..], reader);
    }
  }

  ghost predicate NoVacuum(steps: seq<Step>) {
    forall i :: 0 <= i < |steps| ==> !steps[i].Vacuum?
  }

  /** Without VACUUM even the row indices and version positions stay: row `i` shows the same version. */
  lemma {:induction false} RowStability(s: State, steps: seq<Step>, reader: Txn, i: nat)
    requires Good(s) && RunEnabled(s, steps) && s.mgr.Open(reader) && AllByOthers(steps, reader) && NoVacuum(steps)
    ensures
      var s1 := Run(s, steps);
      LatestVisible(s1.mgr, Chains(s1.tab.chains, i), reader) == LatestVisible(s.mgr, Chains(s.tab.chains, i), reader)
    decreases |steps|
  {
    if steps != [] {
      assert ByOther(steps[0], reader) && !steps[0].Vacuum?;
      var s1 := Next(s, steps[0]);
      ChainsGrow(s, steps[0]);
      StepKeepsGood(s, steps[0]);
      SightStable(s, steps[0], reader);
      if i < |s1.tab.chains| {
        RowStable(s, steps[0], reader, i);
      }
      RowStability(s1, steps[1..], reader, i);
    }
  }

  /** The version a lookup returns for row `i` never moves either, for every reader above ReadUncommitted. */
  lemma LookupStability(s: State, steps: seq<Step>, reader: Txn, i: nat)
    requires Good(s) && RunEnabled(s, steps) && s.mgr.Open(reader) && AllByOthers(steps, reader) && NoVacuum(steps)
    requires reader.level != ReadUncommitted
    ensures
      var s1 := Run(s, steps);
      LatestAtLevel(s1.mgr, Chains(s1.tab.chains, i), reader) == LatestAtLevel(s.mgr, Chains(s.tab.chains, i), reader)
  {
    var s1 := Run(s, steps);
    RowStability(s, steps, reader, i);
    LevelsAgree(s1.mgr, Chains(s1.tab.chains, i), reader);
    LevelsAgree(s.mgr, Chains(s.tab.chains, i), reader);
  }

  /** A ReadUncommitted lookup moves as soon as another transaction writes the row. */
  lemma DirtyReadMoves(s: State, step: Step, reader: Txn)
    requires s == State(Manager(4, 1, map[1 := Committed(1), 2 := InProgress, 3 := InProgress], map[2 := 1, 3 := 1], None),
                        VTable([[7]], 1, [[Version(1, None, [])]]))
    requires step == Update(Txn(3, 1, RepeatableRead), [true], []) && reader == Txn(2, 1, ReadUncommitted)
    ensures Good(s) && Enabled(s, step) && s.mgr.Open(reader) && ByOther(step, reader)
    ensures LatestAtLevel(s.mgr, s.tab.chains[0], reader) == Some(0)
    ensures LatestAtLevel(Next(s, step).mgr, Next(s, step).tab.chains[0], reader) == Some(1)
  {
    var chain := s.tab.chains[0];
    assert VisibleAtLevel(s.mgr, chain[0], reader);
    var chain1 := Next(s, step).tab.chains[0];
    assert chain1[1].xmin == 3 && VisibleAtLevel(s.mgr, chain1[1], reader);
  }
}
