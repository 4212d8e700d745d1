/**
 The rows a SELECT returns to a transaction: which snapshot the scan reads with, and what the steps
 of other transactions can and cannot do to its answer.
*/
module ReaderScan {
  import opened Basics
  import opened Catalog
  import opened Constraints
  import opened Predicates
  import opened Mvcc
  import opened MvccSnapshots
  import opened MvccVacuum
  import opened RowScan

  // ----- whose snapshot -----

  /** With an active transaction a row is visible iff it has no versions or one its own snapshot shows. */
  lemma ActiveReaderSees(q: Query, m: Manager, t: Txn, i: nat)
    requires q.mvcc == Some(m) && m.current == Some(t)
    ensures
      var chain := Chains(q.chains, i);
      q.IsVisible(i) <==> chain == [] || exists k :: 0 <= k < |chain| && VisibleTo(m, chain[k], t)
  {
    var chain := Chains(q.chains, i);
    var latest := LatestVisible(m, chain, t);
    if k :| 0 <= k < |chain| && VisibleTo(m, chain[k], t) { assert latest.Some?; }
  }

  /** Written outside a transaction, or by one that has committed. */
  predicate Settled(m: Manager, id: nat) {
    id == 0 || m.State(id).Committed?
  }

  predicate SettledVersion(m: Manager, v: Version) {
    Settled(m, v.xmin) && (v.xmax.Some? ==> !Settled(m, v.xmax.value))
  }

  /** Without one it is visible iff it has no versions or one whose creator is settled and whose deleter is not. */
  lemma IdleReaderSees(q: Query, m: Manager, i: nat)
    requires q.mvcc == Some(m) && m.current.None? && m.Valid()
    ensures
      var chain := Chains(q.chains, i);
      q.IsVisible(i) <==> chain == [] || exists k :: 0 <= k < |chain| && SettledVersion(m, chain[k])
  {
    var chain, t := Chains(q.chains, i), Reader(m);
    var latest := LatestVisible(m, chain, t);
    forall k | 0 <= k < |chain| ensures VisibleTo(m, chain[k], t) <==> SettledVersion(m, chain[k]) {
      VisibleIff(m, chain[k], t);
    }
  }

  // ----- the answer of a fixed reader -----

  /** The scan of transaction `t` over the table of the state. */
  function ScanOf(s: State, t: Txn, names: seq<string>, where: WhereClause): Query {
    Query(where, QTable(s.tab.columns, names, s.tab.rowCount, [], []), s.tab.chains, Some(s.mgr.(current := Some(t))))
  }

  lemma {:induction false} LatestOfCurrent(m: Manager, chain: Chain, t: Txn, u: Txn)
    ensures LatestVisible(m.(current := Some(u)), chain, t) == LatestVisible(m, chain, t)
    decreases |chain|
  {
    if chain != [] { LatestOfCurrent(m, chain[..|chain| - 1], t, u); }
  }

  /** A run of other transactions without VACUUM. */
  ghost predicate OthersRun(s: State, steps: seq<Step>, t: Txn) {
    Good(s) && RunEnabled(s, steps) && s.mgr.Open(t) && AllByOthers(steps, t) && NoVacuum(steps)
  }

  lemma {:induction false} RunGrows(s: State, steps: seq<Step>, t: Txn)
    requires OthersRun(s, steps, t)
    ensures
      var s1 := Run(s, steps);
      Good(s1) && s.tab.rowCount <= s1.tab.rowCount && |s1.tab.columns| == |s.tab.columns|
    decreases |steps|
  {
    if steps != [] {
      assert ByOther(steps[0], t) && !steps[0].Vacuum?;
      StepKeepsGood(s, steps[0]);
      StepStable(s, steps[0], t);
      ChainsGrow(s, steps[0]);
      RunGrows(Next(s, steps[0]), steps[1..], t);
    }
  }

  /** The run changes the visibility of no row: old rows keep theirs, new rows are hidden. */
  lemma VisibilityStays(s: State, steps: seq<Step>, t: Txn, names: seq<string>, where: WhereClause, i: nat)
    requires OthersRun(s, steps, t) && i < Run(s, steps).tab.rowCount
    ensures ScanOf(Run(s, steps), t, names, where).IsVisible(i) <==> i < s.tab.rowCount && ScanOf(s, t, names, where).IsVisible(i)
  {
    var s1 := Run(s, steps);
    RunGrows(s, steps, t);
    RowStability(s, steps, t, i);
    LatestOfCurrent(s.mgr, Chains(s.tab.chains, i), t, t);
    LatestOfCurrent(s1.mgr, Chains(s1.tab.chains, i), t, t);
  }

  /** What the clause says of row `i` has not changed. */
  predicate SameVerdict(s: State, s1: State, where: WhereClause, i: nat) {
    RowMatches(where, s1.tab.RowAt(i)) == RowMatches(where, s.tab.RowAt(i))
  }

  /**
   The answers before and after any run of other transactions without VACUUM are equal iff the
   clause still says the same of the cells of every row the reader sees. UPDATE changes cells in place.
  */
  lemma AnswerStableIff(s: State, steps: seq<Step>, t: Txn, names: seq<string>, where: WhereClause, r: seq<nat>, r1: seq<nat>)
    requires OthersRun(s, steps, t)
    requires IsAnswer(ScanOf(s, t, names, where), r) && IsAnswer(ScanOf(Run(s, steps), t, names, where), r1)
    ensures r1 == r <==>
      forall i: nat :: i < s.tab.rowCount && ScanOf(s, t, names, where).IsVisible(i) ==> SameVerdict(s, Run(s, steps), where, i)
  {
    var s1 := Run(s, steps);
    var q, q1 := ScanOf(s, t, names, where), ScanOf(s1, t, names, where);
    RunGrows(s, steps, t);
    forall i: nat ensures i in r1 <==> i < s.tab.rowCount && q.IsVisible(i) && RowMatches(where, s1.tab.RowAt(i)) {
      if i < s1.tab.rowCount { VisibilityStays(s, steps, t, names, where, i); }
    }
    if forall i: nat :: i < s.tab.rowCount && q.IsVisible(i) ==> SameVerdict(s, s1, where, i) {
      forall i: nat ensures i in r1 <==> i in r { }
      SortedUnique(r1, r);
    }
    if r1 == r {
      forall i: nat | i < s.tab.rowCount && q.IsVisible(i) ensures SameVerdict(s, s1, where, i) {
        assert i in r <==> i in r1;
      }
    }
  }

  // ----- runs that leave the clause alone -----

  /** No UPDATE of the run assigns a column the clause reads. */
  ghost predicate LeavesClause(steps: seq<Step>, where: WhereClause) {
    forall k :: 0 <= k < |steps| ==> StepLeavesClause(steps[k], where)
  }

  predicate StepLeavesClause(step: Step, where: WhereClause) {
    step.Update? ==> forall k :: 0 <= k < |step.assigns| ==> !Uses(where, step.assigns[k].col)
  }

  lemma {:induction false} UsedCellsDecide(where: WhereClause, row: Row, row1: Row)
    requires |row| == |row1| && forall c :: 0 <= c < |row| && Uses(where, c) ==> row1[c] == row[c]
    ensures RowMatches(where, row1) == RowMatches(where, row)
  {
    if where.AndClause? || where.OrClause? {
      UsedCellsDecide(where.left, row, row1);
      UsedCellsDecide(where.right, row, row1);
    }
  }

  lemma StepKeepsVerdict(s: State, step: Step, where: WhereClause, i: nat)
    requires Good(s) && Enabled(s, step) && !step.Vacuum? && StepLeavesClause(step, where) && i < s.tab.rowCount
    ensures SameVerdict(s, Next(s, step), where, i)
  {
    var row, row1 := s.tab.RowAt(i), Next(s, step).tab.RowAt(i);
    if step.Insert? {
      InsertedRows(s.tab, step.txn.id, step.rows);
    } else if step.Update? && !Refused(s, step) {
      UpdatedRowsWritten(s.tab, step.txn.id, step.mask, step.assigns, i);
      if step.mask[i] {
        forall c | 0 <= c < |row| && Uses(where, c) ensures row1[c] == row[c] { assert !Assigns(step.assigns, c); }
        UsedCellsDecide(where, row, row1);
      }
    }
  }

  lemma {:induction false} RunKeepsVerdict(s: State, steps: seq<Step>, t: Txn, where: WhereClause, i: nat)
    requires OthersRun(s, steps, t) && LeavesClause(steps, where) && i < s.tab.rowCount
    ensures SameVerdict(s, Run(s, steps), where, i)
    decreases |steps|
  {
    if steps != [] {
      var s1 := Next(s, steps[0]);
      assert ByOther(steps[0], t) && !steps[0].Vacuum? && StepLeavesClause(steps[0], where);
      StepKeepsVerdict(s, steps[0], where, i);
      StepKeepsGood(s, steps[0]);
      StepStable(s, steps[0], t);
      ChainsGrow(s, steps[0]);
      RunKeepsVerdict(s1, steps[1..], t, where, i);
    }
  }

  /**
   An open transaction gets the same answer before and after any run of other transactions' INSERTs,
   DELETEs, COMMITs, ROLLBACKs and UPDATEs of columns the clause does not read.
  */
  lemma AnswerStable(s: State, steps: seq<Step>, t: Txn, names: seq<string>, where: WhereClause, r: seq<nat>, r1: seq<nat>)
    requires OthersRun(s, steps, t) && LeavesClause(steps, where)
    requires IsAnswer(ScanOf(s, t, names, where), r) && IsAnswer(ScanOf(Run(s, steps), t, names, where), r1)
    ensures r1 == r
  {
    AnswerStableIff(s, steps, t, names, where, r, r1);
    forall i: nat | i < s.tab.rowCount ensures SameVerdict(s, Run(s, steps), where, i) {
      RunKeepsVerdict(s, steps, t, where, i);
    }
  }

  /** Row selection run twice, with anything of that kind in between and any number of threads, returns one list. */
  method ScanTwice(s: State, s1: State, ghost steps: seq<Step>, t: Txn, names: seq<string>, where: WhereClause,
                   hash: string -> u64, threads: nat, threads1: nat) returns (r: seq<nat>, r1: seq<nat>)
    requires OthersRun(s, steps, t) && LeavesClause(steps, where) && s1 == Run(s, steps)
    requires |names| == |s.tab.columns| <= TWO_64 && WellScoped(where, |names|) && NoAlias(where, names)
    ensures r1 == r && IsAnswer(ScanOf(s, t, names, where), r)
  {
    RunGrows(s, steps, t);
    r := FilterIndices(ScanOf(s, t, names, where), hash, threads);
    r1 := FilterIndices(ScanOf(s1, t, names, where), hash, threads1);
    KeptIsAnswer(ScanOf(s, t, names, where), s.tab.rowCount);
    KeptIsAnswer(ScanOf(s1, t, names, where), s1.tab.rowCount);
    AnswerStable(s, steps, t, names, where, r, r1);
  }

  // ----- one UPDATE of another transaction -----

  /**
   One UPDATE that goes through leaves the reader's answer alone iff the clause says of every matched
   row the reader sees the same before and after the assignments.
  */
  lemma UpdateMovesAnswerIff(s: State, step: Step, t: Txn, names: seq<string>, where: WhereClause, r: seq<nat>, r1: seq<nat>)
    requires Good(s) && step.Update? && Enabled(s, step) && !Refused(s, step) && s.mgr.Open(t) && ByOther(step, t)
    requires IsAnswer(ScanOf(s, t, names, where), r) && IsAnswer(ScanOf(Next(s, step), t, names, where), r1)
    ensures r1 == r <==>
      forall i: nat :: i < s.tab.rowCount && step.mask[i] && ScanOf(s, t, names, where).IsVisible(i) ==>
        RowMatches(where, Assign(s.tab.RowAt(i), step.assigns)) == RowMatches(where, s.tab.RowAt(i))
  {
    var s1 := Next(s, step);
    assert RunEnabled(s, [step]) && Run(s, [step]) == s1 by { RunOfOne(s, step); }
    AnswerStableIff(s, [step], t, names, where, r, r1);
    forall i: nat | i < s.tab.rowCount
      ensures SameVerdict(s, s1, where, i) <==>
        (step.mask[i] ==> RowMatches(where, Assign(s.tab.RowAt(i), step.assigns)) == RowMatches(where, s.tab.RowAt(i)))
    {
      UpdatedCell(s, step, i);
    }
  }

  lemma UpdatedCell(s: State, step: Step, i: nat)
    requires Good(s) && step.Update? && Enabled(s, step) && !Refused(s, step) && i < s.tab.rowCount
    ensures Next(s, step).tab.RowAt(i) == if step.mask[i] then Assign(s.tab.RowAt(i), step.assigns) else s.tab.RowAt(i)
  {
    UpdatedRowsWritten(s.tab, step.txn.id, step.mask, step.assigns, i);
    AssignIff(s.tab.RowAt(i), Next(s, step).tab.RowAt(i), step.assigns);
  }

  lemma RunOfOne(s: State, step: Step)
    requires Enabled(s, step)
    ensures RunEnabled(s, [step]) && Run(s, [step]) == Next(s, step)
  {
    var steps := [step];
    assert steps[1..] == [];
    assert RunEnabled(Next(s, step), steps[1..]) && Run(Next(s, step), steps[1..]) == Next(s, step);
  }

  lemma OneRowAnswer(q: Query)
    requires q.table.rowCount == 1
    ensures IsAnswer(q, if q.Keeps(0) then [0] else [])
  {
  }

  lemma OneVersion(s: State, t: Txn)
    requires |s.tab.chains| == 1 && |s.tab.chains[0]| == 1 && VisibleTo(s.mgr, s.tab.chains[0][0], t)
    ensures forall names, where :: ScanOf(s, t, names, where).IsVisible(0)
  {
    LatestOfCurrent(s.mgr, s.tab.chains[0], t, t);
  }

  lemma CellMovesAnswer(s: State, step: Step, t: Txn, where: WhereClause)
    requires Good(s) && step.Update? && Enabled(s, step) && !Refused(s, step)
    requires s.tab.rowCount == 1 && s.tab.RowAt(0) == [7] && ScanOf(s, t, ["k"], where).IsVisible(0)
    requires step.mask == [true] && step.assigns == [Assignment(0, 8)] && where == Single(Filter(0, Eq, 7))
    ensures IsAnswer(ScanOf(s, t, ["k"], where), [0]) && IsAnswer(ScanOf(Next(s, step), t, ["k"], where), [])
  {
    OneRowAnswer(ScanOf(s, t, ["k"], where));
    UpdatedCell(s, step, 0);
    AssignedValue([7], step.assigns, 0);
    OneRowAnswer(ScanOf(Next(s, step), t, ["k"], where));
  }

  /** An UPDATE that has not even committed takes the row out of the answer of a RepeatableRead reader. */
  lemma UncommittedUpdateMovesAnswer(s: State, step: Step, t: Txn, where: WhereClause)
    requires s == State(Manager(4, 1, map[1 := Committed(1), 2 := InProgress, 3 := InProgress], map[2 := 1, 3 := 1], None),
                        VTable([[7]], 1, [[Version(1, None, [])]]))
    requires t == Txn(2, 1, RepeatableRead) && step == Update(Txn(3, 1, RepeatableRead), [true], [Assignment(0, 8)])
    requires where == Single(Filter(0, Eq, 7))
    ensures Good(s) && Enabled(s, step) && s.mgr.Open(t) && ByOther(step, t)
    ensures IsAnswer(ScanOf(s, t, ["k"], where), [0]) && IsAnswer(ScanOf(Next(s, step), t, ["k"], where), [])
  {
    assert s.tab.RowAt(0) == [7];
    OneVersion(s, t);
    CellMovesAnswer(s, step, t, where);
  }
}
