/**
 What COMMIT and ROLLBACK mean to everybody else, for the rest of the run: a rolled-back
 transaction might never have written, a committed one is seen by whoever begins later and by
 nobody who began earlier.
*/
module MvccOutcomes {
  import opened Basics
  import opened Mvcc
  import opened MvccSnapshots

  // ----- a transaction that is over stays as it ended -----

  lemma StepKeepsOutcome(s: State, step: Step, id: nat)
    requires Good(s) && Enabled(s, step) && id < s.mgr.nextId && !s.mgr.State(id).InProgress?
    ensures id < Next(s, step).mgr.nextId && Next(s, step).mgr.State(id) == s.mgr.State(id)
    ensures s.mgr.commitId <= Next(s, step).mgr.commitId
  {
  }

  lemma {:induction false} RunKeepsOutcome(s: State, steps: seq<Step>, id: nat)
    requires Good(s) && RunEnabled(s, steps) && id < s.mgr.nextId && !s.mgr.State(id).InProgress?
    ensures Run(s, steps).mgr.State(id) == s.mgr.State(id)
    ensures s.mgr.commitId <= Run(s, steps).mgr.commitId
    decreases |steps|
  {
    if steps != [] {
      StepKeepsOutcome(s, steps[0], id);
      StepKeepsGood(s, steps[0]);
      RunKeepsOutcome(Next(s, steps[0]), steps[1..], id);
    }
  }

  // ----- ROLLBACK -----

  /** `t` rolls back, then anything happens. */
  ghost predicate RolledBackRun(s: State, t: Txn, steps: seq<Step>) {
    Good(s) && Enabled(s, Rollback(t)) && RunEnabled(Next(s, Rollback(t)), steps)
  }

  ghost function AfterRollback(s: State, t: Txn, steps: seq<Step>): State
    requires RolledBackRun(s, t, steps)
  {
    Run(Next(s, Rollback(t)), steps)
  }

  lemma RolledBackStays(s: State, t: Txn, steps: seq<Step>)
    requires RolledBackRun(s, t, steps)
    ensures AfterRollback(s, t, steps).mgr.State(t.id).Aborted?
  {
    StepKeepsGood(s, Rollback(t));
    RunKeepsOutcome(Next(s, Rollback(t)), steps, t.id);
  }

  /** After a ROLLBACK, at every later moment, no other reader at any level sees what it wrote or misses what it deleted. */
  lemma RolledBackUnseen(s: State, t: Txn, steps: seq<Step>, u: Txn, v: Version)
    requires RolledBackRun(s, t, steps) && u.id != t.id
    ensures
      var m := AfterRollback(s, t, steps).mgr;
      && (v.xmin == t.id ==> !VisibleTo(m, v, u) && !VisibleAtLevel(m, v, u))
      && (v.xmax == Some(t.id) ==>
            && VisibleTo(m, v, u) == VisibleTo(m, v.(xmax := None), u)
            && VisibleAtLevel(m, v, u) == VisibleAtLevel(m, v.(xmax := None), u))
  {
    RolledBackStays(s, t, steps);
  }

  /** The chain as if `id` had never written it. */
  function Erased(chain: Chain, id: nat): Chain {
    if chain == [] then []
    else
      var n := |chain| - 1;
      var v := chain[n];
      Erased(chain[..n], id) +
      (if v.xmin == id then [] else [if v.xmax == Some(id) then v.(xmax := None) else v])
  }

  lemma {:induction false} ErasedSeen(m: Manager, chain: Chain, id: nat, u: Txn)
    requires m.State(id).Aborted? && u.id != id
    ensures Seen(m, Erased(chain, id), u) == Seen(m, chain, u)
    decreases |chain|
  {
    if chain != [] {
      var n := |chain| - 1;
      var v := chain[n];
      ErasedSeen(m, chain[..n], id, u);
      assert chain == chain[..n] + [v];
      SeenSnoc(m, chain[..n], v, u);
      if v.xmin == id {
        assert Erased(chain, id) == Erased(chain[..n], id);
      } else {
        SeenSnoc(m, Erased(chain[..n], id), if v.xmax == Some(id) then v.(xmax := None) else v, u);
      }
    }
  }

  function AllErased(chains: seq<Chain>, id: nat): (r: seq<Chain>)
    ensures |r| == |chains| && forall i :: 0 <= i < |r| ==> r[i] == Erased(chains[i], id)
  {
    seq(|chains|, i requires 0 <= i < |chains| => Erased(chains[i], id))
  }

  lemma {:induction false} ErasedScan(m: Manager, chains: seq<Chain>, id: nat, u: Txn)
    requires m.State(id).Aborted? && u.id != id
    ensures Scan(m, AllErased(chains, id), u) == Scan(m, chains, u)
    decreases |chains|
  {
    if chains != [] {
      var n := |chains| - 1;
      ErasedSeen(m, chains[n], id, u);
      ErasedScan(m, chains[..n], id, u);
      assert AllErased(chains, id)[..n] == AllErased(chains[..n], id);
    }
  }

  /**
   After a ROLLBACK, at every later moment, every other reader scans exactly what it would scan had
   the transaction written nothing: none of its versions, none of its tombstones.
  */
  lemma RollbackErases(s: State, t: Txn, steps: seq<Step>, u: Txn)
    requires RolledBackRun(s, t, steps) && u.id != t.id
    ensures
      var s1 := AfterRollback(s, t, steps);
      Scan(s1.mgr, s1.tab.chains, u) == Scan(s1.mgr, AllErased(s1.tab.chains, t.id), u)
  {
    var s1 := AfterRollback(s, t, steps);
    RolledBackStays(s, t, steps);
    ErasedScan(s1.mgr, s1.tab.chains, t.id, u);
  }

  // ----- COMMIT -----

  /** `t` commits, then anything happens. */
  ghost predicate CommittedRun(s: State, t: Txn, steps: seq<Step>) {
    Good(s) && Enabled(s, Commit(t)) && RunEnabled(Next(s, Commit(t)), steps)
  }

  ghost function AfterCommit(s: State, t: Txn, steps: seq<Step>): State
    requires CommittedRun(s, t, steps)
  {
    Run(Next(s, Commit(t)), steps)
  }

  /** At every later moment another transaction takes a commit into account iff its snapshot was taken after it. */
  lemma CommitSeenIff(s: State, t: Txn, steps: seq<Step>, u: Txn)
    requires CommittedRun(s, t, steps) && u.id != t.id
    ensures Sees(AfterCommit(s, t, steps).mgr, u, t.id) <==> u.snapshot > s.mgr.commitId
    ensures AfterCommit(s, t, steps).mgr.commitId > s.mgr.commitId
  {
    StepKeepsGood(s, Commit(t));
    RunKeepsOutcome(Next(s, Commit(t)), steps, t.id);
  }

  /** A transaction that begins after the COMMIT sees its live versions and none of the versions it deleted. */
  lemma BegunAfterCommitSees(s: State, t: Txn, steps: seq<Step>, level: IsolationLevel, v: Version)
    requires CommittedRun(s, t, steps)
    ensures
      var s1 := AfterCommit(s, t, steps);
      var m, u := Next(s1, Begin(level)).mgr, Begun(s1.mgr, level).1;
      && m.Open(u) && u.id != t.id
      && (v.xmin == t.id && v.xmax.None? ==> VisibleTo(m, v, u))
      && (v.xmax == Some(t.id) ==> !VisibleTo(m, v, u))
  {
    var s1 := AfterCommit(s, t, steps);
    var u := Begun(s1.mgr, level).1;
    StepKeepsGood(s, Commit(t));
    RunKeepsGood(Next(s, Commit(t)), steps);
    RunKeepsOutcome(Next(s, Commit(t)), steps, t.id);
    assert s1.mgr.State(t.id).Committed?;
    CommitSeenIff(s, t, steps, u);
    StepKeepsOutcome(s1, Begin(level), t.id);
    VisibleIff(Next(s1, Begin(level)).mgr, v, u);
  }

  /** A transaction that was open before the COMMIT never sees what it wrote, and keeps seeing what it deleted. */
  lemma OpenBeforeCommitUnmoved(s: State, t: Txn, steps: seq<Step>, u: Txn, v: Version)
    requires CommittedRun(s, t, steps) && u.id != t.id && s.mgr.Open(u)
    ensures
      var m := AfterCommit(s, t, steps).mgr;
      && (v.xmin == t.id ==> !VisibleTo(m, v, u))
      && (v.xmax == Some(t.id) ==> VisibleTo(m, v, u) == VisibleTo(m, v.(xmax := None), u))
  {
    CommitSeenIff(s, t, steps, u);
    VisibleIff(AfterCommit(s, t, steps).mgr, v, u);
    VisibleIff(AfterCommit(s, t, steps).mgr, v.(xmax := None), u);
  }
}
