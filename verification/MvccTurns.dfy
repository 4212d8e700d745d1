/**
 Runs in which the writers of a row take turns: each has committed before the next one writes it.
 Nothing is asked of the isolation level, and VACUUM may come at any time.
*/
module MvccTurns {
  import opened Basics
  import opened Constraints
  import opened Mvcc
  import opened MvccSnapshots
  import opened MvccChains

  /** A step that writes a row only after every other writer of the row has committed. */
  ghost predicate InTurn(s: State, step: Step)
    requires Enabled(s, step)
  {
    match step
    case Update(t, mask, _) => WritesInTurn(s, t, mask)
    case Delete(t, mask) => WritesInTurn(s, t, mask)
    case _ => true
  }

  ghost predicate WritesInTurn(s: State, t: Txn, mask: seq<bool>)
    requires |mask| == s.tab.rowCount
  {
    forall i :: 0 <= i < |s.tab.chains| && i < |mask| && mask[i] ==> OthersCommitted(s.mgr, s.tab.chains[i], t.id)
  }

  /** One row of a run written in turns. */
  ghost predicate TurnChain(m: Manager, chain: Chain) {
    && chain != [] && Linked(chain) && Orderly(m, Writers(chain))
    && forall k :: 0 <= k < |Writers(chain)| ==> Writers(chain)[k] < m.nextId
  }

  ghost predicate TurnState(s: State) {
    Good(s) && forall i :: 0 <= i < |s.tab.chains| ==> TurnChain(s.mgr, s.tab.chains[i])
  }

  /** A new manager and an empty table: where every run begins. */
  ghost function Fresh(width: nat): State {
    State(NewManager(), VTable(seq(width, _ => []), 0, []))
  }

  // ----- the manager's steps -----

  lemma ManagerStepOrderly(s: State, step: Step, ws: seq<nat>)
    requires Good(s) && Enabled(s, step) && Orderly(s.mgr, ws)
    requires step.Begin? || step.Commit? || step.Rollback?
    ensures Orderly(Next(s, step).mgr, ws) || exists k :: 0 <= k < |ws| && ws[k] >= s.mgr.nextId
  {
    var m, m1 := s.mgr, Next(s, step).mgr;
    if forall k :: 0 <= k < |ws| ==> ws[k] < m.nextId {
      forall k | 0 <= k < |ws| - 1 && ws[k] != ws[k + 1] ensures Before(m1, ws[k], ws[k + 1]) {
        assert Before(m, ws[k], ws[k + 1]);
      }
    }
  }

  // ----- writes -----

  lemma AppendedTurn(m: Manager, chain: Chain, chain1: Chain, t: Txn)
    requires m.Valid() && TurnChain(m, chain) && m.Open(t) && OthersCommitted(m, chain, t.id)
    requires Linked(chain1) && Writers(chain1) == Writers(chain) + [t.id] && chain1 != []
    ensures TurnChain(m, chain1)
  {
    var ws, ws1 := Writers(chain), Writers(chain1);
    assert ws1[|ws|] == t.id;
    forall k | 0 <= k < |ws1| - 1 ensures ws1[k] == ws1[k + 1] || Before(m, ws1[k], ws1[k + 1]) {
      if k + 1 < |ws| { assert ws[k] == ws[k + 1] || Before(m, ws[k], ws[k + 1]); }
    }
  }

  lemma WrittenTurn(m: Manager, t: Txn, chain: Chain, values: seq<u64>)
    requires m.Valid() && TurnChain(m, chain) && m.Open(t) && OthersCommitted(m, chain, t.id)
    ensures TurnChain(m, MarkDeleted(chain, t.id).0) && TurnChain(m, Superseded(chain, t.id, values))
  {
    WriteLinked(chain, t.id, values);
    if MarkDeleted(chain, t.id).1 {
      AppendedTurn(m, chain, MarkDeleted(chain, t.id).0, t);
      AppendedTurn(m, chain, Superseded(chain, t.id, values), t);
    }
  }

  lemma InsertedTurn(m: Manager, id: nat)
    requires m.Valid() && id in m.states
    ensures TurnChain(m, [Version(id, None, [])])
  {
    assert Writers([Version(id, None, [])]) == [id];
  }

  // ----- VACUUM -----

  /** The version was deleted by a transaction every open one sees. */
  predicate Outlived(m: Manager, oldest: nat, v: Version) {
    v.xmax.Some? && m.State(v.xmax.value).Committed? && m.State(v.xmax.value).cid <= oldest
  }

  lemma OrderlyPrefix(m: Manager, chain: Chain)
    requires chain != [] && Linked(chain) && Orderly(m, Writers(chain))
    ensures
      var init := chain[..|chain| - 1];
      Linked(init) && Orderly(m, Writers(init)) && (init != [] ==> Writers(init) == Writers(chain)[..|chain|])
  {
    var n := |chain| - 1;
    var init, ws := chain[..n], Writers(chain);
    if init != [] {
      assert init[n - 1].xmax == Some(chain[n].xmin);
      var before := Writers(init);
      assert before == ws[..n + 1];
      forall k | 0 <= k < n ensures before[k] == before[k + 1] || Before(m, before[k], before[k + 1]) {
        assert ws[k] == ws[k + 1] || Before(m, ws[k], ws[k + 1]);
      }
    }
  }

  /** If the newest version is outlived, so are all before it. */
  lemma {:induction false} OutlivedDown(m: Manager, oldest: nat, chain: Chain, k: nat)
    requires Linked(chain) && Orderly(m, Writers(chain)) && k < |chain| && Outlived(m, oldest, chain[|chain| - 1])
    ensures Outlived(m, oldest, chain[k])
    decreases |chain| - k
  {
    if k < |chain| - 1 {
      OutlivedDown(m, oldest, chain, k + 1);
      var ws := Writers(chain);
      assert chain[k].xmax.value == ws[k + 1] && chain[k + 1].xmax.value == ws[k + 2];
      assert ws[k + 1] == ws[k + 2] || Before(m, ws[k + 1], ws[k + 2]);
    }
  }

  /** What VACUUM keeps of a chain written in turns: all but outlived versions at its start and aborted ones at its end. */
  lemma {:induction false} RetainSlice(m: Manager, oldest: nat, chain: Chain) returns (a: nat, b: nat)
    requires Linked(chain) && Orderly(m, Writers(chain))
    ensures a <= b <= |chain| && Retain(m, oldest, chain) == chain[a..b]
    ensures forall k :: 0 <= k < a ==> Outlived(m, oldest, chain[k])
    ensures forall k :: b <= k < |chain| ==> m.State(chain[k].xmin).Aborted?
    decreases |chain|
  {
    if chain == [] {
      return 0, 0;
    }
    OrderlyPrefix(m, chain);
    a, b := RetainSlice(m, oldest, chain[..|chain| - 1]);
    if !m.State(chain[|chain| - 1].xmin).Aborted? {
      LastNotAborted(m, chain, b);
      if Outlived(m, oldest, chain[|chain| - 1]) {
        AllOutlived(m, oldest, chain);
        a, b := |chain|, |chain|;
      } else {
        LastKept(m, oldest, chain, a);
        b := |chain|;
      }
    } else {
      LastAborted(m, oldest, chain, a, b);
    }
  }

  lemma AllOutlived(m: Manager, oldest: nat, chain: Chain)
    requires chain != [] && Linked(chain) && Orderly(m, Writers(chain)) && Outlived(m, oldest, chain[|chain| - 1])
    ensures Retain(m, oldest, chain) == [] && forall k :: 0 <= k < |chain| ==> Outlived(m, oldest, chain[k])
  {
    forall k | 0 <= k < |chain| ensures Outlived(m, oldest, chain[k]) { OutlivedDown(m, oldest, chain, k); }
    RetainNone(m, oldest, chain);
  }

  lemma {:induction false} RetainNone(m: Manager, oldest: nat, chain: Chain)
    requires forall k :: 0 <= k < |chain| ==> Dead(m, oldest, chain[k])
    ensures Retain(m, oldest, chain) == []
  {
    if chain != [] { RetainNone(m, oldest, chain[..|chain| - 1]); }
  }

  lemma LastKept(m: Manager, oldest: nat, chain: Chain, a: nat)
    requires chain != [] && !Dead(m, oldest, chain[|chain| - 1]) && a <= |chain| - 1
    requires Retain(m, oldest, chain[..|chain| - 1]) == chain[..|chain| - 1][a..|chain| - 1]
    ensures Retain(m, oldest, chain) == chain[a..|chain|]
  {
    SliceSnoc(chain, a);
  }

  lemma SliceSnoc(chain: Chain, a: nat)
    requires chain != [] && a <= |chain| - 1
    ensures chain[..|chain| - 1][a..|chain| - 1] + [chain[|chain| - 1]] == chain[a..|chain|]
  {
  }

  lemma LastAborted(m: Manager, oldest: nat, chain: Chain, a: nat, b: nat)
    requires chain != [] && m.State(chain[|chain| - 1].xmin).Aborted? && a <= b <= |chain| - 1
    requires Retain(m, oldest, chain[..|chain| - 1]) == chain[..|chain| - 1][a..b]
    ensures Retain(m, oldest, chain) == chain[a..b]
  {
    assert chain[..|chain| - 1][a..b] == chain[a..b];
  }

  /** An aborted writer is followed only by itself. */
  lemma LastNotAborted(m: Manager, chain: Chain, b: nat)
    requires chain != [] && Linked(chain) && Orderly(m, Writers(chain)) && !m.State(chain[|chain| - 1].xmin).Aborted?
    requires b < |chain| && forall k :: b <= k < |chain| - 1 ==> m.State(chain[k].xmin).Aborted?
    ensures b == |chain| - 1
  {
    var n, ws := |chain| - 1, Writers(chain);
    if n > 0 {
      assert ws[n - 1] == ws[n] || Before(m, ws[n - 1], ws[n]);
    }
  }

  lemma SliceWriters(chain: Chain, a: nat, b: nat)
    requires Linked(chain) && a < b <= |chain|
    ensures Linked(chain[a..b])
    ensures |Writers(chain[a..b])| <= |Writers(chain)| - a
    ensures forall k :: 0 <= k < |Writers(chain[a..b])| ==> Writers(chain[a..b])[k] == Writers(chain)[a + k]
  {
    var r := chain[a..b];
    forall k | 0 <= k < |r| - 1 ensures r[k].xmax == Some(r[k + 1].xmin) { assert chain[a + k].xmax == Some(chain[a + k + 1].xmin); }
    if b < |chain| { assert r[|r| - 1].xmax == Some(chain[b].xmin); }
  }

  lemma VacuumedTurn(m: Manager, oldest: nat, chain: Chain)
    requires TurnChain(m, chain) && Retain(m, oldest, chain) != []
    ensures TurnChain(m, Retain(m, oldest, chain))
  {
    var a, b := RetainSlice(m, oldest, chain);
    SliceWriters(chain, a, b);
    var ws, rs := Writers(chain), Writers(chain[a..b]);
    forall k | 0 <= k < |rs| - 1 ensures rs[k] == rs[k + 1] || Before(m, rs[k], rs[k + 1]) {
      assert ws[a + k] == ws[a + k + 1] || Before(m, ws[a + k], ws[a + k + 1]);
    }
  }

  /** Forgetting aborted transactions changes the state of none. */
  lemma ForgottenTurn(m: Manager, chain: Chain)
    requires TurnChain(m, chain)
    ensures TurnChain(WithoutAborted(m), chain)
  {
    var m1, ws := WithoutAborted(m), Writers(chain);
    assert forall id :: m1.State(id) == m.State(id);
    assert forall k :: 0 <= k < |ws| - 1 ==> ws[k] == ws[k + 1] || Before(m, ws[k], ws[k + 1]);
  }

  /** The row a chain comes from when VACUUM is done. */
  ghost function VacuumSource(s: State, i: nat): nat
    requires Good(s) && i < |Next(s, Vacuum).tab.chains|
  {
    var m := WithoutAborted(s.mgr);
    var live := LiveRows(m, Oldest(m), s.tab.chains);
    if |live| < s.tab.rowCount then live[i] else i
  }

  lemma VacuumedChain(s: State, i: nat)
    requires Good(s) && i < |Next(s, Vacuum).tab.chains|
    ensures VacuumSource(s, i) < |s.tab.chains|
    ensures
      var m, chain := WithoutAborted(s.mgr), Next(s, Vacuum).tab.chains[i];
      chain == Retain(m, Oldest(m), s.tab.chains[VacuumSource(s, i)]) && chain != []
  {
    StepKeepsGood(s, Vacuum);
  }

  // ----- steps and runs -----

  lemma RowKeepsTurn(s: State, step: Step, i: nat)
    requires TurnState(s) && Enabled(s, step) && InTurn(s, step) && !Refused(s, step)
    requires i < |Next(s, step).tab.chains|
    ensures TurnChain(Next(s, step).mgr, Next(s, step).tab.chains[i])
  {
    if step.Vacuum? {
      var m, j := WithoutAborted(s.mgr), VacuumSource(s, i);
      VacuumedChain(s, i);
      ForgottenTurn(s.mgr, s.tab.chains[j]);
      VacuumedTurn(m, Oldest(m), s.tab.chains[j]);
    } else if step.Begin? || step.Commit? || step.Rollback? {
      ManagerStepOrderly(s, step, Writers(s.tab.chains[i]));
    } else if step.Insert? {
      InsertedChains(s.tab.chains, |step.rows|, step.txn.id);
      if i >= |s.tab.chains| { InsertedTurn(s.mgr, step.txn.id); }
    } else if step.mask[i] {
      WrittenTurn(s.mgr, step.txn, s.tab.chains[i], if step.Update? then Assign(s.tab.RowAt(i), step.assigns) else []);
    }
  }

  lemma StepKeepsTurns(s: State, step: Step)
    requires TurnState(s) && Enabled(s, step) && InTurn(s, step)
    ensures TurnState(Next(s, step))
  {
    var s1 := Next(s, step);
    StepKeepsGood(s, step);
    if !Refused(s, step) {
      forall i | 0 <= i < |s1.tab.chains| ensures TurnChain(s1.mgr, s1.tab.chains[i]) { RowKeepsTurn(s, step, i); }
    }
  }

  ghost predicate RunInTurns(s: State, steps: seq<Step>)
    requires RunEnabled(s, steps)
    decreases |steps|
  {
    steps == [] || (InTurn(s, steps[0]) && RunInTurns(Next(s, steps[0]), steps[1..]))
  }

  /** At every isolation level, VACUUM included: rows written in turns keep linked chains with commit ids in order. */
  lemma {:induction false} RunKeepsTurns(s: State, steps: seq<Step>)
    requires TurnState(s) && RunEnabled(s, steps) && RunInTurns(s, steps)
    ensures TurnState(Run(s, steps))
    decreases |steps|
  {
    if steps != [] {
      StepKeepsTurns(s, steps[0]);
      RunKeepsTurns(Next(s, steps[0]), steps[1..]);
    }
  }

  /**
   After any such run an open transaction sees at most one version of a row iff it has not
   overwritten, over its own old view of the row, a version it cannot see.
  */
  lemma RunVisibleIff(s: State, steps: seq<Step>, t: Txn, i: nat)
    requires TurnState(s) && RunEnabled(s, steps) && RunInTurns(s, steps)
    requires Run(s, steps).mgr.Open(t) && i < |Run(s, steps).tab.chains|
    ensures
      var s1 := Run(s, steps);
      AtMostOneVisible(s1.mgr, s1.tab.chains[i], t) <==> !Straddles(s1.mgr, s1.tab.chains[i], t)
  {
    RunKeepsTurns(s, steps);
    var s1 := Run(s, steps);
    assert TurnChain(s1.mgr, s1.tab.chains[i]);
    OrderlyVisibleIff(s1.mgr, s1.tab.chains[i], t);
  }

  /** After any such run a transaction that never wrote the row sees at most one version of it. */
  lemma RunReaderSeesOne(s: State, steps: seq<Step>, t: Txn, i: nat)
    requires TurnState(s) && RunEnabled(s, steps) && RunInTurns(s, steps)
    requires Run(s, steps).mgr.Open(t) && i < |Run(s, steps).tab.chains| && t.id !in Writers(Run(s, steps).tab.chains[i])
    ensures AtMostOneVisible(Run(s, steps).mgr, Run(s, steps).tab.chains[i], t)
  {
    RunKeepsTurns(s, steps);
    var s1 := Run(s, steps);
    assert TurnChain(s1.mgr, s1.tab.chains[i]);
    PureReaderSeesOne(s1.mgr, s1.tab.chains[i], t);
  }
}
