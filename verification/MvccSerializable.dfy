/**
 Runs in which writers take turns and no write conflicts, as Serializable guarantees: every open
 transaction sees one version of a row at most, its own writes included.
*/
module MvccSerializable {
  import opened Basics
  import opened Constraints
  import opened Mvcc
  import opened MvccSnapshots
  import opened MvccChains
  import opened MvccTurns

  /** A write in turn that is Serializable, or would have passed the Serializable check. */
  ghost predicate Polite(s: State, step: Step)
    requires Enabled(s, step)
  {
    && InTurn(s, step)
    && match step
       case Update(t, mask, _) => t.level == Serializable || !AnyConflict(s.mgr, s.tab, t, mask)
       case Delete(t, mask) => t.level == Serializable || !AnyConflict(s.mgr, s.tab, t, mask)
       case _ => true
  }

  /** One row of a polite run. */
  ghost predicate PoliteChain(m: Manager, chain: Chain) {
    TurnChain(m, chain) && forall t: Txn :: m.Open(t) ==> !Straddles(m, chain, t)
  }

  ghost predicate PoliteState(s: State) {
    Good(s) && forall i :: 0 <= i < |s.tab.chains| ==> PoliteChain(s.mgr, s.tab.chains[i])
  }

  lemma FreshIsPolite(width: nat)
    ensures TurnState(Fresh(width)) && PoliteState(Fresh(width))
  {
  }

  lemma SameStraddles(m: Manager, m1: Manager, chain: Chain, t: Txn)
    requires SameSight(m, m1, t)
    ensures Straddles(m1, chain, t) == Straddles(m, chain, t)
  {
    var ws := Writers(chain);
    assert forall k :: OverUnseen(m1, ws, t, k) == OverUnseen(m, ws, t, k);
  }

  /** A manager step neither opens a straddling transaction nor changes what open ones see. */
  lemma ManagerStepStraddles(s: State, step: Step, chain: Chain, t: Txn)
    requires Good(s) && Enabled(s, step) && PoliteChain(s.mgr, chain) && Next(s, step).mgr.Open(t)
    requires step.Begin? || step.Commit? || step.Rollback?
    ensures !Straddles(Next(s, step).mgr, chain, t)
  {
    var m, m1, ws := s.mgr, Next(s, step).mgr, Writers(chain);
    if t.id < m.nextId {
      assert m.Open(t) && ByOther(step, t);
      SightStable(s, step, t);
      SameStraddles(m, m1, chain, t);
    } else {
      assert forall k :: !OverUnseen(m1, ws, t, k);
    }
  }

  // ----- writes -----

  /** A write that was let through, over a version that is still live. */
  lemma WriteStraddles(m: Manager, chain: Chain, chain1: Chain, t: Txn, u: Txn)
    requires m.Valid() && PoliteChain(m, chain) && m.Open(t) && m.Open(u)
    requires OthersCommitted(m, chain, t.id) && !Conflict(m, chain, t)
    requires Linked(chain1) && Writers(chain1) == Writers(chain) + [t.id] && chain[|chain| - 1].xmax.None?
    ensures !Straddles(m, chain1, u)
  {
    var ws, ws1 := Writers(chain), Writers(chain1);
    assert ws1[|ws|] == t.id;
    SeenIsSuperseded(m, chain, t);
    forall k | Sees(m, u, ws[0]) ensures !OverUnseen(m, ws1, u, k) {
      assert !Straddles(m, chain, u);
      if 1 <= k < |ws| { assert !OverUnseen(m, ws, u, k) && ws1[k] == ws[k] && ws1[k - 1] == ws[k - 1]; }
    }
  }

  /** Seeing an old writer but not the last one, all others committed, is a conflict. */
  lemma SeenIsSuperseded(m: Manager, chain: Chain, t: Txn)
    requires Linked(chain) && chain != [] && chain[|chain| - 1].xmax.None? && OthersCommitted(m, chain, t.id) && m.Open(t)
    ensures Sees(m, t, Writers(chain)[0]) && !Sees(m, t, Writers(chain)[|chain| - 1]) ==> Conflict(m, chain, t)
  {
    var ws, n := Writers(chain), |chain| - 1;
    if Sees(m, t, ws[0]) && !Sees(m, t, ws[n]) {
      var j := Crossing(m, ws, t, n);
      LinkedVisible(m, chain, t, j);
      LinkedVisible(m, chain, t, n);
      var k := LatestVisible(m, chain, t).value;
      assert k < n;
      FirstCommitterWins(m, chain, t, k);
    }
  }

  lemma WrittenRowStraddles(m: Manager, t: Txn, chain: Chain, values: seq<u64>, u: Txn)
    requires m.Valid() && PoliteChain(m, chain) && m.Open(t) && m.Open(u)
    requires OthersCommitted(m, chain, t.id) && !Conflict(m, chain, t)
    ensures !Straddles(m, MarkDeleted(chain, t.id).0, u) && !Straddles(m, Superseded(chain, t.id, values), u)
  {
    WriteLinked(chain, t.id, values);
    if MarkDeleted(chain, t.id).1 {
      WriteStraddles(m, chain, MarkDeleted(chain, t.id).0, t, u);
      WriteStraddles(m, chain, Superseded(chain, t.id, values), t, u);
    }
  }

  // ----- VACUUM -----

  /** Once a version at the start is outlived, every open transaction sees the first writer. */
  lemma FirstWriterSeen(m: Manager, oldest: nat, chain: Chain, t: Txn)
    requires chain != [] && Linked(chain) && Orderly(m, Writers(chain)) && oldest <= t.snapshot && Outlived(m, oldest, chain[0])
    ensures Sees(m, t, Writers(chain)[0])
  {
    var ws := Writers(chain);
    assert chain[0].xmax.value == ws[1];
    assert ws[0] == ws[1] || Before(m, ws[0], ws[1]);
  }

  lemma SliceStraddles(m: Manager, oldest: nat, chain: Chain, t: Txn, a: nat, b: nat)
    requires Linked(chain) && Orderly(m, Writers(chain)) && oldest <= t.snapshot
    requires a < b <= |chain| && forall k :: 0 <= k < a ==> Outlived(m, oldest, chain[k])
    ensures Straddles(m, chain[a..b], t) ==> Straddles(m, chain, t)
  {
    var r := chain[a..b];
    SliceWriters(chain, a, b);
    assert r[|r| - 1] == chain[b - 1];
    if b < |chain| {
      assert chain[b - 1].xmax == Some(chain[b].xmin);
      assert !Straddles(m, r, t);
    } else {
      if a > 0 { FirstWriterSeen(m, oldest, chain, t); }
      if Straddles(m, r, t) { ShiftedStraddle(m, chain, r, t, a); }
    }
  }

  /** A straddle found in the later part of a chain is one of the whole chain. */
  lemma ShiftedStraddle(m: Manager, chain: Chain, r: Chain, t: Txn, a: nat)
    requires Straddles(m, r, t) && chain != [] && chain[|chain| - 1].xmax.None? && Sees(m, t, Writers(chain)[0])
    requires |Writers(r)| <= |Writers(chain)| - a
    requires forall k :: 0 <= k < |Writers(r)| ==> Writers(r)[k] == Writers(chain)[a + k]
    ensures Straddles(m, chain, t)
  {
    var k :| OverUnseen(m, Writers(r), t, k);
    ShiftedWrite(m, Writers(chain), Writers(r), t, a, k);
  }

  lemma ShiftedWrite(m: Manager, ws: seq<nat>, rs: seq<nat>, t: Txn, a: nat, k: int)
    requires |rs| <= |ws| - a && (forall j :: 0 <= j < |rs| ==> rs[j] == ws[a + j]) && OverUnseen(m, rs, t, k)
    ensures OverUnseen(m, ws, t, a + k)
  {
    assert rs[k] == ws[a + k] && rs[k - 1] == ws[a + (k - 1)];
  }

  lemma RetainedStraddles(m: Manager, chain: Chain, t: Txn)
    requires m.Valid() && PoliteChain(m, chain) && WithoutAborted(m).Open(t)
    requires Retain(WithoutAborted(m), Oldest(WithoutAborted(m)), chain) != []
    ensures !Straddles(WithoutAborted(m), Retain(WithoutAborted(m), Oldest(WithoutAborted(m)), chain), t)
  {
    var m1 := WithoutAborted(m);
    ForgottenTurn(m, chain);
    assert forall id :: m1.State(id) == m.State(id);
    assert m.Open(t) && !Straddles(m, chain, t);
    SameStraddles(m, m1, chain, t);
    var a, b := RetainSlice(m1, Oldest(m1), chain);
    SliceStraddles(m1, Oldest(m1), chain, t, a, b);
  }

  lemma VacuumStraddles(s: State, i: nat, t: Txn)
    requires PoliteState(s) && i < |Next(s, Vacuum).tab.chains| && Next(s, Vacuum).mgr.Open(t)
    ensures !Straddles(Next(s, Vacuum).mgr, Next(s, Vacuum).tab.chains[i], t)
  {
    VacuumedChain(s, i);
    RetainedStraddles(s.mgr, s.tab.chains[VacuumSource(s, i)], t);
  }

  // ----- steps and runs -----

  lemma RowKeepsStraddles(s: State, step: Step, i: nat, u: Txn)
    requires PoliteState(s) && Enabled(s, step) && Polite(s, step) && !Refused(s, step)
    requires i < |Next(s, step).tab.chains| && Next(s, step).mgr.Open(u)
    ensures !Straddles(Next(s, step).mgr, Next(s, step).tab.chains[i], u)
  {
    if step.Vacuum? {
      VacuumStraddles(s, i, u);
    } else if step.Begin? || step.Commit? || step.Rollback? {
      ManagerStepStraddles(s, step, s.tab.chains[i], u);
    } else if step.Insert? {
      InsertedChains(s.tab.chains, |step.rows|, step.txn.id);
      if i < |s.tab.chains| { assert PoliteChain(s.mgr, s.tab.chains[i]); }
    } else {
      assert PoliteChain(s.mgr, s.tab.chains[i]);
      if step.mask[i] {
        assert !Conflict(s.mgr, Chains(s.tab.chains, i), step.txn);
        WrittenRowStraddles(s.mgr, step.txn, s.tab.chains[i], if step.Update? then Assign(s.tab.RowAt(i), step.assigns) else [], u);
      }
    }
  }

  lemma StepKeepsPolite(s: State, step: Step)
    requires PoliteState(s) && Enabled(s, step) && Polite(s, step)
    ensures PoliteState(Next(s, step))
  {
    var s1 := Next(s, step);
    assert TurnState(s) by { forall i | 0 <= i < |s.tab.chains| ensures TurnChain(s.mgr, s.tab.chains[i]) { assert PoliteChain(s.mgr, s.tab.chains[i]); } }
    StepKeepsTurns(s, step);
    if !Refused(s, step) {
      forall i | 0 <= i < |s1.tab.chains| ensures PoliteChain(s1.mgr, s1.tab.chains[i]) {
        forall u: Txn | s1.mgr.Open(u) ensures !Straddles(s1.mgr, s1.tab.chains[i], u) { RowKeepsStraddles(s, step, i, u); }
      }
    }
  }

  ghost predicate PoliteRun(s: State, steps: seq<Step>)
    requires RunEnabled(s, steps)
    decreases |steps|
  {
    steps == [] || (Polite(s, steps[0]) && PoliteRun(Next(s, steps[0]), steps[1..]))
  }

  lemma {:induction false} RunKeepsPolite(s: State, steps: seq<Step>)
    requires PoliteState(s) && RunEnabled(s, steps) && PoliteRun(s, steps)
    ensures PoliteState(Run(s, steps))
    decreases |steps|
  {
    if steps != [] {
      StepKeepsPolite(s, steps[0]);
      RunKeepsPolite(Next(s, steps[0]), steps[1..]);
    }
  }

  /**
   After any run, VACUUM included, in which transactions write rows one after another and each write
   is Serializable or conflict-free, every open transaction sees at most one version of every row,
   its own writes included.
  */
  lemma PoliteSeesOne(s: State, steps: seq<Step>, t: Txn, i: nat)
    requires PoliteState(s) && RunEnabled(s, steps) && PoliteRun(s, steps)
    requires Run(s, steps).mgr.Open(t) && i < |Run(s, steps).tab.chains|
    ensures AtMostOneVisible(Run(s, steps).mgr, Run(s, steps).tab.chains[i], t)
  {
    RunKeepsPolite(s, steps);
    var s1 := Run(s, steps);
    assert PoliteChain(s1.mgr, s1.tab.chains[i]);
    OrderlyVisibleIff(s1.mgr, s1.tab.chains[i], t);
  }

  /** All writers are Serializable. */
  ghost predicate SerializableWriters(steps: seq<Step>) {
    forall i :: 0 <= i < |steps| && (steps[i].Update? || steps[i].Delete?) ==> steps[i].txn.level == Serializable
  }

  lemma {:induction false} SerializableIsPolite(s: State, steps: seq<Step>)
    requires RunEnabled(s, steps) && RunInTurns(s, steps) && SerializableWriters(steps)
    ensures PoliteRun(s, steps)
    decreases |steps|
  {
    if steps != [] {
      assert steps[0].Update? || steps[0].Delete? ==> steps[0].txn.level == Serializable;
      forall i | 0 <= i < |steps[1..]| && (steps[1..][i].Update? || steps[1..][i].Delete?) ensures steps[1..][i].txn.level == Serializable {
        assert steps[1..][i] == steps[i + 1];
      }
      SerializableIsPolite(Next(s, steps[0]), steps[1..]);
    }
  }

  /** The same for runs of Serializable writers that take turns: the conflict check does the rest. */
  lemma SerializableSeesOne(s: State, steps: seq<Step>, t: Txn, i: nat)
    requires PoliteState(s) && RunEnabled(s, steps) && RunInTurns(s, steps) && SerializableWriters(steps)
    requires Run(s, steps).mgr.Open(t) && i < |Run(s, steps).tab.chains|
    ensures AtMostOneVisible(Run(s, steps).mgr, Run(s, steps).tab.chains[i], t)
  {
    SerializableIsPolite(s, steps);
    PoliteSeesOne(s, steps, t, i);
  }
}
