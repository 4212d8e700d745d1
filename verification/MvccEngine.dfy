/** The mutable transaction manager and table, each method tied to a step of the model. */
module MvccEngine {
  import opened Basics
  import opened Catalog
  import opened Constraints
  import opened Mvcc
  import opened MvccSnapshots

  class TxnManager {
    var nextId: nat
    var commitId: nat
    var states: map<nat, TxnState>
    var snapshots: map<nat, nat>
    var current: Option<Txn>

    ghost function View(): Manager
      reads this
    {
      Manager(nextId, commitId, states, snapshots, current)
    }

    constructor ()
      ensures View() == NewManager()
    {
      nextId, commitId, states, snapshots, current := 1, 0, map[], map[], None;
    }

    method Begin(level: IsolationLevel) returns (t: Txn)
      modifies this
      ensures (View(), t) == Begun(old(View()), level)
    {
      var id := nextId;
      nextId := nextId + 1;
      states := states[id := InProgress];
      snapshots := snapshots[id := commitId];
      t := Txn(id, commitId, level);
      current := Some(t);
    }

    method Commit(id: nat) returns (cid: nat)
      modifies this
      ensures View() == CommittedTxn(old(View()), id) && cid == commitId
    {
      commitId := commitId + 1;
      cid := commitId;
      states := states[id := TxnState.Committed(cid)];
      snapshots := snapshots - {id};
      if current.Some? && current.value.id == id {
        current := None;
      }
    }

    method Rollback(id: nat)
      modifies this
      ensures View() == RolledBack(old(View()), id)
      ensures View().State(id).Aborted? && commitId == old(commitId)
    {
      states := states[id := Aborted];
      snapshots := snapshots - {id};
      if current.Some? && current.value.id == id {
        current := None;
      }
    }

    /** Forgets aborted transactions; an unknown id reads as aborted anyway. */
    method CleanupAborted() returns (n: nat)
      modifies this
      ensures View() == WithoutAborted(old(View())) && n == |old(states)| - |states|
      ensures forall id :: View().State(id) == old(View()).State(id)
    {
      var before := |states|;
      var kept := map id | id in states && states[id] != Aborted :: states[id];
      assert kept.Keys <= states.Keys;
      CardinalityBelow(kept.Keys, states.Keys);
      n := before - |kept|;
      states := kept;
    }

    method TxnStateOf(id: nat) returns (s: TxnState)
      ensures s == View().State(id)
    {
      s := if id in states then states[id] else Aborted;
    }

    method IsVisibleWithSnapshot(v: Version, snapshot: nat, id: nat) returns (b: bool)
      ensures b == Visible(View(), v, snapshot, id)
    {
      if v.xmin != id {
        var s := TxnStateOf(v.xmin);
        if !(s.Committed? && s.cid <= snapshot) {
          return false;
        }
      }
      if v.xmax.None? {
        return true;
      }
      if v.xmax.value == id {
        return false;
      }
      var d := TxnStateOf(v.xmax.value);
      b := !(d.Committed? && d.cid <= snapshot);
    }

    /** Visibility with the dirty reads of ReadUncommitted. */
    method IsVisible(v: Version, t: Txn) returns (b: bool)
      ensures b == VisibleAtLevel(View(), v, t)
    {
      if v.xmin != t.id {
        var c := TxnStateOf(v.xmin);
        var created := if t.level == ReadUncommitted then c.InProgress? || c.Committed? else c.Committed? && c.cid <= t.snapshot;
        if !created {
          return false;
        }
      }
      if v.xmax.None? {
        return true;
      }
      if v.xmax.value == t.id {
        return false;
      }
      var d := TxnStateOf(v.xmax.value);
      b := !(d.Committed? && d.cid <= t.snapshot);
    }

    /** The smallest snapshot of a running transaction, or the commit counter. */
    method OldestActiveSnapshot() returns (oldest: nat)
      ensures oldest == Oldest(View())
    {
      oldest := commitId;
      var todo := snapshots.Keys;
      while todo != {}
        invariant todo <= snapshots.Keys
        invariant oldest <= commitId
        invariant forall id :: id in snapshots.Keys - todo && View().State(id).InProgress? ==> oldest <= snapshots[id]
        invariant oldest == commitId || exists id :: id in snapshots && View().State(id).InProgress? && snapshots[id] == oldest
        decreases |todo|
      {
        var id :| id in todo;
        var s := TxnStateOf(id);
        if s.InProgress? && snapshots[id] < oldest {
          oldest := snapshots[id];
        }
        todo := todo - {id};
      }
    }

    /** First-committer-wins for one chain. */
    method CheckWriteConflict(chain: Chain, t: Txn) returns (conflict: bool)
      ensures conflict == Conflict(View(), chain, t)
    {
      var k := FindLatestVisible(chain, t);
      if k.None? {
        return false;
      }
      var v := chain[k.value];
      if v.xmax.None? || v.xmax.value == t.id {
        return false;
      }
      var s := TxnStateOf(v.xmax.value);
      conflict := s.Committed? && s.cid > t.snapshot;
    }

    /** The reverse scan for the newest visible version. */
    method FindLatestVisible(chain: Chain, t: Txn) returns (k: Option<nat>)
      ensures k == LatestVisible(View(), chain, t)
    {
      var n := |chain|;
      assert chain[..n] == chain;
      while n > 0
        invariant 0 <= n <= |chain|
        invariant LatestVisible(View(), chain, t) == LatestVisible(View(), chain[..n], t)
      {
        assert chain[..n][..n - 1] == chain[..n - 1];
        var b := IsVisibleWithSnapshot(chain[n - 1], t.snapshot, t.id);
        if b {
          return Some(n - 1);
        }
        n := n - 1;
      }
      k := None;
    }
  }

  lemma CardinalityBelow<T>(a: set<T>, b: set<T>)
    requires a <= b
    ensures |a| <= |b|
  {
    assert b == a + (b - a);
  }

  class VersionedTable {
    var columns: seq<seq<u64>>
    var rowCount: nat
    var chains: seq<Chain>

    ghost function View(): VTable
      reads this
    {
      VTable(columns, rowCount, chains)
    }

    constructor (width: nat)
      ensures View() == VTable(seq(width, _ => []), 0, [])
    {
      columns, rowCount, chains := seq(width, _ => []), 0, [];
    }

    method AppendRowVersion(i: nat, v: Version)
      modifies this`chains
      ensures chains == AppendVersion(old(chains), i, v)
    {
      if i >= |chains| {
        chains := chains + seq(i + 1 - |chains|, _ => []);
      }
      chains := chains[i := chains[i] + [v]];
    }

    method MarkDeletedAt(i: nat, id: nat) returns (marked: bool)
      modifies this`chains
      ensures i < |old(chains)| ==>
        chains == old(chains)[i := MarkDeleted(old(chains)[i], id).0] && marked == MarkDeleted(old(chains)[i], id).1
      ensures i >= |old(chains)| ==> chains == old(chains) && !marked
    {
      if i >= |chains| || chains[i] == [] {
        return false;
      }
      var n := |chains[i]| - 1;
      var v := chains[i][n];
      if v.xmax.Some? {
        return false;
      }
      chains := chains[i := chains[i][n := v.(xmax := Some(id))]];
      marked := true;
    }

    /** The reverse search for the newest version visible at the reader's isolation level. */
    method LatestVisibleVersion(i: nat, mgr: TxnManager, t: Txn) returns (v: Option<Version>)
      ensures v == match LatestAtLevel(mgr.View(), Chains(chains, i), t)
                   case None => None
                   case Some(k) => Some(chains[i][k])
    {
      if i >= |chains| {
        return None;
      }
      var chain := chains[i];
      var n := |chain|;
      assert chain[..n] == chain;
      while n > 0
        invariant 0 <= n <= |chain|
        invariant LatestAtLevel(mgr.View(), chain, t) == LatestAtLevel(mgr.View(), chain[..n], t)
      {
        assert chain[..n][..n - 1] == chain[..n - 1];
        var b := mgr.IsVisible(chain[n - 1], t);
        if b {
          return Some(chain[n - 1]);
        }
        n := n - 1;
      }
      v := None;
    }

    /** INSERT: extend the columns, then one fresh chain per new row. */
    method InsertRows(id: nat, rows: seq<Row>)
      requires forall k :: 0 <= k < |rows| ==> |rows[k]| == |columns|
      modifies this
      ensures View() == Inserted(old(View()), id, rows)
      ensures old(View()).Valid() ==> forall k :: 0 <= k < |rows| ==> View().RowAt(old(rowCount) + k) == rows[k]
    {
      ghost var before := View();
      var old_ := columns;
      columns := seq(|old_|, c requires 0 <= c < |old_| =>
        old_[c] + seq(|rows|, k requires 0 <= k < |rows| => rows[k][c]));
      assert columns == Inserted(before, id, rows).columns;
      var first := rowCount;
      rowCount := rowCount + |rows|;
      for k := 0 to |rows|
        invariant columns == Inserted(before, id, rows).columns && rowCount == before.rowCount + |rows|
        invariant chains == InsertedVersions(before.chains, first, k, id)
      {
        AppendRowVersion(first + k, Version(id, None, []));
      }
      if before.Valid() { InsertedRows(before, id, rows); }
    }

    /** The in-place cell loop of UPDATE. */
    method AssignCells(mask: seq<bool>, assigns: seq<Assignment>)
      requires View().Valid() && |mask| == rowCount
      requires forall k :: 0 <= k < |assigns| ==> assigns[k].col < |columns|
      modifies this`columns
      ensures |columns| == |old(columns)|
      ensures columns == UpdatedRows(old(View()), 0, mask, assigns).columns
    {
      ghost var t := View();
      var cols: seq<seq<u64>> := columns;
      for i := 0 to |mask|
        invariant |cols| == |t.columns| && forall c :: 0 <= c < |cols| ==> |cols[c]| == t.rowCount
        invariant forall c, j :: 0 <= c < |cols| && 0 <= j < t.rowCount ==>
          cols[c][j] == if j < i && mask[j] then Assign(t.RowAt(j), assigns)[c] else t.columns[c][j]
      {
        if mask[i] {
          ghost var before := cols;
          for k := 0 to |assigns|
            invariant |cols| == |t.columns| && forall c :: 0 <= c < |cols| ==> |cols[c]| == t.rowCount
            invariant forall c :: 0 <= c < |cols| ==> cols[c][i] == Assign(t.RowAt(i), assigns[..k])[c]
            invariant forall c, j :: 0 <= c < |cols| && 0 <= j < t.rowCount && j != i ==> cols[c][j] == before[c][j]
          {
            assert assigns[..k + 1][..k] == assigns[..k];
            var col: seq<u64> := cols[assigns[k].col][i := assigns[k].value];
            cols := cols[assigns[k].col := col];
          }
          assert assigns[..|assigns|] == assigns;
        }
      }
      columns := cols;
      ghost var spec := UpdatedRows(t, 0, mask, assigns).columns;
      forall c | 0 <= c < |columns| ensures columns[c] == spec[c] {
        assert forall j :: 0 <= j < t.rowCount ==> columns[c][j] == spec[c][j];
      }
    }

    /** The tombstone-and-append loop of UPDATE, reading the new values back from the columns. */
    method SupersedeRows(id: nat, mask: seq<bool>)
      requires View().Valid() && |mask| == rowCount && |chains| <= rowCount
      modifies this`chains
      ensures |chains| == |old(chains)|
      ensures forall i :: 0 <= i < |chains| ==>
        chains[i] == if mask[i] then Superseded(old(chains)[i], id, View().RowAt(i)) else old(chains)[i]
    {
      ghost var before := chains;
      for i := 0 to |mask|
        invariant |chains| == |before|
        invariant forall j :: 0 <= j < |chains| ==>
          chains[j] == if j < i && mask[j] then Superseded(before[j], id, View().RowAt(j)) else before[j]
      {
        if mask[i] {
          var cols := columns;
          var values := seq(|cols|, c requires 0 <= c < |cols| => if i < |cols[c]| then cols[c][i] else 0);
          assert values == View().RowAt(i);
          var marked := MarkDeletedAt(i, id);
          if marked {
            AppendRowVersion(i, Version(id, None, values));
          }
        }
      }
    }

    /** UPDATE under MVCC; a Serializable conflict is reported before anything is touched. */
    method UpdateRows(mgr: TxnManager, t: Txn, mask: seq<bool>, assigns: seq<Assignment>) returns (ok: bool)
      requires View().Valid() && |mask| == rowCount && |chains| <= rowCount
      requires forall k :: 0 <= k < |assigns| ==> assigns[k].col < |columns|
      modifies this
      ensures ok <==> !(t.level == Serializable && AnyConflict(mgr.View(), old(View()), t, mask))
      ensures View() == if ok then UpdatedRows(old(View()), t.id, mask, assigns) else old(View())
      ensures ok ==> forall i :: 0 <= i < rowCount && mask[i] ==> CellsWritten(old(View()).RowAt(i), View().RowAt(i), assigns)
    {
      ok := true;
      if t.level == Serializable {
        ok := CheckRows(mgr, t, mask);
        if !ok {
          return;
        }
      }
      ghost var before := View();
      AssignCells(mask, assigns);
      ghost var spec := UpdatedRows(before, t.id, mask, assigns);
      assert columns == spec.columns;
      SupersedeRows(t.id, mask);
      forall i | 0 <= i < |chains| ensures chains[i] == spec.chains[i] {
        UpdatedCells(before, t.id, mask, assigns, i);
        assert View().RowAt(i) == spec.RowAt(i);
      }
      assert chains == spec.chains;
      forall i | 0 <= i < rowCount && mask[i] ensures CellsWritten(before.RowAt(i), View().RowAt(i), assigns) {
        UpdatedRowsWritten(before, t.id, mask, assigns, i);
      }
    }

    /** The conflict scan over the matched rows. */
    method CheckRows(mgr: TxnManager, t: Txn, mask: seq<bool>) returns (ok: bool)
      requires |mask| == rowCount
      ensures ok <==> !AnyConflict(mgr.View(), View(), t, mask)
    {
      for i := 0 to |mask|
        invariant forall j :: 0 <= j < i && mask[j] ==> !Conflict(mgr.View(), Chains(chains, j), t)
      {
        if mask[i] && i < |chains| {
          var conflict := mgr.CheckWriteConflict(chains[i], t);
          if conflict {
            return false;
          }
        }
      }
      ok := true;
    }

    /** DELETE under MVCC: tombstones only, the columns stay. */
    method DeleteRows(mgr: TxnManager, t: Txn, mask: seq<bool>) returns (ok: bool)
      requires |mask| == rowCount && |chains| <= rowCount
      modifies this`chains
      ensures ok <==> !(t.level == Serializable && AnyConflict(mgr.View(), old(View()), t, mask))
      ensures View() == if ok then DeletedRows(old(View()), t.id, mask) else old(View())
    {
      ok := true;
      if t.level == Serializable {
        ok := CheckRows(mgr, t, mask);
        if !ok {
          return;
        }
      }
      ghost var before := chains;
      for i := 0 to |mask|
        invariant |chains| == |before|
        invariant forall j :: 0 <= j < |chains| ==>
          chains[j] == if j < i && mask[j] then MarkDeleted(before[j], t.id).0 else before[j]
      {
        if mask[i] {
          var _ := MarkDeletedAt(i, t.id);
        }
      }
      assert chains == DeletedRows(old(View()), t.id, mask).chains;
    }

    /** The dead-version loop of VACUUM for one chain. */
    method RetainVersions(mgr: TxnManager, oldest: nat, chain: Chain) returns (kept: Chain)
      ensures kept == Retain(mgr.View(), oldest, chain)
    {
      kept := [];
      for k := 0 to |chain|
        invariant kept == Retain(mgr.View(), oldest, chain[..k])
      {
        assert chain[..k + 1][..k] == chain[..k];
        var created := mgr.TxnStateOf(chain[k].xmin);
        var dead := created.Aborted?;
        if !dead && chain[k].xmax.Some? {
          var d := mgr.TxnStateOf(chain[k].xmax.value);
          dead := d.Committed? && d.cid <= oldest;
        }
        if !dead {
          kept := kept + [chain[k]];
        }
      }
      assert chain[..|chain|] == chain;
    }

    /** The first half of VACUUM: shrink every chain and note the rows that keep a version. */
    method ShrinkChains(mgr: TxnManager, oldest: nat) returns (live: seq<nat>)
      modifies this`chains
      ensures live == LiveRows(mgr.View(), oldest, old(chains))
      ensures |chains| == |old(chains)|
      ensures forall i :: 0 <= i < |chains| ==> chains[i] == Retain(mgr.View(), oldest, old(chains)[i])
    {
      ghost var before := chains;
      live := [];
      for i := 0 to |chains|
        invariant |chains| == |before|
        invariant forall j :: 0 <= j < |chains| ==> chains[j] == if j < i then Retain(mgr.View(), oldest, before[j]) else before[j]
        invariant live == LiveRows(mgr.View(), oldest, before[..i])
      {
        LiveRowsNext(mgr.View(), oldest, before, i);
        var kept := RetainVersions(mgr, oldest, chains[i]);
        chains := chains[i := kept];
        if kept != [] {
          live := live + [i];
        }
      }
      assert before[..|before|] == before;
    }

    /** VACUUM: shrink every chain, then rebuild columns and chains without the dead rows. */
    method VacuumTable(mgr: TxnManager)
      modifies this
      ensures View() == Vacuumed(mgr.View(), Oldest(mgr.View()), old(View()))
    {
      ghost var t := View();
      var oldest := mgr.OldestActiveSnapshot();
      var live := ShrinkChains(mgr, oldest);
      if |live| < rowCount {
        var cols, all := columns, chains;
        columns := seq(|cols|, c requires 0 <= c < |cols| =>
          seq(|live|, k requires 0 <= k < |live| => if live[k] < |cols[c]| then cols[c][live[k]] else 0));
        chains := seq(|live|, k requires 0 <= k < |live| => all[live[k]]);
        rowCount := |live|;
      }
      ghost var spec := Vacuumed(mgr.View(), oldest, t);
      assert columns == spec.columns;
      assert chains == spec.chains;
    }
  }

  lemma LiveRowsNext(m: Manager, oldest: nat, chains: seq<Chain>, i: nat)
    requires i < |chains|
    ensures LiveRows(m, oldest, chains[..i + 1]) ==
      LiveRows(m, oldest, chains[..i]) + if Retain(m, oldest, chains[i]) != [] then [i] else []
  {
    assert chains[..i + 1][..i] == chains[..i];
  }

  lemma UpdatedCells(t: VTable, id: nat, mask: seq<bool>, assigns: seq<Assignment>, i: nat)
    requires t.Valid() && |mask| == t.rowCount && i < t.rowCount
    ensures UpdatedRows(t, id, mask, assigns).RowAt(i) == AssignedRow(t, mask, assigns, i)
    ensures UpdatedRows(t, id, mask, assigns).columns == UpdatedRows(t, 0, mask, assigns).columns
  {
  }

  // ----- the engine as a whole -----

  /** An UPDATE assigns columns the table has. */
  ghost predicate ColumnsExist(step: Step, width: nat) {
    step.Update? ==> forall k :: 0 <= k < |step.assigns| ==> step.assigns[k].col < width
  }

  lemma StepKeepsWidth(s: State, step: Step)
    requires Enabled(s, step)
    ensures |Next(s, step).tab.columns| == |s.tab.columns|
  {
  }

  /** One step on the manager and the table together; false where a Serializable write is refused. */
  method ExecuteStep(mgr: TxnManager, tab: VersionedTable, step: Step) returns (ok: bool)
    requires Good(State(mgr.View(), tab.View())) && Enabled(State(mgr.View(), tab.View()), step)
    requires ColumnsExist(step, |tab.columns|)
    modifies mgr, tab
    ensures State(mgr.View(), tab.View()) == Next(old(State(mgr.View(), tab.View())), step)
    ensures ok <==> !Refused(old(State(mgr.View(), tab.View())), step)
  {
    ok := true;
    match step
    case Begin(level) =>
      var _ := mgr.Begin(level);
    case Insert(t, rows) =>
      tab.InsertRows(t.id, rows);
    case Update(t, mask, assigns) =>
      ok := tab.UpdateRows(mgr, t, mask, assigns);
    case Delete(t, mask) =>
      ok := tab.DeleteRows(mgr, t, mask);
    case Commit(t) =>
      var _ := mgr.Commit(t.id);
    case Rollback(t) =>
      mgr.Rollback(t.id);
    case Vacuum =>
      var _ := mgr.CleanupAborted();
      tab.VacuumTable(mgr);
  }

  /** Any list of steps, one after the other, is the run: what runs keep, the manager and the table keep. */
  method ExecuteSteps(mgr: TxnManager, tab: VersionedTable, steps: seq<Step>)
    requires Good(State(mgr.View(), tab.View())) && RunEnabled(State(mgr.View(), tab.View()), steps)
    requires forall k :: 0 <= k < |steps| ==> ColumnsExist(steps[k], |tab.columns|)
    modifies mgr, tab
    ensures State(mgr.View(), tab.View()) == Run(old(State(mgr.View(), tab.View())), steps)
    ensures Good(State(mgr.View(), tab.View()))
  {
    ghost var s0 := State(mgr.View(), tab.View());
    for i := 0 to |steps|
      invariant Good(State(mgr.View(), tab.View())) && RunEnabled(State(mgr.View(), tab.View()), steps[i..])
      invariant |tab.columns| == |s0.tab.columns|
      invariant Run(State(mgr.View(), tab.View()), steps[i..]) == Run(s0, steps)
    {
      ghost var s := State(mgr.View(), tab.View());
      assert steps[i..][0] == steps[i] && steps[i..][1..] == steps[i + 1..];
      StepKeepsGood(s, steps[i]);
      StepKeepsWidth(s, steps[i]);
      var _ := ExecuteStep(mgr, tab, steps[i]);
    }
    assert steps[|steps|..] == [];
  }
}
