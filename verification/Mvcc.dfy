/**
 Multi-version concurrency control: the transaction manager, version chains, visibility, and
 the steps a transaction can take. Everything here is a function on values; the mutable
 objects of the engine are tied to these functions in MvccEngine.
*/
module Mvcc {
  import opened Basics
  import opened Constraints
  import opened Catalog

  datatype TxnState = InProgress | Committed(cid: nat) | Aborted

  datatype IsolationLevel = ReadUncommitted | ReadCommitted | RepeatableRead | Serializable

  datatype Txn = Txn(id: nat, snapshot: nat, level: IsolationLevel)

  datatype Manager = Manager(
    nextId: nat,
    commitId: nat,
    states: map<nat, TxnState>,
    snapshots: map<nat, nat>,
    current: Option<Txn>)
  {
    function State(id: nat): TxnState {
      if id in states then states[id] else Aborted
    }

    /** Ids are handed out in order, commit ids too, and the open transactions have snapshots. */
    ghost predicate Valid() {
      && (forall id :: id in states ==> 1 <= id < nextId)
      && (forall id :: id in states && states[id].Committed? ==> states[id].cid <= commitId)
      && (forall id :: id in snapshots <==> id in states && states[id].InProgress?)
      && (forall id :: id in snapshots ==> snapshots[id] <= commitId)
      && 1 <= nextId
    }

    /** `t` is open in this manager. */
    ghost predicate Open(t: Txn) {
      t.id in states && states[t.id].InProgress? && t.id in snapshots && snapshots[t.id] == t.snapshot
    }
  }

  function NewManager(): (m: Manager)
    ensures m.Valid()
  {
    Manager(1, 0, map[], map[], None)
  }

  function Begun(m: Manager, level: IsolationLevel): (Manager, Txn) {
    var t := Txn(m.nextId, m.commitId, level);
    (m.(nextId := m.nextId + 1, states := m.states[t.id := InProgress],
        snapshots := m.snapshots[t.id := m.commitId], current := Some(t)), t)
  }

  function CurrentWithout(m: Manager, id: nat): Option<Txn> {
    if m.current.Some? && m.current.value.id == id then None else m.current
  }

  function CommittedTxn(m: Manager, id: nat): Manager {
    m.(commitId := m.commitId + 1, states := m.states[id := TxnState.Committed(m.commitId + 1)],
       snapshots := m.snapshots - {id}, current := CurrentWithout(m, id))
  }

  function RolledBack(m: Manager, id: nat): Manager {
    m.(states := m.states[id := Aborted], snapshots := m.snapshots - {id}, current := CurrentWithout(m, id))
  }

  function WithoutAborted(m: Manager): Manager {
    m.(states := map id | id in m.states && m.states[id] != Aborted :: m.states[id])
  }

  // ----- versions and visibility -----

  datatype Version = Version(xmin: nat, xmax: Option<nat>, values: seq<u64>)

  type Chain = seq<Version>

  /** The visibility test of a snapshot reader, branch by branch. */
  predicate Visible(m: Manager, v: Version, snapshot: nat, id: nat) {
    var created := v.xmin == id || (m.State(v.xmin).Committed? && m.State(v.xmin).cid <= snapshot);
    if !created then false
    else
      match v.xmax
      case None => true
      case Some(d) =>
        if d == id then false
        else !(m.State(d).Committed? && m.State(d).cid <= snapshot)
  }

  /** The transactions a reader takes into account: itself and those committed by its snapshot. */
  predicate Sees(m: Manager, t: Txn, id: nat) {
    id == t.id || (m.State(id).Committed? && m.State(id).cid <= t.snapshot)
  }

  predicate VisibleTo(m: Manager, v: Version, t: Txn) {
    Visible(m, v, t.snapshot, t.id)
  }

  /** A version is visible iff its creator is seen and its deleter is not. */
  lemma VisibleIff(m: Manager, v: Version, t: Txn)
    ensures VisibleTo(m, v, t) <==> Sees(m, t, v.xmin) && (v.xmax.Some? ==> !Sees(m, t, v.xmax.value))
  {
  }

  /** Position of the newest visible version, searching from the end of the chain. */
  function LatestVisible(m: Manager, chain: Chain, t: Txn): (r: Option<nat>)
    ensures r.Some? ==> r.value < |chain| && VisibleTo(m, chain[r.value], t)
    ensures r.Some? ==> forall k :: r.value < k < |chain| ==> !VisibleTo(m, chain[k], t)
    ensures r.None? ==> forall k :: 0 <= k < |chain| ==> !VisibleTo(m, chain[k], t)
  {
    if chain == [] then None
    else
      var n := |chain| - 1;
      if VisibleTo(m, chain[n], t) then Some(n) else LatestVisible(m, chain[..n], t)
  }

  /** The test behind version lookups: a ReadUncommitted reader also sees creators that are open or committed late. */
  predicate VisibleAtLevel(m: Manager, v: Version, t: Txn) {
    var created :=
      || v.xmin == t.id
      || (if t.level == ReadUncommitted then !m.State(v.xmin).Aborted?
          else m.State(v.xmin).Committed? && m.State(v.xmin).cid <= t.snapshot);
    && created
    && (v.xmax.Some? ==> v.xmax.value != t.id && !(m.State(v.xmax.value).Committed? && m.State(v.xmax.value).cid <= t.snapshot))
  }

  function LatestAtLevel(m: Manager, chain: Chain, t: Txn): (r: Option<nat>)
    ensures r.Some? ==> r.value < |chain| && VisibleAtLevel(m, chain[r.value], t)
    ensures r.Some? ==> forall k :: r.value < k < |chain| ==> !VisibleAtLevel(m, chain[k], t)
    ensures r.None? ==> forall k :: 0 <= k < |chain| ==> !VisibleAtLevel(m, chain[k], t)
  {
    if chain == [] then None
    else
      var n := |chain| - 1;
      if VisibleAtLevel(m, chain[n], t) then Some(n) else LatestAtLevel(m, chain[..n], t)
  }

  /** Above ReadUncommitted lookups and scans agree. */
  lemma {:induction false} LevelsAgree(m: Manager, chain: Chain, t: Txn)
    requires t.level != ReadUncommitted
    ensures LatestAtLevel(m, chain, t) == LatestVisible(m, chain, t)
    decreases |chain|
  {
    if chain != [] {
      VisibleIff(m, chain[|chain| - 1], t);
      LevelsAgree(m, chain[..|chain| - 1], t);
    }
  }

  // ----- chain operations -----

  function MarkDeleted(chain: Chain, id: nat): (Chain, bool) {
    if chain == [] then (chain, false)
    else
      var last := chain[|chain| - 1];
      if last.xmax.Some? then (chain, false)
      else (chain[|chain| - 1 := last.(xmax := Some(id))], true)
  }

  /** UPDATE of one row: tombstone the newest version, append the new one only if that worked. */
  function Superseded(chain: Chain, id: nat, values: seq<u64>): Chain {
    var (marked, ok) := MarkDeleted(chain, id);
    if ok then marked + [Version(id, None, values)] else marked
  }

  function Chains(chains: seq<Chain>, i: int): Chain {
    if 0 <= i < |chains| then chains[i] else []
  }

  /** Grows the list with empty chains up to and including row `i`, then pushes the version. */
  function AppendVersion(chains: seq<Chain>, i: nat, v: Version): seq<Chain> {
    var grown := if i >= |chains| then chains + seq(i + 1 - |chains|, _ => []) else chains;
    grown[i := grown[i] + [v]]
  }

  // ----- a table with versions -----

  datatype VTable = VTable(columns: seq<seq<u64>>, rowCount: nat, chains: seq<Chain>)
  {
    predicate Valid() {
      forall c :: 0 <= c < |columns| ==> |columns[c]| == rowCount
    }

    /** Every row has been under MVCC since it was inserted. */
    predicate Tracked() {
      |chains| == rowCount && forall i :: 0 <= i < |chains| ==> chains[i] != []
    }

    function RowAt(i: int): Row {
      RowOf(columns, i)
    }
  }

  function InsertedVersions(chains: seq<Chain>, first: nat, n: nat, id: nat): seq<Chain> {
    if n == 0 then chains
    else AppendVersion(InsertedVersions(chains, first, n - 1, id), first + n - 1, Version(id, None, []))
  }

  function Inserted(t: VTable, id: nat, rows: seq<Row>): VTable
    requires forall k :: 0 <= k < |rows| ==> |rows[k]| == |t.columns|
  {
    VTable(seq(|t.columns|, c requires 0 <= c < |t.columns| =>
             t.columns[c] + seq(|rows|, k requires 0 <= k < |rows| => rows[k][c])),
           t.rowCount + |rows|,
           InsertedVersions(t.chains, t.rowCount, |rows|, id))
  }

  /** The new rows stand at the end with the cells they were given; the old rows keep theirs. */
  lemma InsertedRows(t: VTable, id: nat, rows: seq<Row>)
    requires t.Valid() && forall k :: 0 <= k < |rows| ==> |rows[k]| == |t.columns|
    ensures
      var t1 := Inserted(t, id, rows);
      && t1.Valid() && t1.rowCount == t.rowCount + |rows|
      && (forall i :: 0 <= i < t.rowCount ==> t1.RowAt(i) == t.RowAt(i))
      && (forall k :: 0 <= k < |rows| ==> t1.RowAt(t.rowCount + k) == rows[k])
  {
    var t1 := Inserted(t, id, rows);
    forall k | 0 <= k < |rows| ensures t1.RowAt(t.rowCount + k) == rows[k] {
      forall c | 0 <= c < |t.columns| ensures t1.columns[c][t.rowCount + k] == rows[k][c] { }
    }
  }

  function AssignedRow(t: VTable, mask: seq<bool>, assigns: seq<Assignment>, i: nat): Row
    requires i < |mask|
  {
    if mask[i] then Assign(t.RowAt(i), assigns) else t.RowAt(i)
  }

  function UpdatedRows(t: VTable, id: nat, mask: seq<bool>, assigns: seq<Assignment>): (t1: VTable)
    requires |mask| == t.rowCount
    ensures t1.Valid() && |t1.columns| == |t.columns| && |t1.chains| == |t.chains| && t1.rowCount == t.rowCount
  {
    VTable(seq(|t.columns|, c requires 0 <= c < |t.columns| =>
             seq(t.rowCount, i requires 0 <= i < t.rowCount => AssignedRow(t, mask, assigns, i)[c])),
           t.rowCount,
           seq(|t.chains|, i requires 0 <= i < |t.chains| =>
             if i < |mask| && mask[i] then Superseded(t.chains[i], id, Assign(t.RowAt(i), assigns)) else t.chains[i]))
  }

  /** Matched rows hold the last value given to each assigned column; every other cell is as before. */
  lemma UpdatedRowsWritten(t: VTable, id: nat, mask: seq<bool>, assigns: seq<Assignment>, i: nat)
    requires t.Valid() && |mask| == t.rowCount && i < t.rowCount
    ensures
      var t1 := UpdatedRows(t, id, mask, assigns);
      if mask[i] then CellsWritten(t.RowAt(i), t1.RowAt(i), assigns) else t1.RowAt(i) == t.RowAt(i)
  {
    var t1 := UpdatedRows(t, id, mask, assigns);
    assert t1.RowAt(i) == AssignedRow(t, mask, assigns, i);
    AssignIff(t.RowAt(i), t1.RowAt(i), assigns);
  }

  function DeletedRows(t: VTable, id: nat, mask: seq<bool>): (t1: VTable)
    requires |mask| == t.rowCount
    ensures |t1.chains| == |t.chains| && t1.rowCount == t.rowCount && t1.columns == t.columns
  {
    t.(chains := seq(|t.chains|, i requires 0 <= i < |t.chains| =>
         if i < |mask| && mask[i] then MarkDeleted(t.chains[i], id).0 else t.chains[i]))
  }

  /** First-committer-wins: the version this transaction sees was superseded after its snapshot. */
  predicate Conflict(m: Manager, chain: Chain, t: Txn) {
    var k := LatestVisible(m, chain, t);
    && k.Some?
    && chain[k.value].xmax.Some?
    && chain[k.value].xmax.value != t.id
    && m.State(chain[k.value].xmax.value).Committed?
    && m.State(chain[k.value].xmax.value).cid > t.snapshot
  }

  predicate AnyConflict(m: Manager, t: VTable, txn: Txn, mask: seq<bool>)
    requires |mask| == t.rowCount
  {
    exists i :: 0 <= i < |mask| && mask[i] && Conflict(m, Chains(t.chains, i), txn)
  }

  // ----- VACUUM -----

  ghost function Oldest(m: Manager): (o: nat)
    ensures o <= m.commitId
    ensures forall id :: id in m.snapshots && m.State(id).InProgress? ==> o <= m.snapshots[id]
    ensures o == m.commitId || exists id :: id in m.snapshots && m.State(id).InProgress? && m.snapshots[id] == o
  {
    OldestOf(m, m.snapshots.Keys)
  }

  ghost function OldestOf(m: Manager, ids: set<nat>): (o: nat)
    requires ids <= m.snapshots.Keys
    ensures o <= m.commitId
    ensures forall id :: id in ids && m.State(id).InProgress? ==> o <= m.snapshots[id]
    ensures o == m.commitId || exists id :: id in ids && m.State(id).InProgress? && m.snapshots[id] == o
  {
    if ids == {} then m.commitId
    else
      var id :| id in ids;
      var o := OldestOf(m, ids - {id});
      if m.State(id).InProgress? && m.snapshots[id] < o then m.snapshots[id] else o
  }

  predicate Dead(m: Manager, oldest: nat, v: Version) {
    || m.State(v.xmin).Aborted?
    || (v.xmax.Some? && m.State(v.xmax.value).Committed? && m.State(v.xmax.value).cid <= oldest)
  }

  function Retain(m: Manager, oldest: nat, chain: Chain): (r: Chain)
    ensures forall v :: v in r <==> v in chain && !Dead(m, oldest, v)
  {
    if chain == [] then []
    else
      var n := |chain| - 1;
      Retain(m, oldest, chain[..n]) + (if Dead(m, oldest, chain[n]) then [] else [chain[n]])
  }

  /** The rows whose chain keeps a version, in order. */
  function LiveRows(m: Manager, oldest: nat, chains: seq<Chain>): (r: seq<nat>)
    ensures |r| <= |chains|
    ensures forall k :: 0 <= k < |r| ==> r[k] < |chains|
  {
    if chains == [] then []
    else
      var n := |chains| - 1;
      LiveRows(m, oldest, chains[..n]) + (if Retain(m, oldest, chains[n]) != [] then [n] else [])
  }

  /** VACUUM of one table: drop dead versions, then compact away the rows left without any. */
  function Vacuumed(m: Manager, oldest: nat, t: VTable): VTable {
    var live := LiveRows(m, oldest, t.chains);
    if |live| < t.rowCount then
      VTable(seq(|t.columns|, c requires 0 <= c < |t.columns| =>
               seq(|live|, k requires 0 <= k < |live| => if live[k] < |t.columns[c]| then t.columns[c][live[k]] else 0)),
             |live|,
             seq(|live|, k requires 0 <= k < |live| => Retain(m, oldest, t.chains[live[k]])))
    else
      t.(chains := seq(|t.chains|, i requires 0 <= i < |t.chains| => Retain(m, oldest, t.chains[i])))
  }

  // ----- the step system -----

  datatype State = State(mgr: Manager, tab: VTable)

  datatype Step =
    | Begin(level: IsolationLevel)
    | Insert(txn: Txn, rows: seq<Row>)
    | Update(txn: Txn, mask: seq<bool>, assigns: seq<Assignment>)
    | Delete(txn: Txn, mask: seq<bool>)
    | Commit(txn: Txn)
    | Rollback(txn: Txn)
    | Vacuum

  /** What the engine guarantees when it runs a step: an open transaction, fitting arguments. */
  ghost predicate Enabled(s: State, step: Step) {
    match step
    case Begin(_) => true
    case Vacuum => true
    case Insert(t, rows) => s.mgr.Open(t) && forall k :: 0 <= k < |rows| ==> |rows[k]| == |s.tab.columns|
    case Update(t, mask, _) => s.mgr.Open(t) && |mask| == s.tab.rowCount
    case Delete(t, mask) => s.mgr.Open(t) && |mask| == s.tab.rowCount
    case Commit(t) => s.mgr.Open(t)
    case Rollback(t) => s.mgr.Open(t)
  }

  /** A Serializable statement that meets a conflict changes nothing. */
  ghost predicate Refused(s: State, step: Step)
    requires Enabled(s, step)
  {
    match step
    case Update(t, mask, _) => t.level == Serializable && AnyConflict(s.mgr, s.tab, t, mask)
    case Delete(t, mask) => t.level == Serializable && AnyConflict(s.mgr, s.tab, t, mask)
    case _ => false
  }

  ghost function Next(s: State, step: Step): State
    requires Enabled(s, step)
  {
    if Refused(s, step) then s
    else
      match step
      case Begin(level) => s.(mgr := Begun(s.mgr, level).0)
      case Insert(t, rows) => s.(tab := Inserted(s.tab, t.id, rows))
      case Update(t, mask, assigns) => s.(tab := UpdatedRows(s.tab, t.id, mask, assigns))
      case Delete(t, mask) => s.(tab := DeletedRows(s.tab, t.id, mask))
      case Commit(t) => s.(mgr := CommittedTxn(s.mgr, t.id))
      case Rollback(t) => s.(mgr := RolledBack(s.mgr, t.id))
      case Vacuum => State(WithoutAborted(s.mgr), Vacuumed(WithoutAborted(s.mgr), Oldest(WithoutAborted(s.mgr)), s.tab))
  }

  ghost predicate Good(s: State) {
    s.mgr.Valid() && s.tab.Valid() && s.tab.Tracked()
  }

  // ----- basic preservation -----

  lemma AppendAtEnd(chains: seq<Chain>, v: Version)
    ensures AppendVersion(chains, |chains|, v) == chains + [[v]]
  {
    var grown: seq<Chain> := chains + seq(1, _ => []);
    assert grown == chains + [[]];
    assert grown[|chains|] + [v] == [v];
  }

  lemma {:induction false} InsertedChains(chains: seq<Chain>, n: nat, id: nat)
    ensures InsertedVersions(chains, |chains|, n, id) == chains + seq(n, _ => [Version(id, None, [])])
  {
    if n > 0 {
      InsertedChains(chains, n - 1, id);
      var before := chains + seq(n - 1, _ => [Version(id, None, [])]);
      assert |before| == |chains| + n - 1;
      AppendAtEnd(before, Version(id, None, []));
    }
  }

  lemma ManagerKept(m: Manager, step: Step, s: State)
    requires m.Valid() && s.mgr == m && Enabled(s, step)
    ensures Next(s, step).mgr.Valid()
  {
  }

  lemma VacuumedShape(m: Manager, oldest: nat, t: VTable)
    requires t.Valid() && t.Tracked()
    ensures Vacuumed(m, oldest, t).Valid() && Vacuumed(m, oldest, t).Tracked()
  {
    var live := LiveRows(m, oldest, t.chains);
    if |live| >= t.rowCount {
      LiveAll(m, oldest, t.chains);
    } else {
      forall k | 0 <= k < |live| ensures Retain(m, oldest, t.chains[live[k]]) != [] { LiveRow(m, oldest, t.chains, k); }
    }
  }

  lemma {:induction false} LiveRow(m: Manager, oldest: nat, chains: seq<Chain>, k: nat)
    requires k < |LiveRows(m, oldest, chains)|
    ensures Retain(m, oldest, chains[LiveRows(m, oldest, chains)[k]]) != []
  {
    var n := |chains| - 1;
    if k < |LiveRows(m, oldest, chains[..n])| {
      LiveRow(m, oldest, chains[..n], k);
    }
  }

  /** When as many rows live as there are chains, every chain keeps a version. */
  lemma {:induction false} LiveAll(m: Manager, oldest: nat, chains: seq<Chain>)
    requires |LiveRows(m, oldest, chains)| >= |chains|
    ensures forall i :: 0 <= i < |chains| ==> Retain(m, oldest, chains[i]) != []
  {
    if chains != [] {
      var n := |chains| - 1;
      LiveAll(m, oldest, chains[..n]);
      assert forall i :: 0 <= i < n ==> chains[..n][i] == chains[i];
    }
  }

  lemma StepKeepsGood(s: State, step: Step)
    requires Good(s) && Enabled(s, step)
    ensures Good(Next(s, step))
  {
    ManagerKept(s.mgr, step, s);
    match step
    case Insert(t, rows) => InsertedChains(s.tab.chains, |rows|, t.id);
    case Vacuum => VacuumedShape(WithoutAborted(s.mgr), Oldest(WithoutAborted(s.mgr)), s.tab);
    case Begin(_) =>
    case Commit(_) =>
    case Rollback(_) =>
    case Update(t, mask, assigns) =>
    case Delete(t, mask) =>
  }
}
