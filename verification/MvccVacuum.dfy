/** What VACUUM does to the rows each kind of reader scans. */
module MvccVacuum {
  import opened Basics
  import opened Catalog
  import opened Mvcc
  import opened MvccSnapshots

  /** The scan's row test: a row without versions counts as visible. */
  predicate RowVisible(m: Manager, chain: Chain, t: Txn) {
    chain == [] || LatestVisible(m, chain, t).Some?
  }

  /** The rows an unfiltered scan returns, read from the columns, among the first `n`. */
  function VisibleRows(m: Manager, tab: VTable, t: Txn, n: nat): seq<Row> {
    if n == 0 then []
    else VisibleRows(m, tab, t, n - 1) + (if RowVisible(m, Chains(tab.chains, n - 1), t) then [tab.RowAt(n - 1)] else [])
  }

  /** A version the reader sees is among those VACUUM keeps. */
  ghost predicate Survives(m: Manager, oldest: nat, chain: Chain, t: Txn) {
    LatestVisible(m, Retain(m, oldest, chain), t).Some?
  }

  /** The rows among the first `n` that are still visible through the versions VACUUM keeps. */
  ghost function SurvivingRows(m: Manager, oldest: nat, tab: VTable, t: Txn, n: nat): seq<Row> {
    if n == 0 then []
    else
      SurvivingRows(m, oldest, tab, t, n - 1) +
      (if Survives(m, oldest, Chains(tab.chains, n - 1), t) then [tab.RowAt(n - 1)] else [])
  }

  /** Visible before, not afterwards. */
  ghost predicate Lost(m: Manager, oldest: nat, chain: Chain, t: Txn) {
    RowVisible(m, chain, t) && !Survives(m, oldest, chain, t)
  }

  /** VACUUM only removes versions, so it makes nothing visible. */
  lemma SurvivesIsVisible(m: Manager, oldest: nat, chain: Chain, t: Txn)
    ensures Survives(m, oldest, chain, t) ==> LatestVisible(m, chain, t).Some?
  {
    if Survives(m, oldest, chain, t) {
      var r := Retain(m, oldest, chain);
      var v := r[LatestVisible(m, r, t).value];
      assert v in r && v in chain;
    }
  }

  function FirstRows(tab: VTable, n: nat): (r: seq<Row>)
    ensures |r| == n
  {
    seq(n, i requires 0 <= i => tab.RowAt(i))
  }

  function VisibleMask(m: Manager, tab: VTable, t: Txn, n: nat): (r: seq<bool>)
    ensures |r| == n && forall i :: 0 <= i < n ==> r[i] == RowVisible(m, Chains(tab.chains, i), t)
  {
    seq(n, i requires 0 <= i => RowVisible(m, Chains(tab.chains, i), t))
  }

  ghost function SurvivingMask(m: Manager, oldest: nat, tab: VTable, t: Txn, n: nat): (r: seq<bool>)
    ensures |r| == n && forall i :: 0 <= i < n ==> r[i] == Survives(m, oldest, Chains(tab.chains, i), t)
  {
    seq(n, i requires 0 <= i => Survives(m, oldest, Chains(tab.chains, i), t))
  }

  lemma {:induction false} VisibleIsSelect(m: Manager, tab: VTable, t: Txn, n: nat)
    ensures VisibleRows(m, tab, t, n) == Select(FirstRows(tab, n), VisibleMask(m, tab, t, n))
  {
    if n > 0 {
      var rows, mask := FirstRows(tab, n - 1), VisibleMask(m, tab, t, n - 1);
      var b := RowVisible(m, Chains(tab.chains, n - 1), t);
      VisibleIsSelect(m, tab, t, n - 1);
      SelectAppend(rows, mask, tab.RowAt(n - 1), b);
      assert FirstRows(tab, n) == rows + [tab.RowAt(n - 1)];
      assert VisibleMask(m, tab, t, n) == mask + [b];
    }
  }

  lemma {:induction false} SurvivingIsSelect(m: Manager, oldest: nat, tab: VTable, t: Txn, n: nat)
    ensures SurvivingRows(m, oldest, tab, t, n) == Select(FirstRows(tab, n), SurvivingMask(m, oldest, tab, t, n))
  {
    if n > 0 {
      var rows, mask := FirstRows(tab, n - 1), SurvivingMask(m, oldest, tab, t, n - 1);
      var b := Survives(m, oldest, Chains(tab.chains, n - 1), t);
      SurvivingIsSelect(m, oldest, tab, t, n - 1);
      SelectAppend(rows, mask, tab.RowAt(n - 1), b);
      assert FirstRows(tab, n) == rows + [tab.RowAt(n - 1)];
      assert SurvivingMask(m, oldest, tab, t, n) == mask + [b];
    }
  }

  /** Selecting with a smaller mask gives as many elements only if the masks are equal. */
  lemma {:induction false} SelectFewer<T>(s: seq<T>, a: seq<bool>, b: seq<bool>)
    requires |a| == |b| == |s| && forall i :: 0 <= i < |s| && b[i] ==> a[i]
    ensures |Select(s, b)| <= |Select(s, a)|
    ensures |Select(s, b)| == |Select(s, a)| ==> a == b
  {
    if s != [] {
      SelectFewer(s[1..], a[1..], b[1..]);
      assert a == [a[0]] + a[1..] && b == [b[0]] + b[1..];
    }
  }

  lemma {:induction false} LivePrefix(m: Manager, oldest: nat, chains: seq<Chain>, n: nat)
    requires n <= |chains|
    ensures LiveRows(m, oldest, chains[..n]) <= LiveRows(m, oldest, chains)
    decreases |chains| - n
  {
    if n < |chains| {
      assert chains[..n + 1][..n] == chains[..n];
      LivePrefix(m, oldest, chains, n + 1);
    } else {
      assert chains[..n] == chains;
    }
  }

  /** Row `k` of the compacted table is the `k`-th live row of the old one. */
  ghost predicate Compacts(m: Manager, oldest: nat, tab: VTable, tab1: VTable) {
    forall k :: 0 <= k < |LiveRows(m, oldest, tab.chains)| ==> MovedRow(m, oldest, tab, tab1, k)
  }

  ghost predicate MovedRow(m: Manager, oldest: nat, tab: VTable, tab1: VTable, k: nat)
    requires k < |LiveRows(m, oldest, tab.chains)|
  {
    var i := LiveRows(m, oldest, tab.chains)[k];
    Chains(tab1.chains, k) == Retain(m, oldest, tab.chains[i]) && tab1.RowAt(k) == tab.RowAt(i)
  }

  lemma VacuumCompacts(m: Manager, oldest: nat, tab: VTable)
    requires tab.Valid() && |LiveRows(m, oldest, tab.chains)| < tab.rowCount
    ensures Compacts(m, oldest, tab, Vacuumed(m, oldest, tab))
  {
    forall k | 0 <= k < |LiveRows(m, oldest, tab.chains)| ensures MovedRow(m, oldest, tab, Vacuumed(m, oldest, tab), k) {
    }
  }

  /** The compacted table shows the surviving rows, in order, and no others. */
  lemma {:induction false} CompactedRows(m: Manager, oldest: nat, tab: VTable, tab1: VTable, t: Txn, n: nat)
    requires Compacts(m, oldest, tab, tab1) && n <= |tab.chains|
    ensures VisibleRows(m, tab1, t, |LiveRows(m, oldest, tab.chains[..n])|) == SurvivingRows(m, oldest, tab, t, n)
  {
    if n > 0 {
      CompactedRows(m, oldest, tab, tab1, t, n - 1);
      CompactedStep(m, oldest, tab, tab1, t, n);
      SurvivingSnoc(m, oldest, tab, t, n);
    }
  }

  lemma SurvivingSnoc(m: Manager, oldest: nat, tab: VTable, t: Txn, n: nat)
    requires 1 <= n <= |tab.chains|
    ensures SurvivingRows(m, oldest, tab, t, n) ==
      SurvivingRows(m, oldest, tab, t, n - 1) + (if Survives(m, oldest, tab.chains[n - 1], t) then [tab.RowAt(n - 1)] else [])
  {
  }

  lemma CompactedStep(m: Manager, oldest: nat, tab: VTable, tab1: VTable, t: Txn, n: nat)
    requires Compacts(m, oldest, tab, tab1) && 1 <= n <= |tab.chains|
    ensures
      var before, live := |LiveRows(m, oldest, tab.chains[..n - 1])|, |LiveRows(m, oldest, tab.chains[..n])|;
      VisibleRows(m, tab1, t, live) ==
        VisibleRows(m, tab1, t, before) + (if Survives(m, oldest, tab.chains[n - 1], t) then [tab.RowAt(n - 1)] else [])
  {
    LiveSnoc(m, oldest, tab.chains, n);
    var kept, k := Retain(m, oldest, tab.chains[n - 1]), |LiveRows(m, oldest, tab.chains[..n - 1])|;
    if kept != [] {
      KeptMoves(m, oldest, tab, tab1, n);
      NextVisible(m, tab1, t, k, kept);
    }
  }

  /** A row that keeps a version moves to the next free place. */
  lemma KeptMoves(m: Manager, oldest: nat, tab: VTable, tab1: VTable, n: nat)
    requires Compacts(m, oldest, tab, tab1) && 1 <= n <= |tab.chains| && Retain(m, oldest, tab.chains[n - 1]) != []
    ensures
      var k := |LiveRows(m, oldest, tab.chains[..n - 1])|;
      Chains(tab1.chains, k) == Retain(m, oldest, tab.chains[n - 1]) && tab1.RowAt(k) == tab.RowAt(n - 1)
  {
    var k := |LiveRows(m, oldest, tab.chains[..n - 1])|;
    LiveSnoc(m, oldest, tab.chains, n);
    LivePrefix(m, oldest, tab.chains, n);
    assert LiveRows(m, oldest, tab.chains)[k] == n - 1;
    assert MovedRow(m, oldest, tab, tab1, k);
  }

  lemma NextVisible(m: Manager, tab1: VTable, t: Txn, k: nat, kept: Chain)
    requires Chains(tab1.chains, k) == kept != []
    ensures VisibleRows(m, tab1, t, k + 1) ==
      VisibleRows(m, tab1, t, k) + (if LatestVisible(m, kept, t).Some? then [tab1.RowAt(k)] else [])
  {
  }

  lemma LiveSnoc(m: Manager, oldest: nat, chains: seq<Chain>, n: nat)
    requires 1 <= n <= |chains|
    ensures LiveRows(m, oldest, chains[..n]) ==
      LiveRows(m, oldest, chains[..n - 1]) + (if Retain(m, oldest, chains[n - 1]) != [] then [n - 1] else [])
  {
    assert chains[..n][..n - 1] == chains[..n - 1];
  }

  lemma {:induction false} BeyondChains(m: Manager, oldest: nat, tab: VTable, t: Txn, n: nat)
    requires |tab.chains| <= n
    ensures SurvivingRows(m, oldest, tab, t, n) == SurvivingRows(m, oldest, tab, t, |tab.chains|)
  {
    if n > |tab.chains| { BeyondChains(m, oldest, tab, t, n - 1); }
  }

  /** When nothing is compacted every chain keeps a version and stays where it is. */
  lemma {:induction false} InPlaceRows(m: Manager, oldest: nat, tab: VTable, tab1: VTable, t: Txn, n: nat)
    requires tab1.columns == tab.columns && n <= |tab.chains| == |tab1.chains|
    requires forall i :: 0 <= i < n ==> tab1.chains[i] == Retain(m, oldest, tab.chains[i]) != []
    ensures VisibleRows(m, tab1, t, n) == SurvivingRows(m, oldest, tab, t, n)
  {
    if n > 0 { InPlaceRows(m, oldest, tab, tab1, t, n - 1); }
  }

  /** After VACUUM a reader scans exactly the surviving rows. */
  lemma VacuumShowsSurvivors(m: Manager, oldest: nat, tab: VTable, t: Txn)
    requires tab.Valid() && |tab.chains| <= tab.rowCount
    ensures
      var tab1 := Vacuumed(m, oldest, tab);
      VisibleRows(m, tab1, t, tab1.rowCount) == SurvivingRows(m, oldest, tab, t, tab.rowCount)
  {
    var tab1 := Vacuumed(m, oldest, tab);
    if |LiveRows(m, oldest, tab.chains)| >= tab.rowCount {
      LiveAll(m, oldest, tab.chains);
      InPlaceRows(m, oldest, tab, tab1, t, tab.rowCount);
    } else {
      VacuumCompacts(m, oldest, tab);
      CompactedRows(m, oldest, tab, tab1, t, |tab.chains|);
      assert tab.chains[..|tab.chains|] == tab.chains;
      BeyondChains(m, oldest, tab, t, tab.rowCount);
    }
  }

  /** For any reader: VACUUM leaves the rows it scans unchanged iff no row it sees is lost. */
  lemma VacuumKeepsIff(m: Manager, oldest: nat, tab: VTable, t: Txn)
    requires tab.Valid() && |tab.chains| <= tab.rowCount
    ensures
      var tab1 := Vacuumed(m, oldest, tab);
      VisibleRows(m, tab1, t, tab1.rowCount) == VisibleRows(m, tab, t, tab.rowCount) <==>
        forall i :: 0 <= i < tab.rowCount ==> !Lost(m, oldest, Chains(tab.chains, i), t)
  {
    var n := tab.rowCount;
    VacuumShowsSurvivors(m, oldest, tab, t);
    VisibleIsSelect(m, tab, t, n);
    SurvivingIsSelect(m, oldest, tab, t, n);
    var a, b := VisibleMask(m, tab, t, n), SurvivingMask(m, oldest, tab, t, n);
    forall i | 0 <= i < n ensures (b[i] ==> a[i]) && (Lost(m, oldest, Chains(tab.chains, i), t) <==> a[i] != b[i]) {
      SurvivesIsVisible(m, oldest, Chains(tab.chains, i), t);
    }
    SelectFewer(FirstRows(tab, n), a, b);
    if forall i :: 0 <= i < n ==> !Lost(m, oldest, Chains(tab.chains, i), t) { assert a == b; }
  }

  /** To an open transaction a row is lost only if it has no versions. */
  lemma LostToOpen(m: Manager, oldest: nat, chain: Chain, t: Txn)
    requires m.Open(t) && oldest <= t.snapshot
    ensures Lost(m, oldest, chain, t) <==> chain == []
  {
    RetainSeen(m, oldest, chain, t);
  }

  /**
   VACUUM leaves the rows an open transaction scans unchanged iff every row has a version chain;
   rows that predate version control are scanned before it and gone after it.
  */
  lemma VacuumKeepsRowsIff(m: Manager, oldest: nat, tab: VTable, t: Txn)
    requires m.Open(t) && oldest <= t.snapshot && tab.Valid() && |tab.chains| <= tab.rowCount
    ensures
      var tab1 := Vacuumed(m, oldest, tab);
      VisibleRows(m, tab1, t, tab1.rowCount) == VisibleRows(m, tab, t, tab.rowCount) <==> tab.Tracked()
  {
    VacuumKeepsIff(m, oldest, tab, t);
    forall i | 0 <= i < tab.rowCount ensures Lost(m, oldest, Chains(tab.chains, i), t) <==> Chains(tab.chains, i) == [] {
      LostToOpen(m, oldest, Chains(tab.chains, i), t);
    }
    TrackedIff(tab);
  }

  lemma TrackedIff(tab: VTable)
    requires |tab.chains| <= tab.rowCount
    ensures tab.Tracked() <==> forall i :: 0 <= i < tab.rowCount ==> Chains(tab.chains, i) != []
  {
    assert Chains(tab.chains, |tab.chains|) == [];
    if forall i :: 0 <= i < tab.rowCount ==> Chains(tab.chains, i) != [] {
      forall i | 0 <= i < |tab.chains| ensures tab.chains[i] != [] { assert Chains(tab.chains, i) != []; }
    }
  }

  // ----- readers and writers outside a transaction -----

  /** The reader outside a transaction: id 0, everything committed. */
  function Autocommit(m: Manager, level: IsolationLevel): Txn {
    Txn(0, m.commitId, level)
  }

  /** Of the versions such a reader sees, VACUUM removes exactly those written outside a transaction. */
  lemma AutocommitDead(m: Manager, oldest: nat, v: Version, level: IsolationLevel)
    requires m.Valid() && oldest <= m.commitId && VisibleTo(m, v, Autocommit(m, level))
    ensures Dead(m, oldest, v) <==> v.xmin == 0
  {
    VisibleIff(m, v, Autocommit(m, level));
    assert m.State(0) == Aborted;
  }

  /** Some version the reader sees was written inside a transaction. */
  ghost predicate SeesTransactional(m: Manager, chain: Chain, t: Txn) {
    exists k :: 0 <= k < |chain| && VisibleTo(m, chain[k], t) && chain[k].xmin != 0
  }

  lemma SurvivesAutocommit(m: Manager, oldest: nat, chain: Chain, level: IsolationLevel)
    requires m.Valid() && oldest <= m.commitId
    ensures Survives(m, oldest, chain, Autocommit(m, level)) <==> SeesTransactional(m, chain, Autocommit(m, level))
  {
    var t, r := Autocommit(m, level), Retain(m, oldest, chain);
    if Survives(m, oldest, chain, t) {
      var v := r[LatestVisible(m, r, t).value];
      assert v in r && v in chain;
      AutocommitDead(m, oldest, v, level);
      var k :| 0 <= k < |chain| && chain[k] == v;
    }
    if SeesTransactional(m, chain, t) {
      var k :| 0 <= k < |chain| && VisibleTo(m, chain[k], t) && chain[k].xmin != 0;
      AutocommitDead(m, oldest, chain[k], level);
      assert chain[k] in r;
      var j :| 0 <= j < |r| && r[j] == chain[k];
      assert VisibleTo(m, r[j], t);
    }
  }

  /**
   VACUUM leaves the rows a reader outside a transaction scans unchanged iff every row has a version
   chain and every row it sees has a visible version written inside a transaction.
  */
  lemma AutocommitKeepsRowsIff(m: Manager, oldest: nat, tab: VTable, level: IsolationLevel)
    requires m.Valid() && oldest <= m.commitId && tab.Valid() && |tab.chains| <= tab.rowCount
    ensures
      var t, tab1 := Autocommit(m, level), Vacuumed(m, oldest, tab);
      VisibleRows(m, tab1, t, tab1.rowCount) == VisibleRows(m, tab, t, tab.rowCount) <==>
        && tab.Tracked()
        && forall i :: 0 <= i < |tab.chains| && RowVisible(m, tab.chains[i], t) ==> SeesTransactional(m, tab.chains[i], t)
  {
    var t := Autocommit(m, level);
    VacuumKeepsIff(m, oldest, tab, t);
    TrackedIff(tab);
    forall i | 0 <= i < tab.rowCount
      ensures Lost(m, oldest, Chains(tab.chains, i), t) <==>
        RowVisible(m, Chains(tab.chains, i), t) && !SeesTransactional(m, Chains(tab.chains, i), t)
    {
      SurvivesAutocommit(m, oldest, Chains(tab.chains, i), level);
    }
    if forall i :: 0 <= i < tab.rowCount ==> !Lost(m, oldest, Chains(tab.chains, i), t) {
      forall i | 0 <= i < |tab.chains| && RowVisible(m, tab.chains[i], t) ensures SeesTransactional(m, tab.chains[i], t) {
        assert !Lost(m, oldest, Chains(tab.chains, i), t);
      }
      forall i | 0 <= i < tab.rowCount ensures Chains(tab.chains, i) != [] { assert !Lost(m, oldest, Chains(tab.chains, i), t); }
    }
  }

  /** A row inserted outside a transaction is scanned before VACUUM and gone after it. */
  lemma VacuumDropsAutocommitRows(m: Manager, tab: VTable, cell: u64, level: IsolationLevel)
    requires m.Valid() && tab == VTable([[cell]], 1, [[Version(0, None, [cell])]])
    ensures VisibleRows(m, tab, Autocommit(m, level), 1) == [[cell]]
    ensures Vacuumed(m, Oldest(m), tab) == VTable([[]], 0, [])
  {
    assert m.State(0) == Aborted;
    var chain := tab.chains[0];
    assert chain[..0] == [] && tab.chains[..0] == [];
    assert Retain(m, Oldest(m), chain) == [];
    assert LiveRows(m, Oldest(m), tab.chains) == [];
    var tab1 := Vacuumed(m, Oldest(m), tab);
    assert |tab1.columns| == 1 && tab1.columns[0] == [] && tab1.chains == [];
    assert tab1.columns == [[]];
    AutocommitRowSeen(m, tab, cell, level);
  }

  lemma AutocommitRowSeen(m: Manager, tab: VTable, cell: u64, level: IsolationLevel)
    requires tab == VTable([[cell]], 1, [[Version(0, None, [cell])]])
    ensures VisibleRows(m, tab, Autocommit(m, level), 1) == [[cell]]
  {
    var t := Autocommit(m, level);
    assert VisibleTo(m, tab.chains[0][0], t);
    assert RowVisible(m, Chains(tab.chains, 0), t);
    assert tab.RowAt(0) == [cell];
    assert VisibleRows(m, tab, t, 0) == [];
  }

  /**
   What VACUUM leaves: every version kept was there before, its creator was not rolled back, and its
   deleter, if it has committed, did so after some transaction that is still open took its snapshot;
   every version that fails one of these is gone.
  */
  lemma VacuumReclaims(m: Manager, oldest: nat, chain: Chain, v: Version)
    ensures v in Retain(m, oldest, chain) <==>
      && v in chain && !m.State(v.xmin).Aborted?
      && !(v.xmax.Some? && m.State(v.xmax.value).Committed? && m.State(v.xmax.value).cid <= oldest)
    ensures |Retain(m, oldest, chain)| <= |chain|
  {
    RetainNoLonger(m, oldest, chain);
  }

  lemma {:induction false} RetainNoLonger(m: Manager, oldest: nat, chain: Chain)
    ensures |Retain(m, oldest, chain)| <= |chain|
    decreases |chain|
  {
    if chain != [] { RetainNoLonger(m, oldest, chain[..|chain| - 1]); }
  }
}
