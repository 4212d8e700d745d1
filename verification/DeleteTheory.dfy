/** Masks, compaction and the bookkeeping of a recursive DELETE. */
module DeleteTheory {
  import opened Basics
  import opened Catalog
  import opened DmlWhere
  import opened CascadeWhere
  import opened ForeignKeys

  // ----- masks -----

  /** The rows a DELETE or UPDATE addresses; no WHERE clause means every row. */
  function MatchMask(t: Table, where: Option<Condition>): (r: Result<seq<bool>>)
    ensures r.Ok? ==> |r.value| == t.rowCount
  {
    match where
    case None => Ok(seq(t.rowCount, _ => true))
    case Some(c) => SimpleWhere(t, Tokens(c))
  }

  /** A mask that treats identical rows alike. */
  ghost predicate ByValue(t: Table, mask: seq<bool>) {
    && |mask| == t.rowCount
    && forall i, j :: 0 <= i < t.rowCount && 0 <= j < t.rowCount && t.RowAt(i) == t.RowAt(j) ==> mask[i] == mask[j]
  }

  lemma MatchMaskByValue(t: Table, where: Option<Condition>)
    requires MatchMask(t, where).Ok?
    ensures ByValue(t, MatchMask(t, where).value)
  {
  }

  /** The addressed rows as row identities. */
  function Seed(name: string, t: Table, mask: seq<bool>): set<RowId>
    requires |mask| == t.rowCount
  {
    set i | 0 <= i < t.rowCount && mask[i] :: (name, t.RowAt(i))
  }

  function DeleteSeed(db: Database, name: string, where: Option<Condition>): set<RowId> {
    if name in db && MatchMask(db[name], where).Ok? then Seed(name, db[name], MatchMask(db[name], where).value) else {}
  }

  // ----- compaction -----

  function Negated(mask: seq<bool>): (r: seq<bool>)
    ensures |r| == |mask|
  {
    seq(|mask|, i requires 0 <= i < |mask| => !mask[i])
  }

  /** The positions a mask keeps, in order. */
  function Picked(keep: seq<bool>): (r: seq<nat>)
    ensures forall k :: 0 <= k < |r| ==> r[k] < |keep|
  {
    if keep == [] then []
    else Picked(keep[..|keep| - 1]) + (if keep[|keep| - 1] then [|keep| - 1] else [])
  }

  /** The selected elements are those at the picked positions. */
  lemma {:induction false} SelectPickedAt<T>(s: seq<T>, keep: seq<bool>)
    requires |s| == |keep|
    ensures |Select(s, keep)| == |Picked(keep)|
    ensures forall k :: 0 <= k < |Picked(keep)| ==> Select(s, keep)[k] == s[Picked(keep)[k]]
    decreases |s|
  {
    if s != [] {
      var n := |s| - 1;
      assert s[..n] + [s[n]] == s && keep[..n] + [keep[n]] == keep;
      SelectAppend(s[..n], keep[..n], s[n], keep[n]);
      SelectPickedAt(s[..n], keep[..n]);
    }
  }

  lemma SelectPicked<T>(s: seq<T>, keep: seq<bool>)
    requires |s| == |keep|
    ensures Select(s, keep) == seq(|Picked(keep)|, k requires 0 <= k < |Picked(keep)| => s[Picked(keep)[k]])
  {
    SelectPickedAt(s, keep);
  }

  /** Selecting the same rows in every column selects those rows of the table. */
  lemma CompactRows(t: Table, t1: Table, keep: seq<bool>)
    requires t.Valid() && |keep| == t.rowCount
    requires |t1.columns| == |t.columns| && t1.rowCount == |Picked(keep)|
    requires forall c :: 0 <= c < |t.columns| ==> t1.columns[c] == Select(t.columns[c], keep)
    ensures t1.Rows() == Select(t.Rows(), keep)
  {
    SelectPicked(t.Rows(), keep);
    forall c | 0 <= c < |t.columns| { SelectPicked(t.columns[c], keep); }
    forall k | 0 <= k < t1.rowCount ensures t1.RowAt(k) == t.RowAt(Picked(keep)[k]) {
      forall c | 0 <= c < |t.columns| ensures t1.Cell(c, k) == t.Cell(c, Picked(keep)[k]) { }
    }
  }

  lemma {:induction false} PickedCount(mask: seq<bool>)
    ensures |Picked(Negated(mask))| == |mask| - Count(mask)
  {
    if mask != [] {
      var n := |mask| - 1;
      PickedCount(mask[..n]);
      assert Negated(mask)[..n] == Negated(mask[..n]);
      CountAppend(mask[..n], mask[n]);
      assert mask[..n] + [mask[n]] == mask;
    }
  }

  /** Dropping the addressed rows is the same as keeping the rows outside the seed. */
  lemma SelectIsKeep(name: string, t: Table, mask: seq<bool>)
    requires ByValue(t, mask)
    ensures Select(t.Rows(), Negated(mask)) == Keep(t.Rows(), name, Seed(name, t, mask))
  {
    var seed := Seed(name, t, mask);
    forall i | 0 <= i < t.rowCount ensures Negated(mask)[i] <==> (name, t.Rows()[i]) !in seed {
      if mask[i] { assert (name, t.RowAt(i)) in seed; }
    }
    SelectKeepSuffix(t.Rows(), Negated(mask), name, seed);
  }

  lemma {:induction false} SelectKeepSuffix(rows: seq<Row>, keep: seq<bool>, name: string, dead: set<RowId>)
    requires |keep| == |rows|
    requires forall i :: 0 <= i < |rows| ==> (keep[i] <==> (name, rows[i]) !in dead)
    ensures Select(rows, keep) == Keep(rows, name, dead)
  {
    if rows != [] {
      SelectKeepSuffix(rows[1..], keep[1..], name, dead);
    }
  }

  // ----- what a DELETE relies on -----

  /** What a DELETE may rely on in the catalog. */
  ghost predicate Ready(db: Database, rank: map<string, nat>) {
    WellFormed(db) && Ranked(db, rank)
  }

  lemma ReadyPruned(db: Database, db1: Database, d: set<RowId>, rank: map<string, nat>)
    requires Ready(db, rank) && Pruned(db, db1, d)
    ensures Ready(db1, rank)
  {
    PrunedSchema(db, db1, d);
  }

  /** Every key cascades and every referenced value prints as a non-negative literal. */
  ghost predicate NeverFails(db: Database) {
    forall c, k :: c in db && 0 <= k < |db[c].ForeignKeys()| ==> KeyNeverFails(db, db[c].ForeignKeys()[k])
  }

  ghost predicate KeyNeverFails(db: Database, fk: ForeignKey) {
    && fk.Action() == Cascade
    && (fk.refTable in db ==>
          forall y :: y in db[fk.refTable].Rows() ==>
            Printable(Key(db[fk.refTable].columnNames, y, fk.refColumns), |fk.refColumns|))
  }

  lemma NeverFailsPruned(db: Database, db1: Database, d: set<RowId>)
    requires NeverFails(db) && Pruned(db, db1, d)
    ensures NeverFails(db1)
  {
    forall c, k | c in db1 && 0 <= k < |db1[c].ForeignKeys()| ensures KeyNeverFails(db1, db1[c].ForeignKeys()[k]) {
      assert PrunedTable(c, db[c], db1[c], d);
      var fk := db[c].ForeignKeys()[k];
      assert KeyNeverFails(db, fk);
      if fk.refTable in db { assert PrunedTable(fk.refTable, db[fk.refTable], db1[fk.refTable], d); }
    }
  }

  lemma SeedRow(name: string, t: Table, mask: seq<bool>, cols: seq<string>, y: Row)
    requires |mask| == t.rowCount && (name, y) in Seed(name, t, mask)
    ensures Key(t.columnNames, y, cols) in Select(KeysOf(t, cols), mask)
  {
    var i :| 0 <= i < t.rowCount && mask[i] && y == t.RowAt(i);
    SelectMember(KeysOf(t, cols), mask, i);
  }

  lemma SeedKey(name: string, t: Table, mask: seq<bool>, cols: seq<string>, key: seq<u64>) returns (y: Row)
    requires |mask| == t.rowCount && key in Select(KeysOf(t, cols), mask)
    ensures y in t.Rows() && (name, y) in Seed(name, t, mask) && Key(t.columnNames, y, cols) == key
  {
    var i := SelectFrom(KeysOf(t, cols), mask, key);
    y := t.RowAt(i);
    assert t.Rows()[i] == y;
  }

  /** The deleted tuples of a cascade are well shaped and not empty. */
  lemma CascadeTuples(db: Database, c: string, fk: ForeignKey, mask: seq<bool>)
    requires WellFormed(db) && c in db && fk in db[c].ForeignKeys() && fk.Action() == Cascade
    requires fk.refTable in db && |mask| == db[fk.refTable].rowCount && Count(mask) > 0
    ensures
      var tuples := Select(KeysOf(db[fk.refTable], fk.refColumns), mask);
      && SameWidth(fk.columns, tuples) && tuples != []
      && (ExactFor(db, Seed(fk.refTable, db[fk.refTable], mask)) ==> SameTail(tuples))
      && db[c].Valid() && Resolved(fk.columns, db[c].columnNames)
      && (KeyNeverFails(db, fk) ==> forall j :: 0 <= j < |tuples| ==> Printable(tuples[j], |fk.columns|))
  {
    var k :| 0 <= k < |db[c].ForeignKeys()| && db[c].ForeignKeys()[k] == fk;
    assert WellFormedKey(db, c, fk);
    var parent := db[fk.refTable];
    var keys := KeysOf(parent, fk.refColumns);
    var tuples := Select(keys, mask);
    forall j | 0 <= j < |tuples| ensures |tuples[j]| == |fk.columns| { var i := SelectFrom(keys, mask, tuples[j]); }
    CountZero(mask);
    var i :| 0 <= i < |mask| && mask[i];
    SelectMember(keys, mask, i);
    if ExactFor(db, Seed(fk.refTable, parent, mask)) { TuplesSameTail(db, c, k, mask); }
    if KeyNeverFails(db, fk) {
      forall j | 0 <= j < |tuples| ensures Printable(tuples[j], |fk.columns|) {
        var y := SeedKey(fk.refTable, parent, mask, fk.refColumns, tuples[j]);
      }
    }
  }

  /** The deleted rows lie inside the set where tails agree, so their tuples do too. */
  lemma TuplesSameTail(db: Database, c: string, k: nat, mask: seq<bool>)
    requires c in db && k < |db[c].ForeignKeys()| && db[c].ForeignKeys()[k].Action() == Cascade
    requires db[c].ForeignKeys()[k].refTable in db && |mask| == db[db[c].ForeignKeys()[k].refTable].rowCount
    requires
      var p := db[c].ForeignKeys()[k].refTable;
      ExactFor(db, Seed(p, db[p], mask))
    ensures
      var fk := db[c].ForeignKeys()[k];
      SameTail(Select(KeysOf(db[fk.refTable], fk.refColumns), mask))
  {
    var fk := db[c].ForeignKeys()[k];
    var parent := db[fk.refTable];
    var top :| ReadsRight(db, Seed(fk.refTable, parent, mask), top);
    assert TailsAgree(db, fk, top);
    var s := Select(KeysOf(parent, fk.refColumns), mask);
    forall i, j | 0 <= i < |s| && 0 <= j < |s| && |s[i]| >= 1 && |s[j]| >= 1 ensures s[i][1..] == s[j][1..] {
      var y := SeedKey(fk.refTable, parent, mask, fk.refColumns, s[i]);
      var z := SeedKey(fk.refTable, parent, mask, fk.refColumns, s[j]);
      assert SameRest(s[i], s[j]);
    }
  }

  /** A CASCADE's own DELETE addresses only, and when it reads exactly all, the rows that reference a deleted tuple. */
  lemma CascadeSeed(db: Database, c: string, fk: ForeignKey, mask: seq<bool>, x: Row)
    requires WellFormed(db) && c in db && fk in db[c].ForeignKeys() && fk.Action() == Cascade
    requires fk.refTable in db && |mask| == db[fk.refTable].rowCount && Count(mask) > 0
    ensures
      var tuples := Select(KeysOf(db[fk.refTable], fk.refColumns), mask);
      var w := BuildCascadeWhere(fk.columns, tuples);
      && w.Some?
      && (MatchMask(db[c], w).Ok? && x in db[c].Rows() && (c, x) in DeleteSeed(db, c, w) ==>
            Key(db[c].columnNames, x, fk.columns) in tuples)
      && (MatchMask(db[c], w).Ok? && x in db[c].Rows() && ExactFor(db, Seed(fk.refTable, db[fk.refTable], mask)) ==>
            ((c, x) in DeleteSeed(db, c, w) <==> Key(db[c].columnNames, x, fk.columns) in tuples))
      && (KeyNeverFails(db, fk) ==> MatchMask(db[c], w).Ok?)
  {
    var t := db[c];
    var tuples := Select(KeysOf(db[fk.refTable], fk.refColumns), mask);
    CascadeTuples(db, c, fk, mask);
    var w := BuildCascadeWhere(fk.columns, tuples);
    if t.rowCount > 0 {
      CascadeMask(t, fk.columns, tuples);
      if MatchMask(t, w).Ok? && x in t.Rows() {
        CascadeSeedRow(c, t, fk.columns, tuples, x);
      }
    }
  }

  lemma CascadeSeedRow(c: string, t: Table, cols: seq<string>, tuples: seq<seq<u64>>, x: Row)
    requires t.Valid() && t.rowCount > 0 && SameWidth(cols, tuples) && tuples != [] && Resolved(cols, t.columnNames)
    requires BuildCascadeWhere(cols, tuples).Some?
    requires MatchMask(t, BuildCascadeWhere(cols, tuples)).Ok? && x in t.Rows()
    ensures (c, x) in Seed(c, t, MatchMask(t, BuildCascadeWhere(cols, tuples)).value) ==> Key(t.columnNames, x, cols) in tuples
    ensures SameTail(tuples) && Key(t.columnNames, x, cols) in tuples ==>
      (c, x) in Seed(c, t, MatchMask(t, BuildCascadeWhere(cols, tuples)).value)
  {
    var mask := MatchMask(t, BuildCascadeWhere(cols, tuples)).value;
    CascadeMask(t, cols, tuples);
    LeftToRightSound(tuples, Key(t.columnNames, x, cols));
    if SameTail(tuples) { LeftToRightComplete(tuples, Key(t.columnNames, x, cols)); }
    var i :| 0 <= i < t.rowCount && t.Rows()[i] == x;
    if mask[i] {
      assert (c, t.RowAt(i)) in Seed(c, t, mask);
    }
    if (c, x) in Seed(c, t, mask) {
      var j :| 0 <= j < t.rowCount && mask[j] && t.RowAt(j) == x;
    }
  }

  /** Exactly which child rows a cascade addresses: those referencing the last run of the deleted tuples. */
  lemma CascadeSeedExact(db: Database, c: string, fk: ForeignKey, mask: seq<bool>, x: Row)
    requires WellFormed(db) && c in db && fk in db[c].ForeignKeys() && fk.Action() == Cascade
    requires fk.refTable in db && |mask| == db[fk.refTable].rowCount && Count(mask) > 0 && x in db[c].Rows()
    ensures
      var tuples := Select(KeysOf(db[fk.refTable], fk.refColumns), mask);
      var w := BuildCascadeWhere(fk.columns, tuples);
      MatchMask(db[c], w).Ok? ==> ((c, x) in DeleteSeed(db, c, w) <==> Key(db[c].columnNames, x, fk.columns) in LastRun(tuples))
  {
    var t, tuples := db[c], Select(KeysOf(db[fk.refTable], fk.refColumns), mask);
    CascadeTuples(db, c, fk, mask);
    var w := BuildCascadeWhere(fk.columns, tuples);
    if MatchMask(t, w).Ok? {
      CascadeMask(t, fk.columns, tuples);
      LeftToRightIsLastRun(tuples, Key(t.columnNames, x, fk.columns));
      SeedByRow(c, t, fk.columns, tuples, MatchMask(t, w).value, x);
    }
  }

  lemma SeedByRow(c: string, t: Table, cols: seq<string>, tuples: seq<seq<u64>>, mask: seq<bool>, x: Row)
    requires |mask| == t.rowCount && x in t.Rows()
    requires forall i :: 0 <= i < t.rowCount ==> (mask[i] <==> LeftToRight(tuples, Key(t.columnNames, t.RowAt(i), cols)))
    ensures (c, x) in Seed(c, t, mask) <==> LeftToRight(tuples, Key(t.columnNames, x, cols))
  {
    var i :| 0 <= i < t.rowCount && t.Rows()[i] == x;
    if mask[i] { assert (c, t.RowAt(i)) in Seed(c, t, mask); }
    if (c, x) in Seed(c, t, mask) {
      var j :| 0 <= j < t.rowCount && mask[j] && t.RowAt(j) == x;
    }
  }

  // ----- a parent whose cascades reach no further than its children -----

  ghost predicate NoChildren(db: Database, p: string) {
    forall c :: !ChildOf(db, c, p)
  }

  /** A table with a CASCADE key to `p` has no children; RESTRICT children may have any. */
  ghost predicate OneLevel(db: Database, p: string) {
    forall c, fk :: c in db && fk in db[c].ForeignKeys() && fk.refTable == p && fk.Action() == Cascade ==> NoChildren(db, c)
  }

  lemma LeavesPruned(db: Database, db1: Database, d: set<RowId>, p: string)
    requires WellFormed(db) && Pruned(db, db1, d)
    ensures NoChildren(db1, p) == NoChildren(db, p) && OneLevel(db1, p) == OneLevel(db, p)
  {
    PrunedSchema(db, db1, d);
    assert forall c, q :: ChildOf(db1, c, q) == ChildOf(db, c, q);
    assert forall q :: NoChildren(db1, q) == NoChildren(db, q);
    forall c | c in db ensures db1[c].ForeignKeys() == db[c].ForeignKeys() { assert PrunedTable(c, db[c], db1[c], d); }
  }

  /** Rows of a table nobody references are closed and read exactly on their own. */
  lemma LeafExact(db: Database, p: string, seed: set<RowId>)
    requires NoChildren(db, p) && forall id :: id in seed ==> id.0 == p
    ensures ExactFor(db, seed) && LeastClosed(db, seed, seed)
  {
    forall c, fk: ForeignKey, x, y | References(db, c, fk, x, y) ensures fk.refTable != p {
      assert !ChildOf(db, c, p);
    }
    forall c, k | c in db && 0 <= k < |db[c].ForeignKeys()| ensures TailsAgree(db, db[c].ForeignKeys()[k], seed) {
      if db[c].ForeignKeys()[k].refTable == p { assert ChildOf(db, c, p); }
    }
    assert ReadsRight(db, seed, seed);
  }

  /** The child rows one CASCADE key takes for the deleted tuples. */
  ghost function TakenByKey(db: Database, c: string, fk: ForeignKey, tuples: seq<seq<u64>>): set<RowId> {
    if c in db && fk.Action() == Cascade then
      set x | x in db[c].Rows() && Key(db[c].columnNames, x, fk.columns) in LastRun(tuples) :: (c, x)
    else {}
  }

  ghost function TakenByKeys(db: Database, fks: seq<(string, ForeignKey)>, k: nat, parent: Table, mask: seq<bool>): set<RowId>
    requires k <= |fks| && |mask| == parent.rowCount
  {
    if k == 0 then {}
    else
      TakenByKeys(db, fks, k - 1, parent, mask) +
      TakenByKey(db, fks[k - 1].0, fks[k - 1].1, Select(KeysOf(parent, fks[k - 1].1.refColumns), mask))
  }

  /** Taking from what earlier keys left, together with what they took, is taking from the whole. */
  lemma TakenPruned(db: Database, mid: Database, dead: set<RowId>, c: string, fk: ForeignKey, tuples: seq<seq<u64>>)
    requires Pruned(db, mid, dead)
    ensures dead + TakenByKey(mid, c, fk, tuples) == dead + TakenByKey(db, c, fk, tuples)
  {
    if c in db {
      assert PrunedTable(c, db[c], mid[c], dead);
    }
  }

  /** All that the first `k` keys take is gone, and nothing else where no CASCADE goes further. */
  ghost predicate TakenSoFar(db: Database, fks: seq<(string, ForeignKey)>, k: nat, parent: string, mask: seq<bool>, dead: set<RowId>)
    requires k <= |fks| && parent in db && |mask| == db[parent].rowCount
  {
    var taken := TakenByKeys(db, fks, k, db[parent], mask);
    taken <= dead && (OneLevel(db, parent) ==> dead == taken)
  }

  lemma TakenStep(db: Database, mid: Database, now: Database, dead: set<RowId>, more: set<RowId>,
                  fks: seq<(string, ForeignKey)>, k: nat, parent: string, mask: seq<bool>)
    requires WellFormed(db) && parent in db && |mask| == db[parent].rowCount && Pruned(db, mid, dead)
    requires k < |fks| && TakenSoFar(db, fks, k, parent, mask, dead)
    requires fks[k].0 in mid && fks[k].1 in mid[fks[k].0].ForeignKeys() && fks[k].1.refTable == parent
    requires KeyDone(mid, now, more, fks[k].0, fks[k].1, Select(KeysOf(db[parent], fks[k].1.refColumns), mask))
    ensures TakenSoFar(db, fks, k + 1, parent, mask, dead + more)
  {
    LeavesPruned(db, mid, dead, parent);
    assert ChildOf(mid, fks[k].0, parent);
    TakenPruned(db, mid, dead, fks[k].0, fks[k].1, Select(KeysOf(db[parent], fks[k].1.refColumns), mask));
  }

  /** What a cascade into a table without children removes. */
  lemma LeafCascade(mid: Database, more: set<RowId>, child: string, fk: ForeignKey, mask: seq<bool>, where: Option<Condition>)
    requires WellFormed(mid) && NoChildren(mid, child) && child in mid && fk in mid[child].ForeignKeys() && fk.Action() == Cascade
    requires fk.refTable in mid && |mask| == mid[fk.refTable].rowCount && Count(mask) > 0
    requires where == BuildCascadeWhere(fk.columns, Select(KeysOf(mid[fk.refTable], fk.refColumns), mask))
    requires MatchMask(mid[child], where).Ok? && LeastClosed(mid, DeleteSeed(mid, child, where), more)
    ensures more == TakenByKey(mid, child, fk, Select(KeysOf(mid[fk.refTable], fk.refColumns), mask))
  {
    var seed := DeleteSeed(mid, child, where);
    var taken := TakenByKey(mid, child, fk, Select(KeysOf(mid[fk.refTable], fk.refColumns), mask));
    LeafExact(mid, child, seed);
    LeastClosedUnique(mid, seed, seed, more);
    forall x | x in mid[child].Rows() ensures (child, x) in seed <==> (child, x) in taken {
      CascadeSeedExact(mid, child, fk, mask, x);
    }
    SeedRows(child, mid[child], MatchMask(mid[child], where).value);
    assert seed == taken;
  }

  lemma SeedRows(name: string, t: Table, mask: seq<bool>)
    requires |mask| == t.rowCount
    ensures forall id :: id in Seed(name, t, mask) ==> id.0 == name && id.1 in t.Rows()
  {
    forall id | id in Seed(name, t, mask) ensures id.0 == name && id.1 in t.Rows() {
      var i :| 0 <= i < t.rowCount && mask[i] && id == (name, t.RowAt(i));
      assert t.Rows()[i] == id.1;
    }
  }

  /** Some CASCADE key of its table takes the row. */
  ghost predicate CascadeTakes(db: Database, name: string, mask: seq<bool>, id: RowId)
    requires name in db && |mask| == db[name].rowCount
  {
    exists fk :: KeyTakes(db, name, mask, id, fk)
  }

  ghost predicate KeyTakes(db: Database, name: string, mask: seq<bool>, id: RowId, fk: ForeignKey)
    requires name in db && |mask| == db[name].rowCount
  {
    && id.0 in db && fk in db[id.0].ForeignKeys() && fk.refTable == name
    && id in TakenByKey(db, id.0, fk, Select(KeysOf(db[name], fk.refColumns), mask))
  }

  /** What a DELETE removes by itself: the addressed rows, and of the children the rows of the last runs. */
  ghost function DirectDead(db: Database, name: string, mask: seq<bool>): set<RowId>
    requires name in db && |mask| == db[name].rowCount
  {
    Seed(name, db[name], mask) + set id | id in AllRows(db) && CascadeTakes(db, name, mask, id)
  }

  lemma DirectDeadMember(db: Database, name: string, mask: seq<bool>, id: RowId)
    requires name in db && |mask| == db[name].rowCount
    ensures id in DirectDead(db, name, mask) <==> id in Seed(name, db[name], mask) || CascadeTakes(db, name, mask, id)
  {
    if CascadeTakes(db, name, mask, id) {
      assert id.1 in db[id.0].Rows();
      assert id == (id.0, id.1);
    }
  }

  ghost predicate TakenAt(db: Database, fks: seq<(string, ForeignKey)>, j: int, parent: Table, mask: seq<bool>, id: RowId)
    requires |mask| == parent.rowCount
  {
    0 <= j < |fks| && id in TakenByKey(db, fks[j].0, fks[j].1, Select(KeysOf(parent, fks[j].1.refColumns), mask))
  }

  lemma {:induction false} TakenByKeysMember(db: Database, fks: seq<(string, ForeignKey)>, k: nat, parent: Table, mask: seq<bool>, id: RowId)
    requires k <= |fks| && |mask| == parent.rowCount
    ensures id in TakenByKeys(db, fks, k, parent, mask) <==>
      exists j :: j < k && TakenAt(db, fks, j, parent, mask, id)
  {
    if k > 0 {
      TakenByKeysMember(db, fks, k - 1, parent, mask, id);
      assert TakenAt(db, fks, k - 1, parent, mask, id) <==>
        id in TakenByKey(db, fks[k - 1].0, fks[k - 1].1, Select(KeysOf(parent, fks[k - 1].1.refColumns), mask));
    }
  }

  lemma DirectDeadIsTaken(db: Database, fks: seq<(string, ForeignKey)>, name: string, mask: seq<bool>)
    requires name in db && |mask| == db[name].rowCount && !ChildOf(db, name, name)
    requires forall c, fk :: (c, fk) in fks <==> c in db && c != name && fk in db[c].ForeignKeys() && fk.refTable == name
    ensures TakenByKeys(db, fks, |fks|, db[name], mask) + Seed(name, db[name], mask) == DirectDead(db, name, mask)
  {
    var taken, dead := TakenByKeys(db, fks, |fks|, db[name], mask), DirectDead(db, name, mask);
    forall id ensures id in taken + Seed(name, db[name], mask) <==> id in dead {
      DirectDeadMember(db, name, mask, id);
      TakenIsCascade(db, fks, name, mask, id);
    }
  }

  lemma TakenIsCascade(db: Database, fks: seq<(string, ForeignKey)>, name: string, mask: seq<bool>, id: RowId)
    requires name in db && |mask| == db[name].rowCount && !ChildOf(db, name, name)
    requires forall c, fk :: (c, fk) in fks <==> c in db && c != name && fk in db[c].ForeignKeys() && fk.refTable == name
    ensures id in TakenByKeys(db, fks, |fks|, db[name], mask) <==> CascadeTakes(db, name, mask, id)
  {
    TakenByKeysMember(db, fks, |fks|, db[name], mask, id);
    if id in TakenByKeys(db, fks, |fks|, db[name], mask) {
      var j :| j < |fks| && TakenAt(db, fks, j, db[name], mask, id);
      assert (fks[j].0, fks[j].1) in fks;
      assert KeyTakes(db, name, mask, id, fks[j].1);
    }
    if CascadeTakes(db, name, mask, id) {
      var fk :| KeyTakes(db, name, mask, id, fk);
      ListedKeyTakes(db, fks, name, mask, id, fk);
    }
  }

  lemma ListedKeyTakes(db: Database, fks: seq<(string, ForeignKey)>, name: string, mask: seq<bool>, id: RowId, fk: ForeignKey)
    requires name in db && |mask| == db[name].rowCount && !ChildOf(db, name, name)
    requires forall c, fk :: (c, fk) in fks <==> c in db && c != name && fk in db[c].ForeignKeys() && fk.refTable == name
    requires KeyTakes(db, name, mask, id, fk)
    ensures id in TakenByKeys(db, fks, |fks|, db[name], mask)
  {
    TakenByKeysMember(db, fks, |fks|, db[name], mask, id);
    assert ChildOf(db, id.0, name);
    assert (id.0, fk) in fks;
    var j :| 0 <= j < |fks| && fks[j] == (id.0, fk);
    assert TakenAt(db, fks, j, db[name], mask, id);
  }

  /** Where what the children lose is closed at every moment: cascades read exactly, or none goes further. */
  ghost predicate Closes(db: Database, parent: string, mask: seq<bool>)
    requires parent in db && |mask| == db[parent].rowCount
  {
    ExactFor(db, Seed(parent, db[parent], mask)) || OneLevel(db, parent)
  }

  /** An empty mask takes nothing. */
  lemma NothingTaken(db: Database, name: string, mask: seq<bool>)
    requires name in db && |mask| == db[name].rowCount && forall i :: 0 <= i < |mask| ==> !mask[i]
    ensures DirectDead(db, name, mask) == {}
  {
    forall id ensures id !in DirectDead(db, name, mask) {
      DirectDeadMember(db, name, mask, id);
      forall fk: ForeignKey ensures Select(KeysOf(db[name], fk.refColumns), mask) == [] {
        SelectNone(KeysOf(db[name], fk.refColumns), mask);
      }
    }
  }

  /** Some row the mask spares carries the key. */
  ghost predicate SparedKey(t: Table, mask: seq<bool>, cols: seq<string>, key: seq<u64>)
    requires |mask| == t.rowCount
  {
    exists i :: 0 <= i < t.rowCount && !mask[i] && KeysOf(t, cols)[i] == key
  }

  /** A child row that references a deleted tuple is taken by some CASCADE key, or a spared row has the same key. */
  ghost predicate ReferrerSafe(db: Database, name: string, mask: seq<bool>, c: string, fk: ForeignKey, x: Row)
    requires name in db && |mask| == db[name].rowCount && c in db
  {
    var key := Key(db[c].columnNames, x, fk.columns);
    key in Select(KeysOf(db[name], fk.refColumns), mask) ==>
      CascadeTakes(db, name, mask, (c, x)) || SparedKey(db[name], mask, fk.refColumns, key)
  }

  ghost predicate LeafSafe(db: Database, name: string, mask: seq<bool>)
    requires name in db && |mask| == db[name].rowCount
  {
    forall c, fk, x :: c in db && fk in db[c].ForeignKeys() && fk.refTable == name && x in db[c].Rows() ==>
      ReferrerSafe(db, name, mask, c, fk, x)
  }

  lemma SparedRow(name: string, t: Table, mask: seq<bool>, y: Row)
    requires ByValue(t, mask)
    ensures y in t.Rows() && (name, y) !in Seed(name, t, mask) <==> exists i :: 0 <= i < t.rowCount && !mask[i] && t.RowAt(i) == y
  {
    if i :| 0 <= i < t.rowCount && t.Rows()[i] == y && !mask[i] {
      assert t.RowAt(i) == y && t.Rows()[i] in t.Rows();
    }
    if y in t.Rows() && (name, y) !in Seed(name, t, mask) {
      var i :| 0 <= i < t.rowCount && t.Rows()[i] == y;
      assert t.RowAt(i) == y;
    }
  }

  /** A row of a table that no key of its own ties to `name` goes only as an addressed row. */
  lemma NotTaken(db: Database, name: string, mask: seq<bool>, p: string, y: Row)
    requires name in db && |mask| == db[name].rowCount && !ChildOf(db, p, name)
    ensures (p, y) in DirectDead(db, name, mask) <==> (p, y) in Seed(name, db[name], mask)
  {
    DirectDeadMember(db, name, mask, (p, y));
  }

  /** No CASCADE key takes rows of a table that others reference. */
  lemma ParentNotTaken(db: Database, name: string, mask: seq<bool>, c: string, p: string, y: Row)
    requires name in db && |mask| == db[name].rowCount && OneLevel(db, name) && p != name && ChildOf(db, c, p)
    ensures (p, y) !in DirectDead(db, name, mask)
  {
    DirectDeadMember(db, name, mask, (p, y));
    SeedRows(name, db[name], mask);
    assert !NoChildren(db, p);
    forall fk ensures !KeyTakes(db, name, mask, (p, y), fk) { }
  }

  lemma LeafSafeParent(db: Database, name: string, mask: seq<bool>, db1: Database, c: string, fk: ForeignKey, x: Row, y: Row)
    requires name in db && ByValue(db[name], mask) && !ChildOf(db, name, name) && OneLevel(db, name)
    requires Pruned(db, db1, DirectDead(db, name, mask)) && References(db, c, fk, x, y) && (c, x) !in DirectDead(db, name, mask)
    requires fk.refTable == name ==> ReferrerSafe(db, name, mask, c, fk, x)
    ensures HasParent(db1, c, fk, x)
  {
    var dead := DirectDead(db, name, mask);
    var z := y;
    if fk.refTable == name {
      if (name, y) in Seed(name, db[name], mask) {
        SeedRow(name, db[name], mask, fk.refColumns, y);
        DirectDeadMember(db, name, mask, (c, x));
        var i :| 0 <= i < db[name].rowCount && !mask[i] && KeysOf(db[name], fk.refColumns)[i] == Key(db[c].columnNames, x, fk.columns);
        z := db[name].RowAt(i);
        SparedRow(name, db[name], mask, z);
      }
      NotTaken(db, name, mask, name, z);
    } else {
      ParentNotTaken(db, name, mask, c, fk.refTable, z);
    }
    PrunedReferences(db, db1, dead, c, fk, x, z);
  }

  lemma LeafSafeNeeded(db: Database, name: string, mask: seq<bool>, db1: Database, c: string, fk: ForeignKey, x: Row)
    requires name in db && ByValue(db[name], mask) && !ChildOf(db, name, name)
    requires Pruned(db, db1, DirectDead(db, name, mask)) && Integrity(db1)
    requires c in db && fk in db[c].ForeignKeys() && fk.refTable == name && x in db[c].Rows()
    ensures ReferrerSafe(db, name, mask, c, fk, x)
  {
    var dead := DirectDead(db, name, mask);
    if !CascadeTakes(db, name, mask, (c, x)) {
      assert ChildOf(db, c, name);
      SeedRows(name, db[name], mask);
      DirectDeadMember(db, name, mask, (c, x));
      PrunedRow(db, db1, dead, c, x);
      assert PrunedTable(c, db[c], db1[c], dead);
      assert HasParent(db1, c, fk, x);
      var y :| References(db1, c, fk, x, y);
      PrunedReferences(db, db1, dead, c, fk, x, y);
      NotTaken(db, name, mask, name, y);
      SparedRow(name, db[name], mask, y);
    }
  }

  /**
   A DELETE whose cascades go no further than one level keeps integrity iff every child row that
   references a deleted tuple is taken by a CASCADE key of its table, which takes the last run of the
   deleted tuples only, or finds its key in a row the DELETE spares.
  */
  lemma LeafIntegrityIff(db: Database, name: string, mask: seq<bool>, db1: Database)
    requires Integrity(db) && name in db && ByValue(db[name], mask) && !ChildOf(db, name, name) && OneLevel(db, name)
    requires Pruned(db, db1, DirectDead(db, name, mask))
    ensures Integrity(db1) <==> LeafSafe(db, name, mask)
  {
    var dead := DirectDead(db, name, mask);
    if LeafSafe(db, name, mask) {
      forall c, fk, x | c in db1 && fk in db1[c].ForeignKeys() && x in db1[c].Rows() ensures HasParent(db1, c, fk, x) {
        assert PrunedTable(c, db[c], db1[c], dead);
        PrunedRow(db, db1, dead, c, x);
        assert HasParent(db, c, fk, x);
        var y :| References(db, c, fk, x, y);
        LeafSafeParent(db, name, mask, db1, c, fk, x, y);
      }
    }
    if Integrity(db1) {
      forall c, fk, x | c in db && fk in db[c].ForeignKeys() && fk.refTable == name && x in db[c].Rows()
        ensures ReferrerSafe(db, name, mask, c, fk, x)
      {
        LeafSafeNeeded(db, name, mask, db1, c, fk, x);
      }
    }
  }

  /** Half-way through the foreign keys of `parent`: what has been removed from `db` so far. */
  ghost predicate Enforcing(db: Database, now: Database, dead: set<RowId>, parent: string, mask: seq<bool>,
                            rank: map<string, nat>)
  {
    && Ready(db, rank) && Ready(now, rank) && Pruned(db, now, dead)
    && parent in db && |mask| == db[parent].rowCount && Count(mask) > 0
    && (Closes(db, parent, mask) ==> Closed(db, dead))
    && BelowClosed(db, Seed(parent, db[parent], mask), dead)
    && (forall id :: id in dead ==> id.0 in rank && rank[id.0] < rank[parent])
    && (forall u :: u in now && rank[u] >= rank[parent] ==> now[u] == db[u])
  }

  lemma EnforcingNothing(db: Database, parent: string, mask: seq<bool>, rank: map<string, nat>)
    requires Ready(db, rank) && parent in db && |mask| == db[parent].rowCount && Count(mask) > 0
    ensures Enforcing(db, db, {}, parent, mask, rank)
  {
    PrunedNothing(db);
  }

  /** The keys of a child are still those of the first catalog, and still cannot fail where no key could. */
  lemma SameKeys(db: Database, mid: Database, dead: set<RowId>, child: string, fk: ForeignKey)
    requires Pruned(db, mid, dead) && child in db && fk in db[child].ForeignKeys()
    ensures child in mid && fk in mid[child].ForeignKeys()
    ensures NeverFails(db) ==> KeyNeverFails(mid, fk) && NeverFails(mid)
  {
    assert PrunedTable(child, db[child], mid[child], dead);
    if NeverFails(db) { StillNeverFails(db, mid, dead, child, fk); }
  }

  /** No row anywhere references a row of `parent` that the mask addresses. */
  ghost predicate AllClear(db: Database, parent: string, mask: seq<bool>)
    requires parent in db && |mask| == db[parent].rowCount
  {
    forall c, fk :: c in db && fk in db[c].ForeignKeys() && fk.refTable == parent ==>
      NoReferrer(db, c, fk, Select(KeysOf(db[parent], fk.refColumns), mask))
  }

  /** The first `k` child keys have been dealt with. */
  ghost predicate Cleared(db: Database, fks: seq<(string, ForeignKey)>, k: nat, parent: Table, mask: seq<bool>)
    requires k <= |fks| && |mask| == parent.rowCount
  {
    forall j :: 0 <= j < k ==> NoReferrer(db, fks[j].0, fks[j].1, Select(KeysOf(parent, fks[j].1.refColumns), mask))
  }

  lemma ClearedStep(db: Database, db1: Database, d: set<RowId>, fks: seq<(string, ForeignKey)>, k: nat,
                    parent: Table, mask: seq<bool>)
    requires k < |fks| && |mask| == parent.rowCount && Pruned(db, db1, d) && Cleared(db, fks, k, parent, mask)
    requires NoReferrer(db1, fks[k].0, fks[k].1, Select(KeysOf(parent, fks[k].1.refColumns), mask))
    ensures Cleared(db1, fks, k + 1, parent, mask)
  {
    forall j | 0 <= j < k ensures NoReferrer(db1, fks[j].0, fks[j].1, Select(KeysOf(parent, fks[j].1.refColumns), mask)) {
      NoReferrerPruned(db, db1, d, fks[j].0, fks[j].1, Select(KeysOf(parent, fks[j].1.refColumns), mask));
    }
  }

  lemma ClearedAll(db: Database, now: Database, dead: set<RowId>, fks: seq<(string, ForeignKey)>, parent: string,
                   mask: seq<bool>, rank: map<string, nat>)
    requires Enforcing(db, now, dead, parent, mask, rank)
    requires forall c, fk :: c in db && c != parent && fk in db[c].ForeignKeys() && fk.refTable == parent ==> (c, fk) in fks
    requires Cleared(now, fks, |fks|, db[parent], mask)
    ensures now[parent] == db[parent] && AllClear(now, parent, mask)
  {
    forall c, fk | c in now && fk in now[c].ForeignKeys() && fk.refTable == parent
      ensures NoReferrer(now, c, fk, Select(KeysOf(now[parent], fk.refColumns), mask))
    {
      assert PrunedTable(c, db[c], now[c], dead);
      assert ChildOf(now, c, parent);
      assert (c, fk) in fks;
      var j :| 0 <= j < |fks| && fks[j] == (c, fk);
      assert NoReferrer(now, fks[j].0, fks[j].1, Select(KeysOf(db[parent], fks[j].1.refColumns), mask));
    }
  }

  lemma StillNeverFails(db: Database, now: Database, dead: set<RowId>, child: string, fk: ForeignKey)
    requires Pruned(db, now, dead) && child in db && fk in db[child].ForeignKeys() && NeverFails(db)
    ensures NeverFails(now) && KeyNeverFails(now, fk)
  {
    NeverFailsPruned(db, now, dead);
    assert PrunedTable(child, db[child], now[child], dead);
    var i :| 0 <= i < |now[child].ForeignKeys()| && now[child].ForeignKeys()[i] == fk;
  }

  /** Folding one cascade into the rows removed so far. */
  lemma CascadeStep(db: Database, mid: Database, now: Database, dead: set<RowId>, more: set<RowId>,
                    parent: string, child: string, fk: ForeignKey, mask: seq<bool>, where: Option<Condition>)
    requires parent in db && |mask| == db[parent].rowCount && Count(mask) > 0
    requires WellFormed(db) && Pruned(db, mid, dead) && (Closes(db, parent, mask) ==> Closed(db, dead))
    requires BelowClosed(db, Seed(parent, db[parent], mask), dead)
    requires WellFormed(mid) && parent in mid && mid[parent] == db[parent]
    requires child in mid && fk in mid[child].ForeignKeys() && fk.refTable == parent && fk.Action() == Cascade
    requires where == BuildCascadeWhere(fk.columns, Select(KeysOf(mid[parent], fk.refColumns), mask))
    requires Pruned(mid, now, more) && (ExactFor(mid, DeleteSeed(mid, child, where)) ==> Closed(mid, more))
    requires BelowClosed(mid, DeleteSeed(mid, child, where), more)
    ensures Pruned(db, now, dead + more) && (Closes(db, parent, mask) ==> Closed(db, dead + more))
    ensures BelowClosed(db, Seed(parent, db[parent], mask), dead + more)
  {
    PrunedTwice(db, mid, now, dead, more);
    if Closes(db, parent, mask) {
      CascadeExactBelow(db, mid, dead, parent, child, fk, mask, where);
      ClosedUnion(db, mid, dead, more);
    }
    forall s: set<RowId> | Seed(parent, db[parent], mask) <= s && Closed(db, s) ensures dead + more <= s {
      ClosedPruned(db, mid, dead, s);
      CascadeInside(mid, parent, child, fk, mask, where, s);
    }
  }

  /** The same at the level of the whole walk over the keys. */
  lemma CascadeEnforces(db: Database, mid: Database, now: Database, dead: set<RowId>, more: set<RowId>, parent: string, child: string,
                        fk: ForeignKey, mask: seq<bool>, where: Option<Condition>, rank: map<string, nat>)
    requires Enforcing(db, mid, dead, parent, mask, rank)
    requires child in mid && fk in mid[child].ForeignKeys() && fk.refTable == parent && fk.Action() == Cascade
    requires where == BuildCascadeWhere(fk.columns, Select(KeysOf(mid[parent], fk.refColumns), mask))
    requires Pruned(mid, now, more) && (ExactFor(mid, DeleteSeed(mid, child, where)) ==> Closed(mid, more))
    requires BelowClosed(mid, DeleteSeed(mid, child, where), more) && child in rank && rank[child] < rank[parent]
    requires forall id :: id in more ==> id.0 == child || (id.0 in rank && rank[id.0] < rank[child])
    requires forall u :: u in now && u != child && rank[u] >= rank[child] ==> now[u] == mid[u]
    ensures Enforcing(db, now, dead + more, parent, mask, rank)
  {
    CascadeStep(db, mid, now, dead, more, parent, child, fk, mask, where);
    ReadyPruned(mid, now, more, rank);
  }

  lemma CascadeExactBelow(db: Database, mid: Database, dead: set<RowId>, parent: string, child: string, fk: ForeignKey,
                          mask: seq<bool>, where: Option<Condition>)
    requires parent in db && |mask| == db[parent].rowCount && Count(mask) > 0
    requires WellFormed(db) && Pruned(db, mid, dead) && Closes(db, parent, mask)
    requires WellFormed(mid) && parent in mid && mid[parent] == db[parent]
    requires child in mid && fk in mid[child].ForeignKeys() && fk.refTable == parent && fk.Action() == Cascade
    requires where == BuildCascadeWhere(fk.columns, Select(KeysOf(mid[parent], fk.refColumns), mask))
    ensures ExactFor(mid, DeleteSeed(mid, child, where))
  {
    if ExactFor(db, Seed(parent, db[parent], mask)) {
      StillExact(db, mid, dead, parent, child, fk, mask, where);
    } else {
      LeavesPruned(db, mid, dead, parent);
      assert ChildOf(mid, child, parent);
      if MatchMask(mid[child], where).Ok? { SeedRows(child, mid[child], MatchMask(mid[child], where).value); }
      LeafExact(mid, child, DeleteSeed(mid, child, where));
    }
  }

  /** The rows a cascade addresses lie in every closed set that holds the deleted parent rows. */
  lemma CascadeInside(mid: Database, parent: string, child: string, fk: ForeignKey, mask: seq<bool>,
                      where: Option<Condition>, s: set<RowId>)
    requires WellFormed(mid) && parent in mid && |mask| == mid[parent].rowCount && Count(mask) > 0
    requires child in mid && fk in mid[child].ForeignKeys() && fk.refTable == parent && fk.Action() == Cascade
    requires where == BuildCascadeWhere(fk.columns, Select(KeysOf(mid[parent], fk.refColumns), mask))
    requires Closed(mid, s) && Seed(parent, mid[parent], mask) <= s
    ensures DeleteSeed(mid, child, where) <= s
  {
    forall id | id in DeleteSeed(mid, child, where) ensures id in s {
      var x := id.1;
      var i :| 0 <= i < mid[child].rowCount && MatchMask(mid[child], where).value[i] && x == mid[child].RowAt(i);
      assert mid[child].Rows()[i] == x;
      CascadeSeed(mid, child, fk, mask, x);
      var y := SeedKey(parent, mid[parent], mask, fk.refColumns, Key(mid[child].columnNames, x, fk.columns));
      assert References(mid, child, fk, x, y);
    }
  }

  /** A DELETE that reads exactly hands on that property to the cascades it starts. */
  lemma StillExact(db: Database, mid: Database, dead: set<RowId>, parent: string, child: string, fk: ForeignKey,
                   mask: seq<bool>, where: Option<Condition>)
    requires parent in db && |mask| == db[parent].rowCount && Count(mask) > 0
    requires Pruned(db, mid, dead) && ExactFor(db, Seed(parent, db[parent], mask))
    requires WellFormed(mid) && parent in mid && mid[parent] == db[parent]
    requires child in mid && fk in mid[child].ForeignKeys() && fk.refTable == parent && fk.Action() == Cascade
    requires where == BuildCascadeWhere(fk.columns, Select(KeysOf(mid[parent], fk.refColumns), mask))
    ensures ExactFor(mid, Seed(parent, mid[parent], mask)) && ExactFor(mid, DeleteSeed(mid, child, where))
  {
    var seed := Seed(parent, db[parent], mask);
    var top :| ReadsRight(db, seed, top);
    ClosedPruned(db, mid, dead, top);
    PrunedExact(db, mid, dead, top);
    CascadeInside(mid, parent, child, fk, mask, where, top);
    assert ReadsRight(mid, seed, top) && ReadsRight(mid, DeleteSeed(mid, child, where), top);
  }

  /** After a successful cascade no child row references a deleted tuple. */
  lemma CascadeClears(mid: Database, now: Database, more: set<RowId>, child: string, fk: ForeignKey,
                      mask: seq<bool>, where: Option<Condition>)
    requires WellFormed(mid) && child in mid && fk in mid[child].ForeignKeys() && fk.Action() == Cascade
    requires fk.refTable in mid && |mask| == mid[fk.refTable].rowCount && Count(mask) > 0
    requires ExactFor(mid, Seed(fk.refTable, mid[fk.refTable], mask))
    requires where == BuildCascadeWhere(fk.columns, Select(KeysOf(mid[fk.refTable], fk.refColumns), mask))
    requires Pruned(mid, now, more) && MatchMask(mid[child], where).Ok? && DeleteSeed(mid, child, where) <= more
    ensures NoReferrer(now, child, fk, Select(KeysOf(mid[fk.refTable], fk.refColumns), mask))
  {
    assert PrunedTable(child, mid[child], now[child], more);
    forall x | x in now[child].Rows()
      ensures Key(now[child].columnNames, x, fk.columns) !in Select(KeysOf(mid[fk.refTable], fk.refColumns), mask)
    {
      PrunedRow(mid, now, more, child, x);
      CascadeSeed(mid, child, fk, mask, x);
    }
  }

  /** Every child row that references a deleted tuple references the last run of them. */
  ghost predicate AllInLastRun(t: Table, cols: seq<string>, tuples: seq<seq<u64>>) {
    forall x :: x in t.Rows() && Key(t.columnNames, x, cols) in tuples ==> Key(t.columnNames, x, cols) in LastRun(tuples)
  }

  /** After a successful cascade no child row references a deleted tuple iff all that did referenced the last run. */
  lemma CascadeClearsIff(mid: Database, now: Database, child: string, fk: ForeignKey, mask: seq<bool>, where: Option<Condition>)
    requires WellFormed(mid) && child in mid && child in now && fk in mid[child].ForeignKeys() && fk.Action() == Cascade
    requires fk.refTable in mid && |mask| == mid[fk.refTable].rowCount && Count(mask) > 0
    requires where == BuildCascadeWhere(fk.columns, Select(KeysOf(mid[fk.refTable], fk.refColumns), mask))
    requires MatchMask(mid[child], where).Ok? && now[child].columnNames == mid[child].columnNames
    requires now[child].Rows() == Keep(mid[child].Rows(), child, DeleteSeed(mid, child, where))
    ensures
      var tuples := Select(KeysOf(mid[fk.refTable], fk.refColumns), mask);
      NoReferrer(now, child, fk, tuples) <==> AllInLastRun(mid[child], fk.columns, tuples)
  {
    var tuples := Select(KeysOf(mid[fk.refTable], fk.refColumns), mask);
    forall x | x in mid[child].Rows()
      ensures x in now[child].Rows() <==> Key(mid[child].columnNames, x, fk.columns) !in LastRun(tuples)
    {
      CascadeSeedExact(mid, child, fk, mask, x);
    }
    forall key | key in LastRun(tuples) ensures key in tuples { LastRunInTuples(tuples, key); }
  }

  lemma LastRunGoes(mid: Database, now: Database, more: set<RowId>, child: string, fk: ForeignKey, mask: seq<bool>,
                    where: Option<Condition>)
    requires WellFormed(mid) && child in mid && fk in mid[child].ForeignKeys() && fk.Action() == Cascade && Pruned(mid, now, more)
    requires fk.refTable in mid && |mask| == mid[fk.refTable].rowCount && Count(mask) > 0
    requires where == BuildCascadeWhere(fk.columns, Select(KeysOf(mid[fk.refTable], fk.refColumns), mask))
    requires MatchMask(mid[child], where).Ok? && now[child].Rows() == Keep(mid[child].Rows(), child, DeleteSeed(mid, child, where))
    ensures TakenByKey(mid, child, fk, Select(KeysOf(mid[fk.refTable], fk.refColumns), mask)) <= more
  {
    var tuples := Select(KeysOf(mid[fk.refTable], fk.refColumns), mask);
    forall x | x in mid[child].Rows() && Key(mid[child].columnNames, x, fk.columns) in LastRun(tuples) ensures (child, x) in more {
      CascadeSeedExact(mid, child, fk, mask, x);
      PrunedRow(mid, now, more, child, x);
    }
  }

  /**
   One key is done with. A RESTRICT leaves no row that references a deleted tuple; a CASCADE leaves
   none iff every such row referenced the last run of the tuples. It takes all that do, and only
   those where the child has no children.
  */
  ghost predicate KeyDone(mid: Database, now: Database, more: set<RowId>, child: string, fk: ForeignKey, tuples: seq<seq<u64>>) {
    && child in mid && child in now
    && (NoReferrer(now, child, fk, tuples) <==> (fk.Action() == Cascade ==> AllInLastRun(mid[child], fk.columns, tuples)))
    && TakenByKey(mid, child, fk, tuples) <= more
    && ((fk.Action() == Cascade ==> NoChildren(mid, child)) ==> more == TakenByKey(mid, child, fk, tuples))
  }

  /** What a successful cascade through one key leaves and takes. */
  lemma CascadeDone(db: Database, mid: Database, now: Database, dead: set<RowId>, more: set<RowId>, parent: string, child: string,
                    fk: ForeignKey, mask: seq<bool>, where: Option<Condition>)
    requires parent in db && |mask| == db[parent].rowCount && Count(mask) > 0
    requires WellFormed(db) && Pruned(db, mid, dead) && (Closes(db, parent, mask) ==> Closed(db, dead))
    requires WellFormed(mid) && parent in mid && mid[parent] == db[parent]
    requires child in mid && fk in mid[child].ForeignKeys() && fk.refTable == parent && fk.Action() == Cascade
    requires where == BuildCascadeWhere(fk.columns, Select(KeysOf(mid[parent], fk.refColumns), mask))
    requires MatchMask(mid[child], where).Ok? && Pruned(mid, now, more)
    requires now[child].Rows() == Keep(mid[child].Rows(), child, DeleteSeed(mid, child, where))
    requires ExactFor(mid, DeleteSeed(mid, child, where)) ==> LeastClosed(mid, DeleteSeed(mid, child, where), more)
    ensures
      var tuples := Select(KeysOf(db[parent], fk.refColumns), mask);
      && KeyDone(mid, now, more, child, fk, tuples)
      && (ExactFor(db, Seed(parent, db[parent], mask)) ==> NoReferrer(now, child, fk, tuples))
  {
    assert PrunedTable(child, mid[child], now[child], more);
    CascadeClearsIff(mid, now, child, fk, mask, where);
    LastRunGoes(mid, now, more, child, fk, mask, where);
    if ExactFor(db, Seed(parent, db[parent], mask)) {
      StillExact(db, mid, dead, parent, child, fk, mask, where);
      CascadeClears(mid, now, more, child, fk, mask, where);
    }
    if NoChildren(mid, child) {
      SeedRows(child, mid[child], MatchMask(mid[child], where).value);
      LeafExact(mid, child, DeleteSeed(mid, child, where));
      LeafCascade(mid, more, child, fk, mask, where);
    }
  }

  /** Compacting the addressed table after its children are clear completes the least closed set. */
  lemma DeleteCompletes(db: Database, mid: Database, now: Database, dead: set<RowId>, name: string, mask: seq<bool>)
    requires name in db && |mask| == db[name].rowCount && Pruned(db, mid, dead)
    requires BelowClosed(db, Seed(name, db[name], mask), dead)
    requires mid[name] == db[name] && name in now
    requires forall t :: t in mid ==> mid[t].Valid()
    requires now == mid[name := now[name]]
    requires now[name].Valid() && now[name].columnNames == mid[name].columnNames && now[name].schema == mid[name].schema
    requires now[name].Rows() == Keep(mid[name].Rows(), name, Seed(name, mid[name], mask))
    ensures Pruned(db, now, dead + Seed(name, db[name], mask))
    ensures BelowClosed(db, Seed(name, db[name], mask), dead + Seed(name, db[name], mask))
    ensures Closed(db, dead) && AllClear(mid, name, mask) ==>
      LeastClosed(db, Seed(name, db[name], mask), dead + Seed(name, db[name], mask))
  {
    var seed := Seed(name, db[name], mask);
    PrunedLast(mid, now, name, seed);
    PrunedTwice(db, mid, now, dead, seed);
    if Closed(db, dead) && AllClear(mid, name, mask) { ClosedLast(db, mid, dead, name, mask); }
    BelowLast(db, seed, dead);
  }

  /** What a DELETE with a non-empty mask leaves behind, whether it succeeds or is stopped by a child. */
  ghost predicate Outcome(db: Database, now: Database, dead: set<RowId>, name: string, mask: seq<bool>,
                          rank: map<string, nat>, ok: bool)
    requires name in db && |mask| == db[name].rowCount
  {
    var seed := Seed(name, db[name], mask);
    && name in now && Ranked(db, rank) && name in rank
    && Pruned(db, now, dead) && BelowClosed(db, seed, dead)
    && (ExactFor(db, seed) && ok ==> LeastClosed(db, seed, dead))
    && (Closes(db, name, mask) && !ok ==> Closed(db, dead))
    && (ok ==> DirectDead(db, name, mask) <= dead && (OneLevel(db, name) ==> dead == DirectDead(db, name, mask)))
    && (if ok then now[name].Rows() == Keep(db[name].Rows(), name, seed) else now[name] == db[name])
    && (forall id :: id in dead ==> id.0 == name || (id.0 in rank && rank[id.0] < rank[name]))
    && (forall u :: u in now && u in rank && u != name && rank[u] >= rank[name] ==> now[u] == db[u])
  }

  lemma AfterRefusal(db: Database, mid: Database, dead: set<RowId>, name: string, mask: seq<bool>, rank: map<string, nat>)
    requires Ready(db, rank) && Enforcing(db, mid, dead, name, mask, rank)
    ensures Outcome(db, mid, dead, name, mask, rank, false)
  {
  }

  lemma CompactionFrame(db: Database, mid: Database, now: Database, dead: set<RowId>, name: string, mask: seq<bool>,
                        rank: map<string, nat>)
    requires Enforcing(db, mid, dead, name, mask, rank) && name in now && now == mid[name := now[name]]
    ensures forall id :: id in dead + Seed(name, db[name], mask) ==> id.0 == name || (id.0 in rank && rank[id.0] < rank[name])
    ensures forall u :: u in now && u in rank && u != name && rank[u] >= rank[name] ==> now[u] == db[u]
  {
    SeedRows(name, db[name], mask);
  }

  /** What a DELETE has done once the addressed table is compacted. */
  lemma AfterCompaction(db: Database, mid: Database, now: Database, dead: set<RowId>, name: string, mask: seq<bool>,
                        rank: map<string, nat>)
    requires Ready(db, rank) && Enforcing(db, mid, dead, name, mask, rank) && ByValue(mid[name], mask)
    requires ExactFor(db, Seed(name, db[name], mask)) ==> AllClear(mid, name, mask)
    requires DirectDead(db, name, mask) <= dead + Seed(name, db[name], mask)
    requires OneLevel(db, name) ==> dead + Seed(name, db[name], mask) == DirectDead(db, name, mask)
    requires name in now && now == mid[name := now[name]]
    requires now[name].Valid() && now[name].columnNames == mid[name].columnNames && now[name].schema == mid[name].schema
    requires now[name].Rows() == Select(mid[name].Rows(), Negated(mask))
    ensures Outcome(db, now, dead + Seed(name, db[name], mask), name, mask, rank, true)
  {
    SelectIsKeep(name, mid[name], mask);
    assert mid[name] == db[name];
    CompactionFrame(db, mid, now, dead, name, mask, rank);
    DeleteCompletes(db, mid, now, dead, name, mask);
  }

  lemma PrunedLast(mid: Database, now: Database, name: string, seed: set<RowId>)
    requires name in mid && name in now && now == mid[name := now[name]]
    requires forall t :: t in mid ==> mid[t].Valid()
    requires forall id :: id in seed ==> id.0 == name
    requires PrunedTable(name, mid[name], now[name], seed)
    ensures Pruned(mid, now, seed)
  {
    forall t | t in mid ensures PrunedTable(t, mid[t], now[t], seed) {
      if t != name { KeepAll(mid[t].Rows(), t, seed); }
    }
  }

  lemma BelowLast(db: Database, seed: set<RowId>, dead: set<RowId>)
    requires BelowClosed(db, seed, dead)
    ensures BelowClosed(db, seed, dead + seed)
  {
    forall s: set<RowId> | seed <= s && Closed(db, s) ensures dead + seed <= s { assert dead <= s; }
  }

  lemma ClosedLast(db: Database, mid: Database, dead: set<RowId>, name: string, mask: seq<bool>)
    requires name in db && |mask| == db[name].rowCount && Pruned(db, mid, dead) && Closed(db, dead)
    requires mid[name] == db[name] && AllClear(mid, name, mask)
    ensures Closed(db, dead + Seed(name, db[name], mask))
  {
    var seed := Seed(name, db[name], mask);
    forall c, fk, x, y | References(db, c, fk, x, y) && (fk.refTable, y) in dead + seed ensures (c, x) in dead + seed {
      ClearedMember(db, mid, dead, name, mask, c, fk, x, y);
    }
  }

  lemma ClearedMember(db: Database, mid: Database, dead: set<RowId>, name: string, mask: seq<bool>,
                      c: string, fk: ForeignKey, x: Row, y: Row)
    requires name in db && |mask| == db[name].rowCount && Pruned(db, mid, dead) && Closed(db, dead)
    requires mid[name] == db[name] && AllClear(mid, name, mask)
    requires References(db, c, fk, x, y) && (fk.refTable, y) in dead + Seed(name, db[name], mask)
    ensures (c, x) in dead
  {
    if (c, x) !in dead {
      assert (fk.refTable, y) !in dead;
      PrunedReferences(db, mid, dead, c, fk, x, y);
      SeedRow(name, mid[name], mask, fk.refColumns, y);
      assert false;
    }
  }
}
