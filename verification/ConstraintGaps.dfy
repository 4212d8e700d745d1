/** Statements the engine accepts although a constraint is broken afterwards, one concrete catalog each. */
module ConstraintGaps {
  import opened Basics
  import opened Catalog
  import opened CascadeWhere
  import opened DmlWhere
  import opened ForeignKeys
  import opened Constraints
  import opened DeleteTheory
  import opened Statements
  import DmlEngine

  /** A table of one column `k`. */
  function OneColumn(cells: seq<u64>, primaryKey: bool, unique: bool, fks: seq<ForeignKey>): (t: Table)
    ensures t.Valid()
  {
    Table([cells], ["k"], |cells|, Some(TableSchema([ColumnSchema("k", primaryKey, unique, None)], [], [], fks)))
  }

  lemma OneColumnRows(cells: seq<u64>, primaryKey: bool, unique: bool, fks: seq<ForeignKey>)
    ensures
      var t := OneColumn(cells, primaryKey, unique, fks);
      && (forall i :: 0 <= i < |cells| ==> t.RowAt(i) == [cells[i]])
      && (forall s: seq<nat> :: IsUniqueSet(t, s) <==> unique && s == [0])
      && (forall s: seq<nat> :: IsPrimaryKey(t, s) <==> primaryKey && s == [0])
      && (forall row :: PassesChecks(t, row))
  {
    var t := OneColumn(cells, primaryKey, unique, fks);
    forall i | 0 <= i < |cells| ensures t.RowAt(i) == [cells[i]] { assert t.RowAt(i)[0] == cells[i]; }
  }

  lemma Equal(rows: seq<Row>, i: nat, j: nat, s: seq<nat>)
    requires i < j < |rows| && rows[i] == rows[j]
    ensures !DupFree(rows, s)
  {
  }

  /** INSERT of two equal rows into an empty table with a UNIQUE column is accepted. */
  lemma InsertDuplicates(db: Database, rows: seq<Row>)
    requires db == map["t" := OneColumn([], false, true, [])] && rows == [[5], [5]]
    ensures Constrained(db) && SameWidthRows(rows) && InsertAccepted(db, "t", rows)
    ensures !UniqueHolds(Appended(db["t"], rows))
  {
    var t := db["t"];
    OneColumnRows([], false, true, []);
    AppendedRows(t, rows);
    assert rows[0] == rows[1];
    Equal(t.Rows() + rows, 0, 1, [0]);
    assert IsUniqueSet(Appended(t, rows), [0]);
  }

  lemma AssignOne(v: u64, w: u64)
    ensures Assign([v], [Assignment(0, w)]) == [w]
  {
    var a := [Assignment(0, w)];
    assert a[..0] == [];
    assert Assign([v], a[..0]) == [v];
  }

  lemma ResolveOne(v: u64)
    ensures Resolve(["k"], [("k", v)]) == Ok([Assignment(0, v)])
  {
    var a := [("k", v)];
    assert a[..0] == [];
    assert Resolve(["k"], a[..0]) == Ok([]);
    assert Position(["k"], "k") == Some(0);
    assert [] + [Assignment(0, v)] == [Assignment(0, v)];
  }

  lemma TwoRows(a: u64, b: u64, primaryKey: bool, unique: bool)
    requires a != b
    ensures Constrained(map["t" := OneColumn([a, b], primaryKey, unique, [])])
  {
    var t := OneColumn([a, b], primaryKey, unique, []);
    OneColumnRows([a, b], primaryKey, unique, []);
    assert DupFree(t.Rows(), [0]) by {
      assert t.Rows()[0] == [a] && t.Rows()[1] == [b];
      assert Project([a], [0])[0] == a && Project([b], [0])[0] == b;
    }
    assert t.ForeignKeys() == [];
  }

  /** What the engine looks at before it changes a table without foreign keys and CHECKs. */
  lemma Accepts(t: Table, v: u64, where: Option<Condition>, mask: seq<bool>)
    requires t.Valid() && t.columnNames == ["k"] && t.ForeignKeys() == [] && MatchMask(t, where) == Ok(mask)
    requires ChangesAccepted(t, mask, [Assignment(0, v)])
    ensures UpdateAccepted(map["t" := t], "t", [("k", v)], where)
    ensures UpdatedTable(t, [("k", v)], where) == Updated(t, mask, [Assignment(0, v)])
  {
    ResolveOne(v);
  }

  lemma BothEqual(t: Table, v: u64, s: seq<nat>)
    requires t.rowCount == 2 && t.Rows()[0] == [v] && t.Rows()[1] == [v]
    ensures !DupFree(t.Rows(), s)
  {
    Equal(t.Rows(), 0, 1, s);
  }

  /** UPDATE of every row of a UNIQUE column to one value is accepted. */
  lemma UpdateDuplicates(db: Database)
    requires db == map["t" := OneColumn([1, 2], false, true, [])]
    ensures Constrained(db) && UpdateAccepted(db, "t", [("k", 5)], None)
    ensures !UniqueHolds(UpdatedTable(db["t"], [("k", 5)], None))
  {
    var t := db["t"];
    TwoRows(1, 2, false, true);
    OneColumnRows([1, 2], false, true, []);
    AssignOne(1, 5);
    AssignOne(2, 5);
    var mask, assigns := [true, true], [Assignment(0, 5)];
    assert MatchMask(t, None).value == mask;
    AllToFive(t, mask, assigns);
    Accepts(t, 5, None, mask);
    BothEqual(Updated(t, mask, assigns), 5, [0]);
    assert IsUniqueSet(Updated(t, mask, assigns), [0]);
  }

  lemma AllToFive(t: Table, mask: seq<bool>, assigns: seq<Assignment>)
    requires t == OneColumn([1, 2], false, true, []) && mask == [true, true] && assigns == [Assignment(0, 5)]
    ensures ChangesAccepted(t, mask, assigns)
    ensures Updated(t, mask, assigns).Rows()[0] == [5] && Updated(t, mask, assigns).Rows()[1] == [5]
  {
    OneColumnRows([1, 2], false, true, []);
    AssignOne(1, 5);
    AssignOne(2, 5);
    forall j | 0 <= j < 2 ensures Project(t.RowAt(j), [0]) != Project([5], [0]) {
      assert t.RowAt(j) == [[1, 2][j]];
      assert Project(t.RowAt(j), [0])[0] == [1, 2][j] && Project([5], [0])[0] == 5;
    }
    forall i | 0 <= i < 2 ensures ChangeAccepted(t, i, Assign(t.RowAt(i), assigns)) {
      assert Assign(t.RowAt(i), assigns) == [5];
    }
  }

  /** The mask of `WHERE k = v` on the table. */
  lemma MatchesOne(t: Table, v: i64)
    requires t.Valid() && t.columnNames == ["k"] && t.rowCount > 0 && v >= 0
    ensures MatchMask(t, Some(Test("k", Eq, v))).Ok?
    ensures forall i :: 0 <= i < t.rowCount ==> (MatchMask(t, Some(Test("k", Eq, v))).value[i] <==> t.RowAt(i)[0] == v)
  {
    var c := Test("k", Eq, v);
    WherePrinted(t, c);
    assert Position(["k"], "k") == Some(0);
  }

  /** UPDATE of a PRIMARY KEY to a value another row already has is accepted. */
  lemma UpdateDuplicatesPrimaryKey(db: Database, where: Option<Condition>)
    requires db == map["t" := OneColumn([1, 2], true, false, [])] && where == Some(Test("k", Eq, 1))
    ensures Constrained(db) && UpdateAccepted(db, "t", [("k", 2)], where)
    ensures !PrimaryKeyHolds(UpdatedTable(db["t"], [("k", 2)], where))
  {
    var t := db["t"];
    TwoRows(1, 2, true, false);
    OneColumnRows([1, 2], true, false, []);
    MatchesOne(t, 1);
    var mask, assigns := MatchMask(t, where).value, [Assignment(0, 2)];
    assert t.RowAt(0) == [1] && t.RowAt(1) == [2];
    assert mask == [true, false];
    AssignOne(1, 2);
    Accepts(t, 2, where, mask);
    BothEqual(Updated(t, mask, assigns), 2, [0]);
    assert IsPrimaryKey(Updated(t, mask, assigns), [0]);
  }

  const KEY := ForeignKey(["k"], "p", ["k"], Some(Restrict))

  lemma KeyOfOne(v: u64)
    ensures Key(["k"], [v], ["k"]) == [v]
  {
    assert Position(["k"], "k") == Some(0);
  }

  /** UPDATE of a referenced key of a RESTRICT parent is accepted and orphans the child. */
  lemma UpdateOrphans(db: Database)
    requires db == map["p" := OneColumn([1], true, true, []), "c" := OneColumn([1], false, false, [KEY])]
    ensures Referential(db) && UpdateAccepted(db, "p", [("k", 2)], None)
    ensures !Integrity(db["p" := UpdatedTable(db["p"], [("k", 2)], None)])
  {
    var p, c := db["p"], db["c"];
    OneColumnRows([1], true, true, []);
    OneColumnRows([1], false, false, [KEY]);
    ResolveOne(2);
    AssignOne(1, 2);
    KeyOfOne(1);
    KeyOfOne(2);
    OrphansBefore(db);
    var mask, assigns := MatchMask(p, None).value, [Assignment(0, 2)];
    var p1 := Updated(p, mask, assigns);
    assert p1.Rows() == [[2]];
    var db1 := db["p" := p1];
    assert c.Rows() == [[1]] && c.Rows()[0] in db1["c"].Rows();
    assert !HasParent(db1, "c", KEY, [1]);
  }

  lemma OrphansBefore(db: Database)
    requires db == map["p" := OneColumn([1], true, true, []), "c" := OneColumn([1], false, false, [KEY])]
    ensures Referential(db)
  {
    OneColumnRows([1], true, true, []);
    OneColumnRows([1], false, false, [KEY]);
    KeyOfOne(1);
    var p, c := db["p"], db["c"];
    assert p.Rows() == [[1]] && c.Rows() == [[1]];
    assert p.ForeignKeys() == [] && c.ForeignKeys() == [KEY];
    assert c.ForeignKeys()[0] == KEY;
    assert References(db, "c", KEY, [1], [1]);
    forall t, fk, x | t in db && fk in db[t].ForeignKeys() && x in db[t].Rows() ensures HasParent(db, t, fk, x) {
      assert t == "c" && fk == KEY && x == [1];
    }
  }

  // ----- a DELETE that succeeds and leaves an orphan -----

  const PAIR := ForeignKey(["a", "b"], "p", ["a", "b"], Some(Cascade))

  /** A table of two columns. */
  function TwoColumns(a: seq<u64>, b: seq<u64>, fks: seq<ForeignKey>): (t: Table)
    requires |a| == |b|
    ensures t.Valid()
  {
    Table([a, b], ["a", "b"], |a|, Some(TableSchema([ColumnSchema("a", false, false, None), ColumnSchema("b", false, false, None)], [], [], fks)))
  }

  /** Parent rows (1, 2) and (3, 4); one child row, which references the first. */
  function PairCatalog(): Database {
    map["p" := TwoColumns([1, 3], [2, 4], []), "c" := TwoColumns([1], [2], [PAIR])]
  }

  lemma TwoColumnsRow(a: seq<u64>, b: seq<u64>, fks: seq<ForeignKey>, i: nat)
    requires |a| == |b| && i < |a|
    ensures TwoColumns(a, b, fks).RowAt(i) == [a[i], b[i]]
  {
    var t := TwoColumns(a, b, fks);
    assert t.RowAt(i)[0] == a[i] && t.RowAt(i)[1] == b[i];
  }

  lemma KeyOfTwo(v: u64, w: u64)
    ensures Key(["a", "b"], [v, w], ["a", "b"]) == [v, w]
  {
    assert Position(["a", "b"], "a") == Some(0);
    assert ["a", "b"][1..] == ["b"] && Position(["b"], "b") == Some(0);
    assert Position(["a", "b"], "b") == Some(1);
  }

  lemma PairRows()
    ensures PairCatalog()["p"].Rows() == [[1, 2], [3, 4]] && PairCatalog()["c"].Rows() == [[1, 2]]
    ensures PairCatalog()["p"].ForeignKeys() == [] && PairCatalog()["c"].ForeignKeys() == [PAIR]
  {
    TwoColumnsRow([1, 3], [2, 4], [], 0);
    TwoColumnsRow([1, 3], [2, 4], [], 1);
    TwoColumnsRow([1], [2], [PAIR], 0);
  }

  lemma PairKeys(db: Database)
    requires db == PairCatalog()
    ensures WellFormed(db) && Ranked(db, map["p" := 1, "c" := 0]) && OneLevel(db, "p")
  {
    PairRows();
    assert WellFormedKey(db, "c", PAIR);
    assert forall t :: t in db ==> t == "p" || t == "c";
    forall c, p | ChildOf(db, c, p) ensures c == "c" && p == "p" { }
  }

  lemma PairIntegrity(db: Database)
    requires db == PairCatalog()
    ensures Integrity(db) && NeverFails(db)
  {
    PairRows();
    KeyOfTwo(1, 2);
    KeyOfTwo(3, 4);
    assert db["c"].Rows()[0] == [1, 2] && db["p"].Rows()[0] == [1, 2] && db["c"].ForeignKeys()[0] == PAIR;
    assert References(db, "c", PAIR, [1, 2], [1, 2]);
    forall t, fk, x | t in db && fk in db[t].ForeignKeys() && x in db[t].Rows() ensures HasParent(db, t, fk, x) {
      assert t == "c" && fk == PAIR && x == [1, 2];
    }
    assert KeyNeverFails(db, PAIR);
  }

  lemma PairTuples(t: Table, mask: seq<bool>)
    requires t == PairCatalog()["p"] && mask == [true, true]
    ensures Select(KeysOf(t, PAIR.refColumns), mask) == [[1, 2], [3, 4]] && LastRun([[1, 2], [3, 4]]) == [[3, 4]]
  {
    PairRows();
    KeyOfTwo(1, 2);
    KeyOfTwo(3, 4);
    var keys := KeysOf(t, PAIR.refColumns);
    assert t.RowAt(0) == t.Rows()[0] && t.RowAt(1) == t.Rows()[1];
    assert keys == [[1, 2], [3, 4]];
    assert Select(keys[1..][1..], mask[1..][1..]) == [];
    assert [1, 2][1..] == [2] && [3, 4][1..] == [4];
    assert [2][0] != [4][0];
  }

  /** The two deleted tuples differ beyond their first column, so the cascade reads only the second. */
  lemma PairUnsafe(db: Database, mask: seq<bool>)
    requires db == PairCatalog() && mask == [true, true]
    ensures !LeafSafe(db, "p", mask)
  {
    PairRows();
    PairTuples(db["p"], mask);
    KeyOfTwo(1, 2);
    var x := [1, 2];
    assert db["c"].Rows()[0] == x && db["c"].ForeignKeys()[0] == PAIR;
    assert [[1, 2], [3, 4]][0] == x && [3, 4][0] != x[0];
    assert !CascadeTakes(db, "p", mask, ("c", x));
    assert !ReferrerSafe(db, "p", mask, "c", PAIR, x);
  }

  lemma PairBefore(db: Database)
    requires db == PairCatalog()
    ensures Ready(db, map["p" := 1, "c" := 0]) && Referential(db) && NeverFails(db) && OneLevel(db, "p") && "p" in db
    ensures !LeafSafe(db, "p", MatchMask(db["p"], None).value) && Count(MatchMask(db["p"], None).value) == 2
  {
    PairKeys(db);
    PairIntegrity(db);
    var mask := MatchMask(db["p"], None).value;
    assert mask == [true, true];
    assert Count(mask[1..][1..]) == 0;
    PairUnsafe(db, mask);
  }

  /** DELETE of every row of a parent whose CASCADE children have no children, where some child row is not safe. */
  method DeleteUnsafe(e: DmlEngine.Engine, name: string, ghost rank: map<string, nat>) returns (r: Result<nat>)
    requires Ready(e.catalog, rank) && Integrity(e.catalog) && NeverFails(e.catalog) && OneLevel(e.catalog, name)
    requires name in e.catalog && !LeafSafe(e.catalog, name, MatchMask(e.catalog[name], None).value)
    modifies e
    ensures r == Ok(Count(MatchMask(old(e.catalog)[name], None).value)) && !Integrity(e.catalog)
  {
    ghost var dead;
    r, dead := e.ExecuteDelete(name, None, rank);
  }

  /** DELETE of every parent row succeeds, CASCADE included, and leaves the child row without its parent. */
  method DeleteOrphans(e: DmlEngine.Engine) returns (r: Result<nat>)
    requires e.catalog == PairCatalog()
    modifies e
    ensures r == Ok(2) && Referential(old(e.catalog)) && !Integrity(e.catalog)
  {
    PairBefore(e.catalog);
    r := DeleteUnsafe(e, "p", map["p" := 1, "c" := 0]);
  }
}
