/**
 Referential integrity over a whole catalog, and the set of rows a DELETE must take with it.

 Rows are identified by table name and contents: WHERE clauses and foreign keys look only at
 cells, so two identical rows of one table always share their fate.
*/
module ForeignKeys {
  import opened Basics
  import opened Catalog
  import opened CascadeWhere

  type RowId = (string, Row)

  /** The rows of `t` that are not in `dead`, in their original order. */
  function Keep(rows: seq<Row>, t: string, dead: set<RowId>): (r: seq<Row>)
    ensures forall x :: x in r <==> x in rows && (t, x) !in dead
  {
    if rows == [] then []
    else (if (t, rows[0]) in dead then [] else [rows[0]]) + Keep(rows[1..], t, dead)
  }

  lemma {:induction false} KeepTwice(rows: seq<Row>, t: string, d: set<RowId>, e: set<RowId>)
    ensures Keep(Keep(rows, t, d), t, e) == Keep(rows, t, d + e)
  {
    if rows != [] {
      KeepTwice(rows[1..], t, d, e);
      if (t, rows[0]) !in d {
        var k := Keep(rows[1..], t, d);
        assert Keep(rows, t, d) == [rows[0]] + k;
        assert ([rows[0]] + k)[1..] == k;
      } else {
        assert Keep(rows, t, d) == Keep(rows[1..], t, d);
      }
    }
  }

  lemma {:induction false} KeepAll(rows: seq<Row>, t: string, d: set<RowId>)
    requires forall x :: x in rows ==> (t, x) !in d
    ensures Keep(rows, t, d) == rows
  {
    if rows != [] {
      KeepAll(rows[1..], t, d);
    }
  }

  /** `db1` is `db` with the rows in `dead` removed from every table, nothing else changed. */
  ghost predicate Pruned(db: Database, db1: Database, dead: set<RowId>) {
    && db1.Keys == db.Keys
    && forall t :: t in db ==> PrunedTable(t, db[t], db1[t], dead)
  }

  ghost predicate PrunedTable(t: string, old_: Table, new_: Table, dead: set<RowId>) {
    && new_.Valid()
    && new_.columnNames == old_.columnNames
    && new_.schema == old_.schema
    && new_.Rows() == Keep(old_.Rows(), t, dead)
  }

  // ----- the shape of the schema -----

  /** What CREATE TABLE is expected to produce: resolved, equally wide, RESTRICT or CASCADE keys. */
  ghost predicate WellFormed(db: Database) {
    && (forall t :: t in db ==> db[t].Valid())
    && (forall c, k :: c in db && 0 <= k < |db[c].ForeignKeys()| ==> WellFormedKey(db, c, db[c].ForeignKeys()[k]))
  }

  ghost predicate WellFormedKey(db: Database, c: string, fk: ForeignKey)
    requires c in db
  {
    && 1 <= |fk.columns| == |fk.refColumns|
    && fk.refTable in db
    && Resolved(fk.columns, db[c].columnNames)
    && Resolved(fk.refColumns, db[fk.refTable].columnNames)
    && fk.Action() in {Cascade, Restrict, NoAction}
  }

  /** `c` has a foreign key to `p`. */
  predicate ChildOf(db: Database, c: string, p: string) {
    c in db && exists k :: 0 <= k < |db[c].ForeignKeys()| && db[c].ForeignKeys()[k].refTable == p
  }

  /** No non-empty set of tables in which every table has a child inside the set. */
  ghost predicate Acyclic(db: Database) {
    forall s: set<string> :: s != {} && s <= db.Keys ==> HasSink(db, s)
  }

  ghost predicate HasSink(db: Database, s: set<string>) {
    exists p :: p in s && forall c :: c in s ==> !ChildOf(db, c, p)
  }

  /** A termination measure: children rank strictly below their parents. */
  ghost predicate Ranked(db: Database, rank: map<string, nat>) {
    && rank.Keys == db.Keys
    && forall c, p :: c in db && p in db && ChildOf(db, c, p) ==> rank[c] < rank[p]
  }

  lemma {:induction false} RankOn(db: Database, s: set<string>) returns (rank: map<string, nat>)
    requires Acyclic(db) && s <= db.Keys
    ensures rank.Keys == s
    ensures forall c, p :: c in s && p in s && ChildOf(db, c, p) ==> rank[c] < rank[p]
    decreases |s|
  {
    if s == {} {
      rank := map[];
    } else {
      assert HasSink(db, s);
      var leaf :| leaf in s && forall c :: c in s ==> !ChildOf(db, c, leaf);
      var rest := RankOn(db, s - {leaf});
      rank := map t | t in s :: if t == leaf then 0 else rest[t] + 1;
    }
  }

  /** Every acyclic catalog admits the measure the cascade recursion decreases. */
  lemma AcyclicIsRanked(db: Database) returns (rank: map<string, nat>)
    requires Acyclic(db)
    ensures Ranked(db, rank)
  {
    rank := RankOn(db, db.Keys);
  }

  // ----- dependency, closure, integrity -----

  /** Row `x` of `c` references row `y` of `fk.refTable`. */
  ghost predicate References(db: Database, c: string, fk: ForeignKey, x: Row, y: Row) {
    && c in db && fk in db[c].ForeignKeys() && fk.refTable in db
    && x in db[c].Rows() && y in db[fk.refTable].Rows()
    && Key(db[c].columnNames, x, fk.columns) == Key(db[fk.refTable].columnNames, y, fk.refColumns)
  }

  /** A row that references a member is a member. */
  ghost predicate Closed(db: Database, s: set<RowId>) {
    forall c, fk, x, y :: References(db, c, fk, x, y) && (fk.refTable, y) in s ==> (c, x) in s
  }

  /** The least closed set of rows above `seed`: what the SQL standard says goes away. */
  ghost predicate LeastClosed(db: Database, seed: set<RowId>, dead: set<RowId>) {
    && seed <= dead
    && Closed(db, dead)
    && BelowClosed(db, seed, dead)
  }

  ghost predicate BelowClosed(db: Database, seed: set<RowId>, dead: set<RowId>) {
    forall s: set<RowId> :: seed <= s && Closed(db, s) ==> dead <= s
  }

  lemma LeastClosedUnique(db: Database, seed: set<RowId>, d: set<RowId>, e: set<RowId>)
    requires LeastClosed(db, seed, d) && LeastClosed(db, seed, e)
    ensures d == e
  {
    assert d <= e && e <= d;
  }

  /** Row `x` of `c` has a parent for the key `fk`. */
  ghost predicate HasParent(db: Database, c: string, fk: ForeignKey, x: Row) {
    exists y :: References(db, c, fk, x, y)
  }

  /** Every row has a matching parent row for every foreign key. */
  ghost predicate Integrity(db: Database) {
    forall c, fk, x :: c in db && fk in db[c].ForeignKeys() && x in db[c].Rows() ==> HasParent(db, c, fk, x)
  }

  // ----- the parent keys of a foreign key -----

  function KeysOf(t: Table, cols: seq<string>): (k: seq<seq<u64>>)
    ensures |k| == t.rowCount
    ensures forall i :: 0 <= i < |k| ==> k[i] == Key(t.columnNames, t.RowAt(i), cols)
  {
    seq(t.rowCount, i => Key(t.columnNames, t.RowAt(i), cols))
  }

  /** The parent rows of a CASCADE key that lie inside `top` agree on every referenced column but the first. */
  ghost predicate TailsAgree(db: Database, fk: ForeignKey, top: set<RowId>) {
    fk.Action() == Cascade && fk.refTable in db ==>
      var parent := db[fk.refTable];
      forall y, z :: y in parent.Rows() && z in parent.Rows() && (fk.refTable, y) in top && (fk.refTable, z) in top ==>
        SameRest(Key(parent.columnNames, y, fk.refColumns), Key(parent.columnNames, z, fk.refColumns))
  }

  ghost predicate ExactWithin(db: Database, top: set<RowId>) {
    forall c, k :: c in db && 0 <= k < |db[c].ForeignKeys()| ==> TailsAgree(db, db[c].ForeignKeys()[k], top)
  }

  ghost predicate ReadsRight(db: Database, seed: set<RowId>, top: set<RowId>) {
    seed <= top && Closed(db, top) && ExactWithin(db, top)
  }

  /**
   The condition under which the evaluator reads every cascade of a DELETE exactly: among the rows
   that have to go with `seed`, no two rows of one table differ in a referenced column of a CASCADE
   key other than the first. Rows and keys the DELETE does not reach play no part.
  */
  ghost predicate ExactFor(db: Database, seed: set<RowId>) {
    exists top :: ReadsRight(db, seed, top)
  }

  lemma ExactWithinSubset(db: Database, top: set<RowId>, s: set<RowId>)
    requires ExactWithin(db, top) && s <= top
    ensures ExactWithin(db, s)
  {
    forall c, k | c in db && 0 <= k < |db[c].ForeignKeys()| ensures TailsAgree(db, db[c].ForeignKeys()[k], s) {
      assert TailsAgree(db, db[c].ForeignKeys()[k], top);
    }
  }

  /** The condition is about exactly the rows that have to go: the least closed set above the seed. */
  lemma ExactForIff(db: Database, seed: set<RowId>, least: set<RowId>)
    requires LeastClosed(db, seed, least)
    ensures ExactFor(db, seed) <==> ExactWithin(db, least)
  {
    if ExactFor(db, seed) {
      var top :| ReadsRight(db, seed, top);
      ExactWithinSubset(db, top, least);
    }
    if ExactWithin(db, least) { assert ReadsRight(db, seed, least); }
  }

  /** The same for every DELETE at once: all rows of every parent agree. */
  ghost predicate CascadesExact(db: Database) {
    forall c, k :: c in db && 0 <= k < |db[c].ForeignKeys()| ==> CascadeExact(db, db[c].ForeignKeys()[k])
  }

  ghost predicate CascadeExact(db: Database, fk: ForeignKey) {
    fk.Action() == Cascade && fk.refTable in db ==> SameTail(KeysOf(db[fk.refTable], fk.refColumns))
  }

  ghost function AllRows(db: Database): set<RowId> {
    set c, x | c in db && x in db[c].Rows() :: (c, x)
  }

  lemma WholeCatalogExact(db: Database, seed: set<RowId>)
    requires CascadesExact(db)
    ensures ExactFor(db, seed)
  {
    var top := AllRows(db) + seed;
    forall c, k | c in db && 0 <= k < |db[c].ForeignKeys()| ensures TailsAgree(db, db[c].ForeignKeys()[k], top) {
      var fk := db[c].ForeignKeys()[k];
      assert CascadeExact(db, fk);
      if fk.Action() == Cascade && fk.refTable in db {
        TableTailsAgree(db[fk.refTable], fk.refColumns);
      }
    }
    assert Closed(db, top);
    assert ReadsRight(db, seed, top);
  }

  lemma TableTailsAgree(t: Table, cols: seq<string>)
    requires SameTail(KeysOf(t, cols))
    ensures forall y, z :: y in t.Rows() && z in t.Rows() ==> SameRest(Key(t.columnNames, y, cols), Key(t.columnNames, z, cols))
  {
    forall y, z | y in t.Rows() && z in t.Rows() ensures SameRest(Key(t.columnNames, y, cols), Key(t.columnNames, z, cols)) {
      var i :| 0 <= i < t.rowCount && t.Rows()[i] == y;
      var j :| 0 <= j < t.rowCount && t.Rows()[j] == z;
      assert KeysOf(t, cols)[i] == Key(t.columnNames, y, cols) && KeysOf(t, cols)[j] == Key(t.columnNames, z, cols);
    }
  }

  /** One-column keys are exact whatever the tables hold. */
  lemma SingleColumnExact(t: Table, cols: seq<string>)
    requires |cols| == 1
    ensures SameTail(KeysOf(t, cols))
  {
    var k := KeysOf(t, cols);
    forall i, j | 0 <= i < |k| && 0 <= j < |k| ensures k[i][1..] == k[j][1..] {
      assert k[i][1..] == [] && k[j][1..] == [];
    }
  }

  // ----- pruning keeps everything a DELETE relies on -----

  lemma PrunedNothing(db: Database)
    requires forall t :: t in db ==> db[t].Valid()
    ensures Pruned(db, db, {})
  {
    forall t | t in db ensures PrunedTable(t, db[t], db[t], {}) {
      KeepAll(db[t].Rows(), t, {});
    }
  }

  lemma PrunedTwice(db: Database, db1: Database, db2: Database, d: set<RowId>, e: set<RowId>)
    requires Pruned(db, db1, d) && Pruned(db1, db2, e)
    ensures Pruned(db, db2, d + e)
  {
    forall t | t in db ensures PrunedTable(t, db[t], db2[t], d + e) {
      assert PrunedTable(t, db[t], db1[t], d) && PrunedTable(t, db1[t], db2[t], e);
      KeepTwice(db[t].Rows(), t, d, e);
    }
  }

  lemma PrunedRow(db: Database, db1: Database, d: set<RowId>, t: string, x: Row)
    requires Pruned(db, db1, d) && t in db
    ensures x in db1[t].Rows() <==> x in db[t].Rows() && (t, x) !in d
  {
    assert PrunedTable(t, db[t], db1[t], d);
  }

  lemma PrunedReferences(db: Database, db1: Database, d: set<RowId>, c: string, fk: ForeignKey, x: Row, y: Row)
    requires Pruned(db, db1, d)
    ensures References(db1, c, fk, x, y) <==>
      References(db, c, fk, x, y) && (c, x) !in d && (fk.refTable, y) !in d
  {
    if c in db && fk.refTable in db {
      assert PrunedTable(c, db[c], db1[c], d);
      assert PrunedTable(fk.refTable, db[fk.refTable], db1[fk.refTable], d);
    }
  }

  lemma PrunedSchema(db: Database, db1: Database, d: set<RowId>)
    requires Pruned(db, db1, d) && WellFormed(db)
    ensures WellFormed(db1)
    ensures forall c, p :: ChildOf(db1, c, p) <==> ChildOf(db, c, p)
  {
    forall t | t in db ensures db1[t].Valid() && db1[t].schema == db[t].schema && db1[t].columnNames == db[t].columnNames {
      assert PrunedTable(t, db[t], db1[t], d);
    }
    forall c, k | c in db1 && 0 <= k < |db1[c].ForeignKeys()| ensures WellFormedKey(db1, c, db1[c].ForeignKeys()[k]) {
      assert WellFormedKey(db, c, db[c].ForeignKeys()[k]);
    }
    forall c, p ensures ChildOf(db1, c, p) <==> ChildOf(db, c, p) {
      if c in db { assert db1[c].ForeignKeys() == db[c].ForeignKeys(); }
    }
  }

  lemma PrunedExact(db: Database, db1: Database, d: set<RowId>, top: set<RowId>)
    requires Pruned(db, db1, d) && ExactWithin(db, top)
    ensures ExactWithin(db1, top)
  {
    forall c, k | c in db1 && 0 <= k < |db1[c].ForeignKeys()| ensures TailsAgree(db1, db1[c].ForeignKeys()[k], top) {
      assert PrunedTable(c, db[c], db1[c], d);
      var fk := db[c].ForeignKeys()[k];
      assert TailsAgree(db, fk, top);
      if fk.refTable in db { assert PrunedTable(fk.refTable, db[fk.refTable], db1[fk.refTable], d); }
    }
  }

  /** A set closed in the whole catalog is closed in any pruning of it. */
  lemma ClosedPruned(db: Database, db1: Database, d: set<RowId>, s: set<RowId>)
    requires Pruned(db, db1, d) && Closed(db, s)
    ensures Closed(db1, s)
  {
    forall c, fk, x, y | References(db1, c, fk, x, y) && (fk.refTable, y) in s ensures (c, x) in s {
      PrunedReferences(db, db1, d, c, fk, x, y);
    }
  }

  /** Closure composes along successive prunings. */
  lemma ClosedUnion(db: Database, db1: Database, d: set<RowId>, e: set<RowId>)
    requires Pruned(db, db1, d) && Closed(db, d) && Closed(db1, e)
    ensures Closed(db, d + e)
  {
    forall c, fk, x, y | References(db, c, fk, x, y) && (fk.refTable, y) in d + e ensures (c, x) in d + e {
      PrunedReferences(db, db1, d, c, fk, x, y);
    }
  }

  /** Removing a closed set of rows never orphans a survivor. */
  lemma IntegrityPruned(db: Database, db1: Database, d: set<RowId>)
    requires Pruned(db, db1, d) && Closed(db, d) && Integrity(db)
    ensures Integrity(db1)
  {
    forall c, fk, x | c in db1 && fk in db1[c].ForeignKeys() && x in db1[c].Rows() ensures HasParent(db1, c, fk, x) {
      assert PrunedTable(c, db[c], db1[c], d);
      assert HasParent(db, c, fk, x);
      var y :| References(db, c, fk, x, y);
      PrunedReferences(db, db1, d, c, fk, x, y);
      assert References(db1, c, fk, x, y);
    }
  }

  /** Nothing left in child `c` references the tuples of the deleted parent rows. */
  ghost predicate NoReferrer(db: Database, c: string, fk: ForeignKey, tuples: seq<seq<u64>>) {
    c in db && forall x :: x in db[c].Rows() ==> Key(db[c].columnNames, x, fk.columns) !in tuples
  }

  lemma NoReferrerPruned(db: Database, db1: Database, d: set<RowId>, c: string, fk: ForeignKey, tuples: seq<seq<u64>>)
    requires Pruned(db, db1, d) && NoReferrer(db, c, fk, tuples)
    ensures NoReferrer(db1, c, fk, tuples)
  {
    assert PrunedTable(c, db[c], db1[c], d);
  }
}
