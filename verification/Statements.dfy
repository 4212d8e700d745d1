/** What each DML statement does to the whole catalog, and what every run of statements keeps. */
module Statements {
  import opened Basics
  import opened Catalog
  import opened DmlWhere
  import opened ForeignKeys
  import opened Constraints
  import opened DeleteTheory

  datatype Statement =
    | Insert(name: string, rows: seq<Row>)
    | Update(name: string, assignments: seq<(string, u64)>, where: Option<Condition>)
    | Delete(name: string, where: Option<Condition>)

  /** `UPDATE ... SET col = value` with its columns looked up. */
  function Resolve(names: seq<string>, assignments: seq<(string, u64)>): (r: Result<seq<Assignment>>)
    ensures r.Ok? ==> |r.value| == |assignments|
    ensures r.Ok? ==> forall k :: 0 <= k < |r.value| ==>
      Position(names, assignments[k].0) == Some(r.value[k].col) && r.value[k].value == assignments[k].1
    decreases |assignments|
  {
    if assignments == [] then Ok([])
    else
      var n := |assignments| - 1;
      match Resolve(names, assignments[..n])
      case Err(e) => Err(e)
      case Ok(rest) =>
        match Position(names, assignments[n].0)
        case None => Err(NotFound(assignments[n].0))
        case Some(c) => Ok(rest + [Assignment(c, assignments[n].1)])
  }

  /** The matched rows as they would be after the statement. */
  function ChangedRows(t: Table, mask: seq<bool>, assigns: seq<Assignment>): seq<Row>
    requires |mask| == t.rowCount
  {
    Select(seq(t.rowCount, i => Assign(t.RowAt(i), assigns)), mask)
  }

  ghost predicate InsertAccepted(db: Database, name: string, rows: seq<Row>) {
    && name in db
    && |db[name].columns| == (if rows == [] then 0 else |rows[0]|)
    && KeysSatisfied(db, name, rows)
    && RowsAccepted(db[name], rows)
  }

  ghost predicate UpdateAccepted(db: Database, name: string, assignments: seq<(string, u64)>, where: Option<Condition>) {
    && name in db
    && Resolve(db[name].columnNames, assignments).Ok?
    && MatchMask(db[name], where).Ok?
    && var assigns, mask := Resolve(db[name].columnNames, assignments).value, MatchMask(db[name], where).value;
    && KeysSatisfied(db, name, ChangedRows(db[name], mask, assigns))
    && ChangesAccepted(db[name], mask, assigns)
  }

  function UpdatedTable(t: Table, assignments: seq<(string, u64)>, where: Option<Condition>): Table
    requires t.Valid() && Resolve(t.columnNames, assignments).Ok? && MatchMask(t, where).Ok?
  {
    Updated(t, MatchMask(t, where).value, Resolve(t.columnNames, assignments).value)
  }

  /** No later assignment of the statement names the column of assignment `k`. */
  predicate LastNamed(assignments: seq<(string, u64)>, k: int) {
    0 <= k < |assignments| && forall j :: k < j < |assignments| ==> assignments[j].0 != assignments[k].0
  }

  /** Each named column holds the last value the statement gives it, each other column what it held. */
  ghost predicate RowRewritten(names: seq<string>, row: Row, row1: Row, assignments: seq<(string, u64)>) {
    && |row1| == |row|
    && (forall k :: LastNamed(assignments, k) ==> ValueOf(names, row1, assignments[k].0) == assignments[k].1)
    && (forall c :: 0 <= c < |row| && c < |names| && names[c] !in Named(assignments) ==> row1[c] == row[c])
  }

  function Named(assignments: seq<(string, u64)>): (names: seq<string>)
    ensures |names| == |assignments| && forall k :: 0 <= k < |names| ==> names[k] == assignments[k].0
  {
    seq(|assignments|, k requires 0 <= k < |assignments| => assignments[k].0)
  }

  /** The matched rows are rewritten, all others stay, in place. */
  ghost predicate Rewritten(t: Table, t1: Table, mask: seq<bool>, assignments: seq<(string, u64)>)
    requires |mask| == t.rowCount
  {
    && t1.rowCount == t.rowCount && t1.columnNames == t.columnNames
    && forall i :: 0 <= i < t.rowCount ==>
         if mask[i] then RowRewritten(t.columnNames, t.RowAt(i), t1.RowAt(i), assignments) else t1.RowAt(i) == t.RowAt(i)
  }

  lemma AssignRewrites(names: seq<string>, row: Row, assignments: seq<(string, u64)>)
    requires Resolve(names, assignments).Ok? && |row| == |names|
    ensures RowRewritten(names, row, Assign(row, Resolve(names, assignments).value), assignments)
  {
    var assigns := Resolve(names, assignments).value;
    var row1 := Assign(row, assigns);
    AssignIff(row, row1, assigns);
    forall k | LastNamed(assignments, k) ensures ValueOf(names, row1, assignments[k].0) == assignments[k].1 {
      forall j | k < j < |assigns| ensures assigns[j].col != assigns[k].col {
        assert names[assigns[j].col] == assignments[j].0 && names[assigns[k].col] == assignments[k].0;
      }
      assert IsLast(assigns, k);
    }
    forall c | 0 <= c < |row| && names[c] !in Named(assignments) ensures row1[c] == row[c] {
      forall k | 0 <= k < |assigns| ensures assigns[k].col != c { assert names[assigns[k].col] == Named(assignments)[k]; }
    }
  }

  /** An UPDATE leaves in every matched row the values it names, and nothing else changed. */
  lemma UpdateRewrites(t: Table, assignments: seq<(string, u64)>, where: Option<Condition>)
    requires t.Valid() && Resolve(t.columnNames, assignments).Ok? && MatchMask(t, where).Ok?
    ensures Rewritten(t, UpdatedTable(t, assignments, where), MatchMask(t, where).value, assignments)
  {
    var t1, mask := UpdatedTable(t, assignments, where), MatchMask(t, where).value;
    forall i | 0 <= i < t.rowCount
      ensures if mask[i] then RowRewritten(t.columnNames, t.RowAt(i), t1.RowAt(i), assignments) else t1.RowAt(i) == t.RowAt(i)
    {
      assert t1.Rows()[i] == t1.RowAt(i);
      if mask[i] { AssignRewrites(t.columnNames, t.RowAt(i), assignments); }
    }
  }

  /** The rows of one INSERT all have the same width. */
  predicate SameWidthRows(rows: seq<Row>) {
    forall k :: 0 <= k < |rows| ==> |rows[k]| == |rows[0]|
  }

  /** The effect of one statement on the catalog, success or failure. */
  ghost predicate Step(db: Database, s: Statement, db1: Database)
    requires forall t :: t in db ==> db[t].Valid()
  {
    match s
    case Insert(name, rows) =>
      SameWidthRows(rows) &&
      (if InsertAccepted(db, name, rows) then db1 == db[name := Appended(db[name], rows)] else db1 == db)
    case Update(name, assignments, where) =>
      if UpdateAccepted(db, name, assignments, where) then
        db1 == db[name := UpdatedTable(db[name], assignments, where)]
      else db1 == db
    case Delete(name, where) =>
      exists dead :: DeleteEffect(db, name, where, dead, db1)
  }

  /**
   A DELETE removes only rows of every closed set above the addressed rows; a closed set where cascades
   read exactly. Where CASCADE children have no children it removes a closed set on failure, and on
   success what the last runs of the deleted tuples reach.
  */
  ghost predicate DeleteEffect(db: Database, name: string, where: Option<Condition>, dead: set<RowId>, db1: Database) {
    && Pruned(db, db1, dead) && (ExactFor(db, DeleteSeed(db, name, where)) ==> Closed(db, dead))
    && BelowClosed(db, DeleteSeed(db, name, where), dead)
    && (OneLevel(db, name) ==> Closed(db, dead) || LeafDeleted(db, name, where, dead))
  }

  ghost predicate LeafDeleted(db: Database, name: string, where: Option<Condition>, dead: set<RowId>) {
    name in db && MatchMask(db[name], where).Ok? && dead == DirectDead(db, name, MatchMask(db[name], where).value)
  }

  /** CASCADE children have no children, and every child row that a success leaves still has its key. */
  ghost predicate LeafDeleteSafe(db: Database, name: string, where: Option<Condition>) {
    && OneLevel(db, name)
    && (name in db && MatchMask(db[name], where).Ok? ==> LeafSafe(db, name, MatchMask(db[name], where).value))
  }

  // ----- invariants over runs -----

  /** Columns of one length, UNIQUE sets and PRIMARY KEYs duplicate-free, every row passing every CHECK. */
  ghost predicate Constrained(db: Database) {
    WellFormed(db) && forall t :: t in db ==> UniqueHolds(db[t]) && PrimaryKeyHolds(db[t]) && ChecksHold(db[t])
  }

  /** Every child row has its parent, in a catalog without self-references. */
  ghost predicate Referential(db: Database) {
    WellFormed(db) && Integrity(db) && NoSelfReference(db)
  }

  predicate LeavesColumns(assignments: seq<(string, u64)>, cols: seq<string>) {
    forall k, j :: 0 <= k < |assignments| && 0 <= j < |cols| ==> assignments[k].0 != cols[j]
  }

  /** No foreign key anywhere references a column the UPDATE assigns. */
  ghost predicate LeavesReferencedColumns(db: Database, name: string, assignments: seq<(string, u64)>) {
    forall c, fk :: c in db && fk in db[c].ForeignKeys() && fk.refTable == name ==>
      LeavesColumns(assignments, fk.refColumns)
  }

  /** What the engine's own checks miss: rows of one statement that collide with each other, and UPDATEs of a PRIMARY KEY. */
  ghost predicate KeepsConstraints(db: Database, s: Statement)
    requires WellFormed(db)
  {
    match s
    case Insert(name, rows) => name in db ==> BatchDistinct(db[name], rows)
    case Update(name, assignments, where) =>
      name in db && Resolve(db[name].columnNames, assignments).Ok? && MatchMask(db[name], where).Ok? ==>
        && MatchesApart(db[name], MatchMask(db[name], where).value, Resolve(db[name].columnNames, assignments).value)
        && PrimaryKeysStayFree(db[name], MatchMask(db[name], where).value, Resolve(db[name].columnNames, assignments).value)
    case Delete(_, _) => true
  }

  /** What they miss of foreign keys: referenced keys an UPDATE removes, cascades that are misread. */
  ghost predicate KeepsReferences(db: Database, s: Statement)
    requires WellFormed(db)
  {
    match s
    case Insert(_, _) => true
    case Update(name, assignments, where) =>
      UpdateAccepted(db, name, assignments, where) ==>
        ReferencesSurvive(db, name, MatchMask(db[name], where).value, Resolve(db[name].columnNames, assignments).value)
    case Delete(name, where) => ExactFor(db, DeleteSeed(db, name, where)) || LeafDeleteSafe(db, name, where)
  }

  /** An accepted INSERT keeps integrity, however many rows it has. */
  lemma InsertKeepsIntegrity(db: Database, name: string, rows: seq<Row>)
    requires WellFormed(db) && Integrity(db) && SameWidthRows(rows) && InsertAccepted(db, name, rows) && !ChildOf(db, name, name)
    ensures Integrity(db[name := Appended(db[name], rows)])
  {
    AppendedKeepsIntegrity(db, name, rows);
  }

  /** The rows of an INSERT satisfy their foreign keys iff adding them keeps integrity. */
  lemma InsertIntegrityIff(db: Database, name: string, rows: seq<Row>)
    requires WellFormed(db) && Integrity(db) && name in db && !ChildOf(db, name, name)
    requires forall k :: 0 <= k < |rows| ==> |rows[k]| == |db[name].columns|
    ensures KeysSatisfied(db, name, rows) <==> Integrity(db[name := Appended(db[name], rows)])
  {
    var t, t1 := db[name], Appended(db[name], rows);
    var db1 := db[name := t1];
    AppendedRows(t, rows);
    if KeysSatisfied(db, name, rows) {
      AppendedKeepsIntegrity(db, name, rows);
    }
    if Integrity(db1) {
      forall k, fk | 0 <= k < |rows| && fk in t.ForeignKeys() ensures KeySatisfied(db, name, fk, rows[k]) {
        assert t1.Rows()[t.rowCount + k] == rows[k] && rows[k] in t1.Rows();
        assert HasParent(db1, name, fk, rows[k]);
        var y :| References(db1, name, fk, rows[k], y);
        var i :| 0 <= i < |t.ForeignKeys()| && t.ForeignKeys()[i] == fk;
        assert WellFormedKey(db, name, fk);
        assert fk.refTable != name;
      }
    }
  }

  lemma AppendedKeepsIntegrity(db: Database, name: string, rows: seq<Row>)
    requires WellFormed(db) && Integrity(db) && name in db && !ChildOf(db, name, name)
    requires forall k :: 0 <= k < |rows| ==> |rows[k]| == |db[name].columns|
    requires KeysSatisfied(db, name, rows)
    ensures Integrity(db[name := Appended(db[name], rows)])
  {
    var t := db[name];
    var t1 := Appended(t, rows);
    AppendedRows(t, rows);
    forall x, fk | x in t1.Rows() && fk in t1.ForeignKeys() && x !in t.Rows() ensures KeySatisfied(db, name, fk, x) {
      var k :| 0 <= k < |rows| && rows[k] == x;
      assert fk in t.ForeignKeys();
      assert KeySatisfied(db, name, fk, rows[k]);
    }
    forall c, fk | c in db && fk in db[c].ForeignKeys() && fk.refTable == name ensures KeepsKeys(t, t1, fk.refColumns) {
      forall y | y in t.Rows() ensures y in t1.Rows() { }
    }
    KeysKept(db, name, t1);
    IntegrityReplaced(db, name, t1);
  }

  /** Assigning unreferenced columns leaves every referenced key in place. */
  lemma UpdateKeepsKeys(db: Database, name: string, assignments: seq<(string, u64)>, where: Option<Condition>, cols: seq<string>)
    requires name in db && db[name].Valid() && UpdateAccepted(db, name, assignments, where)
    requires LeavesColumns(assignments, cols)
    ensures KeepsKeys(db[name], UpdatedTable(db[name], assignments, where), cols)
  {
    var t, t1 := db[name], UpdatedTable(db[name], assignments, where);
    var assigns, mask := Resolve(t.columnNames, assignments).value, MatchMask(t, where).value;
    forall y | y in t.Rows() ensures exists z :: z in t1.Rows() && Key(t1.columnNames, z, cols) == Key(t.columnNames, y, cols) {
      var i :| 0 <= i < t.rowCount && t.Rows()[i] == y;
      var z := t1.Rows()[i];
      forall j | 0 <= j < |cols| ensures ValueOf(t.columnNames, z, cols[j]) == ValueOf(t.columnNames, y, cols[j]) {
        var p := Position(t.columnNames, cols[j]);
        if mask[i] && p.Some? && p.value < |y| {
          forall k | 0 <= k < |assigns| ensures assigns[k].col != p.value {
            assert assignments[k].0 != cols[j];
          }
          AssignCell(y, y, assigns, p.value);
        }
      }
      assert Key(t1.columnNames, z, cols) == Key(t.columnNames, y, cols);
      assert z in t1.Rows();
    }
  }

  /**
   An accepted UPDATE keeps integrity iff every matched row that a child references keeps its
   referenced key or shares it with an unmatched row; ON UPDATE actions are never run.
  */
  lemma UpdateIntegrityIff(db: Database, name: string, assignments: seq<(string, u64)>, where: Option<Condition>)
    requires WellFormed(db) && Integrity(db) && UpdateAccepted(db, name, assignments, where) && !ChildOf(db, name, name)
    ensures Integrity(db[name := UpdatedTable(db[name], assignments, where)])
      <==> ReferencesSurvive(db, name, MatchMask(db[name], where).value, Resolve(db[name].columnNames, assignments).value)
  {
    var t, t1 := db[name], UpdatedTable(db[name], assignments, where);
    var assigns, mask := Resolve(t.columnNames, assignments).value, MatchMask(t, where).value;
    forall x, fk | x in t1.Rows() && fk in t1.ForeignKeys() && x !in t.Rows() ensures KeySatisfied(db, name, fk, x) {
      ChangedRowSatisfied(db, name, mask, assigns, x, fk);
    }
    IntegrityReplaced(db, name, t1);
    ReferencesSurviveIff(db, name, mask, assigns);
  }

  /** An UPDATE that assigns no referenced column never removes a referenced key. */
  lemma UnreferencedColumnsAreSafe(db: Database, name: string, assignments: seq<(string, u64)>, where: Option<Condition>)
    requires WellFormed(db) && LeavesReferencedColumns(db, name, assignments)
    ensures KeepsReferences(db, Update(name, assignments, where))
  {
    if UpdateAccepted(db, name, assignments, where) {
      var t1 := UpdatedTable(db[name], assignments, where);
      forall c, fk | c in db && fk in db[c].ForeignKeys() && fk.refTable == name ensures KeepsKeys(db[name], t1, fk.refColumns) {
        UpdateKeepsKeys(db, name, assignments, where, fk.refColumns);
      }
      KeysKept(db, name, t1);
      ReferencesSurviveIff(db, name, MatchMask(db[name], where).value, Resolve(db[name].columnNames, assignments).value);
    }
  }

  lemma ChangedRowSatisfied(db: Database, name: string, mask: seq<bool>, assigns: seq<Assignment>, x: Row, fk: ForeignKey)
    requires name in db && db[name].Valid() && |mask| == db[name].rowCount && fk in db[name].ForeignKeys()
    requires KeysSatisfied(db, name, ChangedRows(db[name], mask, assigns))
    requires x in Updated(db[name], mask, assigns).Rows() && x !in db[name].Rows()
    ensures KeySatisfied(db, name, fk, x)
  {
    var t := db[name];
    var t1 := Updated(t, mask, assigns);
    var i :| 0 <= i < t1.rowCount && t1.Rows()[i] == x;
    assert t.Rows()[i] in t.Rows();
    var all := seq(t.rowCount, i => Assign(t.RowAt(i), assigns));
    SelectMember(all, mask, i);
    var rows := ChangedRows(t, mask, assigns);
    var k :| 0 <= k < |rows| && rows[k] == x;
  }

  lemma ReplacedSchema(db: Database, name: string, t1: Table)
    requires name in db && WellFormed(db) && t1.Valid()
    requires t1.columnNames == db[name].columnNames && t1.schema == db[name].schema
    ensures WellFormed(db[name := t1])
    ensures forall c, p :: ChildOf(db[name := t1], c, p) <==> ChildOf(db, c, p)
  {
    var db1 := db[name := t1];
    forall c, k | c in db1 && 0 <= k < |db1[c].ForeignKeys()| ensures WellFormedKey(db1, c, db1[c].ForeignKeys()[k]) {
      assert db1[c].ForeignKeys() == db[c].ForeignKeys();
      assert WellFormedKey(db, c, db[c].ForeignKeys()[k]);
    }
    forall c, p ensures ChildOf(db1, c, p) <==> ChildOf(db, c, p) {
      if c in db { assert db1[c].ForeignKeys() == db[c].ForeignKeys(); }
    }
  }

  /** No table references itself. */
  ghost predicate NoSelfReference(db: Database) {
    forall c :: c in db ==> !ChildOf(db, c, c)
  }

  lemma ReplacedNoSelfReference(db: Database, name: string, t1: Table)
    requires name in db && NoSelfReference(db) && t1.schema == db[name].schema
    ensures NoSelfReference(db[name := t1])
  {
    forall c | c in db ensures !ChildOf(db[name := t1], c, c) {
      assert !ChildOf(db, c, c);
      assert db[name := t1][c].ForeignKeys() == db[c].ForeignKeys();
    }
  }

  lemma DeleteKeepsConstraints(db: Database, dead: set<RowId>, db1: Database)
    requires Constrained(db) && Pruned(db, db1, dead)
    ensures Constrained(db1)
  {
    PrunedSchema(db, db1, dead);
    forall t | t in db1 ensures UniqueHolds(db1[t]) && PrimaryKeyHolds(db1[t]) && ChecksHold(db1[t]) {
      assert PrunedTable(t, db[t], db1[t], dead);
      PrunedConstraints(t, db[t], db1[t], dead);
    }
  }

  lemma DeleteKeepsReferential(db: Database, name: string, where: Option<Condition>, dead: set<RowId>, db1: Database)
    requires Referential(db) && DeleteEffect(db, name, where, dead, db1)
    requires ExactFor(db, DeleteSeed(db, name, where)) || LeafDeleteSafe(db, name, where)
    ensures Referential(db1)
  {
    PrunedSchema(db, db1, dead);
    if Closed(db, dead) {
      IntegrityPruned(db, db1, dead);
    } else {
      MatchMaskByValue(db[name], where);
      LeafIntegrityIff(db, name, MatchMask(db[name], where).value, db1);
    }
    forall c | c in db1 ensures !ChildOf(db1, c, c) { assert ChildOf(db1, c, c) <==> ChildOf(db, c, c); }
  }

  /** Every statement, successful or not, keeps UNIQUE, PRIMARY KEY, CHECK and column lengths. */
  lemma StepKeepsConstraints(db: Database, s: Statement, db1: Database)
    requires Constrained(db) && KeepsConstraints(db, s) && Step(db, s, db1)
    ensures Constrained(db1)
  {
    match s
    case Insert(name, rows) =>
      if InsertAccepted(db, name, rows) {
        InsertKeepsUnique(db[name], rows);
        InsertKeepsChecks(db[name], rows);
        ReplacedSchema(db, name, Appended(db[name], rows));
      }
    case Update(name, assignments, where) =>
      if UpdateAccepted(db, name, assignments, where) {
        var assigns, mask := Resolve(db[name].columnNames, assignments).value, MatchMask(db[name], where).value;
        UpdateKeepsUnique(db[name], mask, assigns);
        UpdateKeepsPrimaryKey(db[name], mask, assigns);
        UpdateKeepsChecks(db[name], mask, assigns);
        ReplacedSchema(db, name, UpdatedTable(db[name], assignments, where));
      }
    case Delete(name, where) =>
      var dead :| DeleteEffect(db, name, where, dead, db1);
      DeleteKeepsConstraints(db, dead, db1);
  }

  /** Every statement, successful or stopped half-way, keeps referential integrity. */
  lemma StepKeepsIntegrity(db: Database, s: Statement, db1: Database)
    requires Referential(db) && KeepsReferences(db, s) && Step(db, s, db1)
    ensures Referential(db1)
  {
    match s
    case Insert(name, rows) =>
      if InsertAccepted(db, name, rows) {
        InsertKeepsIntegrity(db, name, rows);
        ReplacedSchema(db, name, Appended(db[name], rows));
        ReplacedNoSelfReference(db, name, Appended(db[name], rows));
      }
    case Update(name, assignments, where) =>
      if UpdateAccepted(db, name, assignments, where) {
        var t1 := UpdatedTable(db[name], assignments, where);
        UpdateIntegrityIff(db, name, assignments, where);
        ReplacedSchema(db, name, t1);
        ReplacedNoSelfReference(db, name, t1);
      }
    case Delete(name, where) =>
      var dead :| DeleteEffect(db, name, where, dead, db1);
      DeleteKeepsReferential(db, name, where, dead, db1);
  }

  /** One moment of a run follows another by a statement. */
  ghost predicate Follows(db: Database, s: Statement, db1: Database) {
    WellFormed(db) && Step(db, s, db1)
  }

  /** A run: one catalog per moment, consecutive ones related by the statement between them. */
  ghost predicate IsRun(dbs: seq<Database>, stmts: seq<Statement>) {
    && |dbs| == |stmts| + 1
    && forall i :: 0 <= i < |stmts| ==> Follows(dbs[i], stmts[i], dbs[i + 1])
  }

  ghost predicate AllKeepConstraints(dbs: seq<Database>, stmts: seq<Statement>)
    requires IsRun(dbs, stmts)
  {
    forall i :: 0 <= i < |stmts| ==> Follows(dbs[i], stmts[i], dbs[i + 1]) && KeepsConstraints(dbs[i], stmts[i])
  }

  ghost predicate AllKeepReferences(dbs: seq<Database>, stmts: seq<Statement>)
    requires IsRun(dbs, stmts)
  {
    forall i :: 0 <= i < |stmts| ==> Follows(dbs[i], stmts[i], dbs[i + 1]) && KeepsReferences(dbs[i], stmts[i])
  }

  lemma MomentKeepsConstraints(dbs: seq<Database>, stmts: seq<Statement>, i: nat)
    requires IsRun(dbs, stmts) && AllKeepConstraints(dbs, stmts) && i < |stmts| && Constrained(dbs[i])
    ensures Constrained(dbs[i + 1])
  {
    assert Follows(dbs[i], stmts[i], dbs[i + 1]);
    StepKeepsConstraints(dbs[i], stmts[i], dbs[i + 1]);
  }

  lemma MomentKeepsIntegrity(dbs: seq<Database>, stmts: seq<Statement>, i: nat)
    requires IsRun(dbs, stmts) && AllKeepReferences(dbs, stmts) && i < |stmts| && Referential(dbs[i])
    ensures Referential(dbs[i + 1])
  {
    assert Follows(dbs[i], stmts[i], dbs[i + 1]);
    StepKeepsIntegrity(dbs[i], stmts[i], dbs[i + 1]);
  }

  /** UNIQUE, PRIMARY KEY, CHECK and equal column lengths hold at every moment of every run. */
  lemma {:induction false} RunKeepsConstraints(dbs: seq<Database>, stmts: seq<Statement>, n: nat)
    requires IsRun(dbs, stmts) && Constrained(dbs[0]) && AllKeepConstraints(dbs, stmts) && n <= |stmts|
    ensures Constrained(dbs[n])
  {
    if n > 0 {
      RunKeepsConstraints(dbs, stmts, n - 1);
      MomentKeepsConstraints(dbs, stmts, n - 1);
    }
  }

  /** Referential integrity holds at every moment of every run, failed statements included. */
  lemma {:induction false} RunKeepsIntegrity(dbs: seq<Database>, stmts: seq<Statement>, n: nat)
    requires IsRun(dbs, stmts) && Referential(dbs[0]) && AllKeepReferences(dbs, stmts) && n <= |stmts|
    ensures Referential(dbs[n])
  {
    if n > 0 {
      RunKeepsIntegrity(dbs, stmts, n - 1);
      MomentKeepsIntegrity(dbs, stmts, n - 1);
    }
  }

  // ----- what lets a run go on -----

  lemma SameChildrenAcyclic(db: Database, db1: Database)
    requires Acyclic(db) && db1.Keys == db.Keys && forall c, p :: ChildOf(db1, c, p) <==> ChildOf(db, c, p)
    ensures Acyclic(db1)
  {
    forall s: set<string> | s != {} && s <= db1.Keys ensures HasSink(db1, s) {
      assert HasSink(db, s);
      var p :| p in s && forall c :: c in s ==> !ChildOf(db, c, p);
      assert forall c :: c in s ==> !ChildOf(db1, c, p);
    }
  }

  /** No statement disturbs the schema, so the next statement finds the catalog it needs. */
  lemma StepKeepsSchema(db: Database, s: Statement, db1: Database)
    requires WellFormed(db) && Acyclic(db) && Step(db, s, db1)
    ensures WellFormed(db1) && Acyclic(db1)
  {
    match s
    case Insert(name, rows) =>
      if InsertAccepted(db, name, rows) {
        ReplacedSchema(db, name, Appended(db[name], rows));
        SameChildrenAcyclic(db, db1);
      }
    case Update(name, assignments, where) =>
      if UpdateAccepted(db, name, assignments, where) {
        ReplacedSchema(db, name, UpdatedTable(db[name], assignments, where));
        SameChildrenAcyclic(db, db1);
      }
    case Delete(name, where) =>
      var dead :| DeleteEffect(db, name, where, dead, db1);
      PrunedSchema(db, db1, dead);
      SameChildrenAcyclic(db, db1);
  }

  lemma AcyclicNoSelfReference(db: Database)
    requires Acyclic(db)
    ensures NoSelfReference(db)
  {
    forall c | c in db ensures !ChildOf(db, c, c) {
      var s := {c};
      assert s != {} && s <= db.Keys;
      assert HasSink(db, s);
      var p :| p in s && forall d :: d in s ==> !ChildOf(db, d, p);
      assert p == c;
    }
  }

  /** Schemas whose CASCADE keys all have one column allow every DELETE in every state. */
  lemma SingleColumnCascades(db: Database)
    requires WellFormed(db)
    requires forall c, k :: c in db && 0 <= k < |db[c].ForeignKeys()| && db[c].ForeignKeys()[k].Action() == Cascade ==>
      |db[c].ForeignKeys()[k].refColumns| == 1
    ensures forall name, where :: KeepsReferences(db, Delete(name, where))
  {
    forall c, k | c in db && 0 <= k < |db[c].ForeignKeys()| ensures CascadeExact(db, db[c].ForeignKeys()[k]) {
      var fk := db[c].ForeignKeys()[k];
      if fk.Action() == Cascade && fk.refTable in db { SingleColumnExact(db[fk.refTable], fk.refColumns); }
    }
    forall name, where ensures KeepsReferences(db, Delete(name, where)) { WholeCatalogExact(db, DeleteSeed(db, name, where)); }
  }
}
