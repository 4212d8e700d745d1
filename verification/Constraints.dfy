/** UNIQUE, PRIMARY KEY and CHECK over the rows of one table, and FOREIGN KEY for new rows. */
module Constraints {
  import opened Basics
  import opened Catalog
  import opened CascadeWhere
  import opened ForeignKeys

  // ----- CHECK -----

  /** An operand as a signed integer; an unknown column is UNKNOWN. */
  function Operand(o: CheckOperand, names: seq<string>, row: Row): Option<int> {
    match o
    case CheckInt(n) => Some(n)
    case CheckColumn(name) =>
      match Position(names, name)
      case None => None
      case Some(c) => Some(AsI64(if c < |row| then row[c] else 0))
  }

  /** A CHECK is violated only when it is false; an UNKNOWN comparison passes. */
  predicate EvalCheck(e: CheckExpr, names: seq<string>, row: Row) {
    match e
    case CheckAnd(l, r) => EvalCheck(l, names, row) && EvalCheck(r, names, row)
    case CheckOr(l, r) => EvalCheck(l, names, row) || EvalCheck(r, names, row)
    case CheckNot(i) => !EvalCheck(i, names, row)
    case CheckCompare(l, op, r) =>
      var a, b := Operand(l, names, row), Operand(r, names, row);
      a.None? || b.None? || Compare(a.value, op, b.value)
  }

  /** Every column-level and table-level CHECK of the schema accepts the row. */
  predicate PassesChecks(t: Table, row: Row) {
    t.schema.None? || (
      && (forall i :: 0 <= i < |t.schema.value.columns| && t.schema.value.columns[i].check.Some? ==>
            EvalCheck(t.schema.value.columns[i].check.value, t.columnNames, row))
      && (forall i :: 0 <= i < |t.schema.value.checks| ==>
            EvalCheck(t.schema.value.checks[i], t.columnNames, row)))
  }

  // ----- UNIQUE -----

  /** The row's cells at a list of column positions. */
  function Project(row: Row, idxs: seq<nat>): (p: seq<u64>)
    ensures |p| == |idxs|
  {
    seq(|idxs|, i requires 0 <= i < |idxs| => if idxs[i] < |row| then row[idxs[i]] else 0)
  }

  /** The positions of a multi-column constraint; None when a column is unknown. */
  function Positions(names: seq<string>, cols: seq<string>): Option<seq<nat>> {
    if cols == [] then Some([])
    else
      match (Position(names, cols[0]), Positions(names, cols[1..]))
      case (Some(p), Some(rest)) => Some([p] + rest)
      case _ => None
  }

  /** A column set that INSERT and UPDATE both keep duplicate-free. */
  predicate IsUniqueSet(t: Table, set_: seq<nat>) {
    t.schema.Some? && (
      || (|set_| == 1 && set_[0] < |t.schema.value.columns| && t.schema.value.columns[set_[0]].unique)
      || (exists k :: 0 <= k < |t.schema.value.uniqueConstraints|
            && Positions(t.columnNames, t.schema.value.uniqueConstraints[k]) == Some(set_)))
  }

  /** A column set that only INSERT checks. */
  predicate IsPrimaryKey(t: Table, set_: seq<nat>) {
    t.schema.Some? && |set_| == 1 && set_[0] < |t.schema.value.columns| && t.schema.value.columns[set_[0]].primaryKey
  }

  ghost predicate DupFree(rows: seq<Row>, idxs: seq<nat>) {
    forall i, j :: 0 <= i < j < |rows| ==> Project(rows[i], idxs) != Project(rows[j], idxs)
  }

  ghost predicate Taken(rows: seq<Row>, idxs: seq<nat>, row: Row) {
    exists i :: 0 <= i < |rows| && Project(rows[i], idxs) == Project(row, idxs)
  }

  ghost predicate UniqueHolds(t: Table) {
    forall s: seq<nat> :: IsUniqueSet(t, s) ==> DupFree(t.Rows(), s)
  }

  ghost predicate PrimaryKeyHolds(t: Table) {
    forall s: seq<nat> :: IsPrimaryKey(t, s) ==> DupFree(t.Rows(), s)
  }

  ghost predicate ChecksHold(t: Table) {
    forall x :: x in t.Rows() ==> PassesChecks(t, x)
  }

  // ----- removing rows -----

  lemma {:induction false} KeepDupFree(rows: seq<Row>, name: string, dead: set<RowId>, idxs: seq<nat>)
    requires DupFree(rows, idxs)
    ensures DupFree(Keep(rows, name, dead), idxs)
  {
    if rows != [] {
      var rest := Keep(rows[1..], name, dead);
      KeepDupFree(rows[1..], name, dead, idxs);
      forall j | 0 <= j < |rest| ensures Project(rows[0], idxs) != Project(rest[j], idxs) {
        assert rest[j] in rows[1..];
        var i :| 0 <= i < |rows[1..]| && rows[1..][i] == rest[j];
        assert rows[i + 1] == rest[j];
      }
    }
  }

  /** A DELETE keeps every constraint of every table it prunes. */
  lemma PrunedConstraints(name: string, t: Table, t1: Table, dead: set<RowId>)
    requires PrunedTable(name, t, t1, dead)
    ensures UniqueHolds(t) ==> UniqueHolds(t1)
    ensures PrimaryKeyHolds(t) ==> PrimaryKeyHolds(t1)
    ensures ChecksHold(t) ==> ChecksHold(t1)
  {
    forall s: seq<nat> | DupFree(t.Rows(), s) ensures DupFree(t1.Rows(), s) {
      KeepDupFree(t.Rows(), name, dead, s);
    }
  }

  // ----- adding rows -----

  /** `t` with rows pushed onto every column. */
  function Appended(t: Table, rows: seq<Row>): (t1: Table)
    requires t.Valid() && forall k :: 0 <= k < |rows| ==> |rows[k]| == |t.columns|
    ensures t1.Valid() && t1.columnNames == t.columnNames && t1.schema == t.schema
    ensures t1.rowCount == t.rowCount + |rows|
  {
    t.(columns := seq(|t.columns|, c requires 0 <= c < |t.columns| =>
         t.columns[c] + seq(|rows|, k requires 0 <= k < |rows| => rows[k][c])),
       rowCount := t.rowCount + |rows|)
  }

  lemma AppendedRows(t: Table, rows: seq<Row>)
    requires t.Valid() && forall k :: 0 <= k < |rows| ==> |rows[k]| == |t.columns|
    ensures Appended(t, rows).Rows() == t.Rows() + rows
  {
    var t1 := Appended(t, rows);
    forall i | 0 <= i < t1.rowCount ensures t1.RowAt(i) == (t.Rows() + rows)[i] {
      forall c | 0 <= c < |t.columns| ensures t1.Cell(c, i) == (t.Rows() + rows)[i][c] {
        if i < t.rowCount { assert t1.columns[c][i] == t.columns[c][i]; }
      }
    }
  }

  /** What INSERT checks of each new row against the rows already there. */
  ghost predicate RowAccepted(t: Table, row: Row) {
    && PassesChecks(t, row)
    && (forall s: seq<nat> :: IsUniqueSet(t, s) || IsPrimaryKey(t, s) ==> !Taken(t.Rows(), s, row))
  }

  ghost predicate RowsAccepted(t: Table, rows: seq<Row>) {
    forall k :: 0 <= k < |rows| ==> RowAccepted(t, rows[k])
  }

  /** The new rows do not collide with each other. */
  ghost predicate BatchDistinct(t: Table, rows: seq<Row>) {
    forall s: seq<nat> :: IsUniqueSet(t, s) || IsPrimaryKey(t, s) ==> DupFree(rows, s)
  }

  lemma AppendDupFree(rows: seq<Row>, more: seq<Row>, s: seq<nat>)
    requires DupFree(rows, s) && forall k :: 0 <= k < |more| ==> !Taken(rows, s, more[k])
    ensures DupFree(rows + more, s) <==> DupFree(more, s)
  {
    var all := rows + more;
    if DupFree(more, s) {
      forall i, j | 0 <= i < j < |all| ensures Project(all[i], s) != Project(all[j], s) {
        if i < |rows| && j >= |rows| { assert !Taken(rows, s, more[j - |rows|]); }
      }
    }
    if DupFree(all, s) {
      forall i, j | 0 <= i < j < |more| ensures Project(more[i], s) != Project(more[j], s) {
        assert all[|rows| + i] == more[i] && all[|rows| + j] == more[j];
      }
    }
  }

  /**
   An accepted INSERT keeps the keys duplicate-free iff its own rows do not collide: the
   checks only look at the rows that were there before the statement.
  */
  lemma InsertKeepsUnique(t: Table, rows: seq<Row>)
    requires t.Valid() && forall k :: 0 <= k < |rows| ==> |rows[k]| == |t.columns|
    requires UniqueHolds(t) && PrimaryKeyHolds(t) && RowsAccepted(t, rows)
    ensures UniqueHolds(Appended(t, rows)) && PrimaryKeyHolds(Appended(t, rows)) <==> BatchDistinct(t, rows)
  {
    AppendedRows(t, rows);
    forall s: seq<nat> | IsUniqueSet(t, s) || IsPrimaryKey(t, s)
      ensures DupFree(t.Rows() + rows, s) <==> DupFree(rows, s)
    {
      forall k | 0 <= k < |rows| ensures !Taken(t.Rows(), s, rows[k]) { assert RowAccepted(t, rows[k]); }
      AppendDupFree(t.Rows(), rows, s);
    }
  }

  /** A row is accepted iff the table with that row alone added satisfies all its constraints. */
  lemma RowAcceptedIff(t: Table, row: Row)
    requires t.Valid() && |row| == |t.columns| && UniqueHolds(t) && PrimaryKeyHolds(t) && ChecksHold(t)
    ensures
      var t1 := Appended(t, [row]);
      RowAccepted(t, row) <==> UniqueHolds(t1) && PrimaryKeyHolds(t1) && ChecksHold(t1)
  {
    var t1 := Appended(t, [row]);
    AppendedRows(t, [row]);
    if RowAccepted(t, row) {
      InsertKeepsUnique(t, [row]);
      InsertKeepsChecks(t, [row]);
    }
    if UniqueHolds(t1) && PrimaryKeyHolds(t1) && ChecksHold(t1) {
      assert t1.Rows()[t.rowCount] == row && row in t1.Rows();
      assert PassesChecks(t1, row);
      forall s: seq<nat> | IsUniqueSet(t, s) || IsPrimaryKey(t, s) ensures !Taken(t.Rows(), s, row) {
        assert IsUniqueSet(t1, s) || IsPrimaryKey(t1, s);
        assert DupFree(t1.Rows(), s);
        forall i | 0 <= i < t.rowCount ensures Project(t.Rows()[i], s) != Project(row, s) {
          assert t1.Rows()[i] == t.Rows()[i];
        }
      }
    }
  }

  /** What UNIQUE means: no two rows share the cell of a UNIQUE column, or all cells of a UNIQUE constraint. */
  lemma UniqueHoldsIff(t: Table, schema: TableSchema)
    requires t.Valid() && t.schema == Some(schema) && |schema.columns| == |t.columns|
    ensures UniqueHolds(t) <==>
      && (forall c, i, j :: 0 <= c < |schema.columns| && schema.columns[c].unique && 0 <= i < j < t.rowCount ==>
            t.columns[c][i] != t.columns[c][j])
      && (forall k, s :: 0 <= k < |schema.uniqueConstraints| && Positions(t.columnNames, schema.uniqueConstraints[k]) == Some(s) ==>
            DupFree(t.Rows(), s))
  {
    forall c | 0 <= c < |schema.columns|
      ensures DupFree(t.Rows(), [c]) <==> forall i, j :: 0 <= i < j < t.rowCount ==> t.columns[c][i] != t.columns[c][j]
    {
      OneColumnDupFree(t, c);
    }
    if UniqueHolds(t) {
      forall c, i, j | 0 <= c < |schema.columns| && schema.columns[c].unique && 0 <= i < j < t.rowCount
        ensures t.columns[c][i] != t.columns[c][j]
      {
        assert IsUniqueSet(t, [c]);
      }
      forall k, s | 0 <= k < |schema.uniqueConstraints| && Positions(t.columnNames, schema.uniqueConstraints[k]) == Some(s)
        ensures DupFree(t.Rows(), s)
      {
        assert IsUniqueSet(t, s);
      }
    } else {
      var s: seq<nat> :| IsUniqueSet(t, s) && !DupFree(t.Rows(), s);
      if |s| == 1 { assert s == [s[0]]; }
    }
  }

  /** What PRIMARY KEY means: no two rows share the cell of a PRIMARY KEY column. */
  lemma PrimaryKeyHoldsIff(t: Table, schema: TableSchema)
    requires t.Valid() && t.schema == Some(schema) && |schema.columns| == |t.columns|
    ensures PrimaryKeyHolds(t) <==>
      forall c, i, j :: 0 <= c < |schema.columns| && schema.columns[c].primaryKey && 0 <= i < j < t.rowCount ==>
        t.columns[c][i] != t.columns[c][j]
  {
    forall c | 0 <= c < |schema.columns|
      ensures DupFree(t.Rows(), [c]) <==> forall i, j :: 0 <= i < j < t.rowCount ==> t.columns[c][i] != t.columns[c][j]
    {
      OneColumnDupFree(t, c);
    }
    if PrimaryKeyHolds(t) {
      forall c, i, j | 0 <= c < |schema.columns| && schema.columns[c].primaryKey && 0 <= i < j < t.rowCount
        ensures t.columns[c][i] != t.columns[c][j]
      {
        assert IsPrimaryKey(t, [c]);
      }
    } else {
      var s: seq<nat> :| IsPrimaryKey(t, s) && !DupFree(t.Rows(), s);
      assert s == [s[0]];
    }
  }

  lemma OneColumnDupFree(t: Table, c: nat)
    requires t.Valid() && c < |t.columns|
    ensures DupFree(t.Rows(), [c]) <==> forall i, j :: 0 <= i < j < t.rowCount ==> t.columns[c][i] != t.columns[c][j]
  {
    forall i | 0 <= i < t.rowCount ensures Project(t.Rows()[i], [c]) == [t.columns[c][i]] { }
    if DupFree(t.Rows(), [c]) {
      forall i, j | 0 <= i < j < t.rowCount ensures t.columns[c][i] != t.columns[c][j] {
        assert Project(t.Rows()[i], [c]) != Project(t.Rows()[j], [c]);
      }
    }
  }

  lemma InsertKeepsChecks(t: Table, rows: seq<Row>)
    requires t.Valid() && forall k :: 0 <= k < |rows| ==> |rows[k]| == |t.columns|
    requires ChecksHold(t) && RowsAccepted(t, rows)
    ensures ChecksHold(Appended(t, rows))
  {
    AppendedRows(t, rows);
    forall x | x in rows ensures PassesChecks(Appended(t, rows), x) {
      var k :| 0 <= k < |rows| && rows[k] == x;
      assert RowAccepted(t, rows[k]);
    }
  }

  // ----- changing rows -----

  datatype Assignment = Assignment(col: nat, value: u64)

  /** A row after the assignments, applied left to right. */
  function Assign(row: Row, assigns: seq<Assignment>): (r: Row)
    ensures |r| == |row|
    decreases |assigns|
  {
    if assigns == [] then row
    else
      var a := assigns[|assigns| - 1];
      var r := Assign(row, assigns[..|assigns| - 1]);
      if a.col < |r| then r[a.col := a.value] else r
  }

  predicate Assigns(assigns: seq<Assignment>, c: nat) {
    exists k :: 0 <= k < |assigns| && assigns[k].col == c
  }

  /** An assigned column ends with the same value in every row; others keep theirs. */
  lemma {:induction false} AssignCell(r1: Row, r2: Row, assigns: seq<Assignment>, c: nat)
    requires c < |r1| == |r2|
    ensures Assigns(assigns, c) ==> Assign(r1, assigns)[c] == Assign(r2, assigns)[c]
    ensures !Assigns(assigns, c) ==> Assign(r1, assigns)[c] == r1[c]
    decreases |assigns|
  {
    if assigns != [] {
      var n := |assigns| - 1;
      AssignCell(r1, r2, assigns[..n], c);
      assert Assigns(assigns, c) <==> Assigns(assigns[..n], c) || assigns[n].col == c by {
        if Assigns(assigns[..n], c) {
          var k :| 0 <= k < n && assigns[..n][k].col == c;
          assert assigns[k].col == c;
        }
        if Assigns(assigns, c) {
          var k :| 0 <= k < |assigns| && assigns[k].col == c;
          if k < n { assert assigns[..n][k].col == c; }
        }
      }
    }
  }

  /** No later assignment names the column of assignment `k`. */
  predicate IsLast(assigns: seq<Assignment>, k: int) {
    0 <= k < |assigns| && forall j :: k < j < |assigns| ==> assigns[j].col != assigns[k].col
  }

  /** Every assigned column holds the last value given to it, every other column what it held. */
  ghost predicate CellsWritten(row: Row, row1: Row, assigns: seq<Assignment>) {
    && |row1| == |row|
    && (forall k :: IsLast(assigns, k) && assigns[k].col < |row| ==> row1[assigns[k].col] == assigns[k].value)
    && (forall c :: 0 <= c < |row| && !Assigns(assigns, c) ==> row1[c] == row[c])
  }

  lemma {:induction false} AssignedValue(row: Row, assigns: seq<Assignment>, k: nat)
    requires IsLast(assigns, k) && assigns[k].col < |row|
    ensures Assign(row, assigns)[assigns[k].col] == assigns[k].value
    decreases |assigns|
  {
    var n := |assigns| - 1;
    if k < n {
      assert IsLast(assigns[..n], k);
      AssignedValue(row, assigns[..n], k);
    }
  }

  lemma {:induction false} LastAssignment(assigns: seq<Assignment>, c: nat) returns (k: nat)
    requires Assigns(assigns, c)
    ensures IsLast(assigns, k) && assigns[k].col == c
    decreases |assigns|
  {
    var n := |assigns| - 1;
    if assigns[n].col == c {
      k := n;
    } else {
      var j :| 0 <= j < |assigns| && assigns[j].col == c;
      assert assigns[..n][j].col == c;
      k := LastAssignment(assigns[..n], c);
    }
  }

  /** A row after the assignments is the one row in which each assigned column holds its last value. */
  lemma AssignIff(row: Row, row1: Row, assigns: seq<Assignment>)
    ensures row1 == Assign(row, assigns) <==> CellsWritten(row, row1, assigns)
  {
    var r := Assign(row, assigns);
    forall k | IsLast(assigns, k) && assigns[k].col < |row| ensures r[assigns[k].col] == assigns[k].value {
      AssignedValue(row, assigns, k);
    }
    forall c | 0 <= c < |row| && !Assigns(assigns, c) ensures r[c] == row[c] { AssignCell(row, row, assigns, c); }
    if CellsWritten(row, row1, assigns) {
      forall c | 0 <= c < |row| ensures row1[c] == r[c] {
        if Assigns(assigns, c) { var k := LastAssignment(assigns, c); }
      }
    }
  }

  /** `t` with the assignments applied to the masked rows of every column. */
  function Updated(t: Table, mask: seq<bool>, assigns: seq<Assignment>): (t1: Table)
    requires t.Valid() && |mask| == t.rowCount
    ensures t1.Valid() && t1.columnNames == t.columnNames && t1.schema == t.schema && t1.rowCount == t.rowCount
    ensures t1.Rows() == seq(t.rowCount, i requires 0 <= i < t.rowCount =>
      if mask[i] then Assign(t.RowAt(i), assigns) else t.RowAt(i))
  {
    var t1 := t.(columns := seq(|t.columns|, c requires 0 <= c < |t.columns| =>
      seq(t.rowCount, i requires 0 <= i < t.rowCount =>
        if mask[i] then Assign(t.RowAt(i), assigns)[c] else t.columns[c][i])));
    assert forall i :: 0 <= i < t.rowCount ==>
      t1.RowAt(i) == if mask[i] then Assign(t.RowAt(i), assigns) else t.RowAt(i);
    t1
  }

  lemma UpdatedWritten(t: Table, mask: seq<bool>, assigns: seq<Assignment>)
    requires t.Valid() && |mask| == t.rowCount
    ensures
      var t1 := Updated(t, mask, assigns);
      forall i :: 0 <= i < t.rowCount ==>
        if mask[i] then CellsWritten(t.RowAt(i), t1.RowAt(i), assigns) else t1.RowAt(i) == t.RowAt(i)
  {
    var t1 := Updated(t, mask, assigns);
    forall i | 0 <= i < t.rowCount
      ensures if mask[i] then CellsWritten(t.RowAt(i), t1.RowAt(i), assigns) else t1.RowAt(i) == t.RowAt(i)
    {
      assert t1.Rows()[i] == t1.RowAt(i);
      AssignIff(t.RowAt(i), t1.RowAt(i), assigns);
    }
  }

  /** What UPDATE checks of one matched row against all the other rows as they were. */
  ghost predicate ChangeAccepted(t: Table, i: nat, row: Row) {
    && PassesChecks(t, row)
    && (forall s: seq<nat> :: IsUniqueSet(t, s) ==>
          forall j :: 0 <= j < t.rowCount && j != i ==> Project(t.RowAt(j), s) != Project(row, s))
  }

  ghost predicate ChangesAccepted(t: Table, mask: seq<bool>, assigns: seq<Assignment>)
    requires |mask| == t.rowCount
  {
    forall i :: 0 <= i < t.rowCount && mask[i] ==> ChangeAccepted(t, i, Assign(t.RowAt(i), assigns))
  }

  /** Two rows agree on the columns of `s` that the statement does not assign. */
  ghost predicate AgreeUnassigned(r1: Row, r2: Row, s: seq<nat>, assigns: seq<Assignment>) {
    forall k :: 0 <= k < |s| && s[k] < |r1| && !Assigns(assigns, s[k]) ==> s[k] < |r2| && r1[s[k]] == r2[s[k]]
  }

  /** No two matched rows agree on the part of a unique set that the statement leaves alone. */
  ghost predicate MatchesApart(t: Table, mask: seq<bool>, assigns: seq<Assignment>)
    requires |mask| == t.rowCount
  {
    forall s: seq<nat> :: IsUniqueSet(t, s) ==> MatchesApartOn(t, mask, assigns, s)
  }

  ghost predicate MatchesApartOn(t: Table, mask: seq<bool>, assigns: seq<Assignment>, s: seq<nat>)
    requires |mask| == t.rowCount
  {
    forall i, j :: 0 <= i < j < t.rowCount && mask[i] && mask[j] ==> !AgreeUnassigned(t.RowAt(i), t.RowAt(j), s, assigns)
  }

  lemma AssignProject(r1: Row, r2: Row, assigns: seq<Assignment>, s: seq<nat>)
    requires |r1| == |r2|
    ensures Project(Assign(r1, assigns), s) == Project(Assign(r2, assigns), s) <==> AgreeUnassigned(r1, r2, s, assigns)
  {
    var a, b := Assign(r1, assigns), Assign(r2, assigns);
    forall k | 0 <= k < |s| && s[k] < |r1|
      ensures a[s[k]] == b[s[k]] <==> Assigns(assigns, s[k]) || r1[s[k]] == r2[s[k]]
    {
      AssignCell(r1, r2, assigns, s[k]);
      AssignCell(r2, r1, assigns, s[k]);
    }
    if AgreeUnassigned(r1, r2, s, assigns) {
      assert forall k :: 0 <= k < |s| ==> Project(a, s)[k] == Project(b, s)[k];
    } else {
      var k :| 0 <= k < |s| && s[k] < |r1| && !Assigns(assigns, s[k]) && r1[s[k]] != r2[s[k]];
      assert Project(a, s)[k] != Project(b, s)[k];
    }
  }

  /**
   An accepted UPDATE keeps the UNIQUE sets duplicate-free iff no two rows it matches agree on
   the unassigned columns of such a set: matched rows are compared with the old contents of
   each other only.
  */
  lemma UpdateKeepsUnique(t: Table, mask: seq<bool>, assigns: seq<Assignment>)
    requires t.Valid() && |mask| == t.rowCount && UniqueHolds(t) && ChangesAccepted(t, mask, assigns)
    ensures UniqueHolds(Updated(t, mask, assigns)) <==> MatchesApart(t, mask, assigns)
  {
    var t1 := Updated(t, mask, assigns);
    forall s: seq<nat> | IsUniqueSet(t, s)
      ensures DupFree(t1.Rows(), s) <==> MatchesApartOn(t, mask, assigns, s)
    {
      UpdateKeepsUniqueSet(t, mask, assigns, s);
    }
    assert forall s: seq<nat> :: IsUniqueSet(t1, s) <==> IsUniqueSet(t, s);
  }

  lemma UpdateKeepsUniqueSet(t: Table, mask: seq<bool>, assigns: seq<Assignment>, s: seq<nat>)
    requires t.Valid() && |mask| == t.rowCount && UniqueHolds(t) && ChangesAccepted(t, mask, assigns) && IsUniqueSet(t, s)
    ensures DupFree(Updated(t, mask, assigns).Rows(), s) <==> MatchesApartOn(t, mask, assigns, s)
  {
    var rows, rows1 := t.Rows(), Updated(t, mask, assigns).Rows();
    assert DupFree(rows, s);
    forall i, j | 0 <= i < j < t.rowCount
      ensures Project(rows1[i], s) == Project(rows1[j], s) <==>
        mask[i] && mask[j] && AgreeUnassigned(t.RowAt(i), t.RowAt(j), s, assigns)
    {
      assert Project(rows[i], s) != Project(rows[j], s);
      if mask[i] { assert ChangeAccepted(t, i, Assign(t.RowAt(i), assigns)); }
      if mask[j] { assert ChangeAccepted(t, j, Assign(t.RowAt(j), assigns)); }
      if mask[i] && mask[j] { AssignProject(t.RowAt(i), t.RowAt(j), assigns, s); }
    }
    if !MatchesApartOn(t, mask, assigns, s) {
      var i, j :| 0 <= i < j < t.rowCount && mask[i] && mask[j] && AgreeUnassigned(t.RowAt(i), t.RowAt(j), s, assigns);
      assert Project(rows1[i], s) == Project(rows1[j], s);
    }
    if MatchesApartOn(t, mask, assigns, s) {
      forall i, j | 0 <= i < j < |rows1| ensures Project(rows1[i], s) != Project(rows1[j], s) { }
    }
  }

  lemma UpdateKeepsChecks(t: Table, mask: seq<bool>, assigns: seq<Assignment>)
    requires t.Valid() && |mask| == t.rowCount && ChecksHold(t) && ChangesAccepted(t, mask, assigns)
    ensures ChecksHold(Updated(t, mask, assigns))
  {
    var t1 := Updated(t, mask, assigns);
    forall x | x in t1.Rows() ensures PassesChecks(t1, x) {
      var i :| 0 <= i < t1.rowCount && t1.Rows()[i] == x;
      if mask[i] { assert ChangeAccepted(t, i, Assign(t.RowAt(i), assigns)); } else { assert t.Rows()[i] == x; }
      assert PassesChecks(t, x);
    }
  }

  /** The UPDATE of a single row is accepted iff the table with that row changed satisfies UNIQUE and CHECK. */
  lemma SingleChangeIff(t: Table, mask: seq<bool>, assigns: seq<Assignment>, i: nat)
    requires t.Valid() && |mask| == t.rowCount && UniqueHolds(t) && ChecksHold(t)
    requires i < t.rowCount && forall j :: 0 <= j < t.rowCount ==> (mask[j] <==> j == i)
    ensures ChangesAccepted(t, mask, assigns) <==> UniqueHolds(Updated(t, mask, assigns)) && ChecksHold(Updated(t, mask, assigns))
  {
    var t1, row := Updated(t, mask, assigns), Assign(t.RowAt(i), assigns);
    assert t1.Rows()[i] == row && row in t1.Rows();
    if ChangesAccepted(t, mask, assigns) {
      UpdateKeepsUnique(t, mask, assigns);
      UpdateKeepsChecks(t, mask, assigns);
    }
    if UniqueHolds(t1) && ChecksHold(t1) {
      assert PassesChecks(t1, row);
      forall s: seq<nat>, j | IsUniqueSet(t, s) && 0 <= j < t.rowCount && j != i ensures Project(t.RowAt(j), s) != Project(row, s) {
        assert IsUniqueSet(t1, s) && DupFree(t1.Rows(), s);
        assert t1.Rows()[j] == t.RowAt(j);
        if j < i { assert Project(t1.Rows()[j], s) != Project(t1.Rows()[i], s); }
        else { assert Project(t1.Rows()[i], s) != Project(t1.Rows()[j], s); }
      }
    }
  }

  /** At most one row matches and no unmatched row holds the value it is given. */
  ghost predicate KeyStaysFree(t: Table, mask: seq<bool>, assigns: seq<Assignment>, c: nat)
    requires |mask| == t.rowCount && c < |t.columns|
  {
    forall i, j :: 0 <= i < t.rowCount && 0 <= j < t.rowCount && i != j && mask[i] ==>
      !mask[j] && t.RowAt(j)[c] != Assign(t.RowAt(i), assigns)[c]
  }

  /**
   UPDATE never checks a PRIMARY KEY that is not also declared UNIQUE. An accepted UPDATE of such a
   column keeps it duplicate-free iff at most one row matches and no unmatched row holds the new value.
  */
  lemma UpdatePrimaryKey(t: Table, mask: seq<bool>, assigns: seq<Assignment>, c: nat)
    requires t.Valid() && |mask| == t.rowCount && c < |t.columns| && IsPrimaryKey(t, [c]) && DupFree(t.Rows(), [c])
    requires ChangesAccepted(t, mask, assigns) && Assigns(assigns, c)
    ensures DupFree(Updated(t, mask, assigns).Rows(), [c]) <==> KeyStaysFree(t, mask, assigns, c)
  {
    var rows, rows1 := t.Rows(), Updated(t, mask, assigns).Rows();
    forall i | 0 <= i < t.rowCount ensures Project(rows1[i], [c]) == [rows1[i][c]] && Project(rows[i], [c]) == [rows[i][c]] { }
    forall i, j | 0 <= i < t.rowCount && 0 <= j < t.rowCount ensures Assign(rows[i], assigns)[c] == Assign(rows[j], assigns)[c] {
      AssignCell(rows[i], rows[j], assigns, c);
    }
    if DupFree(rows1, [c]) {
      forall i, j | 0 <= i < t.rowCount && 0 <= j < t.rowCount && i != j && mask[i]
        ensures !mask[j] && t.RowAt(j)[c] != Assign(t.RowAt(i), assigns)[c]
      {
        var lo, hi := if i < j then i else j, if i < j then j else i;
        assert Project(rows1[lo], [c]) != Project(rows1[hi], [c]);
      }
    } else {
      var i, j :| 0 <= i < j < |rows1| && Project(rows1[i], [c]) == Project(rows1[j], [c]);
      assert Project(rows[i], [c]) != Project(rows[j], [c]);
      assert mask[i] || mask[j];
    }
  }

  /** Every assigned PRIMARY KEY column stays free of duplicates. */
  ghost predicate PrimaryKeysStayFree(t: Table, mask: seq<bool>, assigns: seq<Assignment>)
    requires |mask| == t.rowCount
  {
    forall c: nat :: c < |t.columns| && IsPrimaryKey(t, [c]) && Assigns(assigns, c) ==> KeyStaysFree(t, mask, assigns, c)
  }

  lemma UpdateLeavesColumn(t: Table, mask: seq<bool>, assigns: seq<Assignment>, c: nat)
    requires t.Valid() && |mask| == t.rowCount && !(c < |t.columns| && Assigns(assigns, c))
    ensures DupFree(Updated(t, mask, assigns).Rows(), [c]) <==> DupFree(t.Rows(), [c])
  {
    var rows, rows1 := t.Rows(), Updated(t, mask, assigns).Rows();
    forall i | 0 <= i < t.rowCount ensures Project(rows1[i], [c]) == Project(rows[i], [c]) {
      if c < |t.columns| { AssignCell(rows[i], rows[i], assigns, c); }
    }
  }

  /** An accepted UPDATE keeps the PRIMARY KEY columns duplicate-free iff each assigned one stays free. */
  lemma UpdateKeepsPrimaryKey(t: Table, mask: seq<bool>, assigns: seq<Assignment>)
    requires t.Valid() && |mask| == t.rowCount && PrimaryKeyHolds(t) && ChangesAccepted(t, mask, assigns)
    ensures PrimaryKeyHolds(Updated(t, mask, assigns)) <==> PrimaryKeysStayFree(t, mask, assigns)
  {
    var t1 := Updated(t, mask, assigns);
    forall c: nat | IsPrimaryKey(t, [c])
      ensures DupFree(t1.Rows(), [c]) <==> (c < |t.columns| && Assigns(assigns, c) ==> KeyStaysFree(t, mask, assigns, c))
    {
      assert DupFree(t.Rows(), [c]);
      if c < |t.columns| && Assigns(assigns, c) {
        UpdatePrimaryKey(t, mask, assigns, c);
      } else {
        UpdateLeavesColumn(t, mask, assigns, c);
      }
    }
    forall s: seq<nat> | IsPrimaryKey(t, s) ensures s == [s[0]] { }
    if PrimaryKeyHolds(t1) {
      forall c: nat | c < |t.columns| && IsPrimaryKey(t, [c]) && Assigns(assigns, c) ensures KeyStaysFree(t, mask, assigns, c) {
        assert IsPrimaryKey(t1, [c]);
      }
    }
  }

  // ----- FOREIGN KEY of new rows -----

  /** What `validate_foreign_keys` accepts for one row and one key. */
  ghost predicate KeySatisfied(db: Database, c: string, fk: ForeignKey, row: Row)
    requires c in db
  {
    Resolved(fk.columns, db[c].columnNames) ==>
      && fk.refTable in db
      && Resolved(fk.refColumns, db[fk.refTable].columnNames)
      && exists y :: y in db[fk.refTable].Rows()
           && Key(db[fk.refTable].columnNames, y, fk.refColumns) == Key(db[c].columnNames, row, fk.columns)
  }

  ghost predicate KeysSatisfied(db: Database, c: string, rows: seq<Row>)
    requires c in db
  {
    forall k, fk :: 0 <= k < |rows| && fk in db[c].ForeignKeys() ==> KeySatisfied(db, c, fk, rows[k])
  }

  /** `t1` holds every row of `t` that other tables may reference. */
  ghost predicate KeepsKeys(t: Table, t1: Table, cols: seq<string>) {
    forall y :: y in t.Rows() ==>
      exists z :: z in t1.Rows() && Key(t1.columnNames, z, cols) == Key(t.columnNames, y, cols)
  }

  /** Every key of `name` that some row references is still carried by a row of `t1`. */
  ghost predicate ReferencedKeysStay(db: Database, name: string, t1: Table) {
    forall c, fk, x, y :: References(db, c, fk, x, y) && fk.refTable == name ==>
      Carries(t1, fk.refColumns, Key(db[c].columnNames, x, fk.columns))
  }

  ghost predicate Carries(t: Table, cols: seq<string>, key: seq<u64>) {
    exists z :: z in t.Rows() && Key(t.columnNames, z, cols) == key
  }

  /**
   Replacing one table, its own rows being satisfied, keeps integrity iff every referenced key
   stays: nothing re-checks the children when a parent row changes.
  */
  lemma IntegrityReplaced(db: Database, name: string, t1: Table)
    requires name in db && WellFormed(db) && Integrity(db) && !ChildOf(db, name, name)
    requires t1.columnNames == db[name].columnNames && t1.schema == db[name].schema
    requires forall x, fk :: x in t1.Rows() && fk in t1.ForeignKeys() ==> x in db[name].Rows() || KeySatisfied(db, name, fk, x)
    ensures Integrity(db[name := t1]) <==> ReferencedKeysStay(db, name, t1)
  {
    var db1 := db[name := t1];
    if ReferencedKeysStay(db, name, t1) {
      forall c, fk, x | c in db1 && fk in db1[c].ForeignKeys() && x in db1[c].Rows() ensures HasParent(db1, c, fk, x) {
        ReplacedParent(db, name, t1, c, fk, x);
      }
    }
    if Integrity(db1) {
      forall c, fk, x, y | References(db, c, fk, x, y) && fk.refTable == name
        ensures Carries(t1, fk.refColumns, Key(db[c].columnNames, x, fk.columns))
      {
        assert ChildOf(db, c, name);
        assert x in db1[c].Rows();
        assert HasParent(db1, c, fk, x);
        var z :| References(db1, c, fk, x, z);
      }
    }
  }

  lemma ReplacedParent(db: Database, name: string, t1: Table, c: string, fk: ForeignKey, x: Row)
    requires name in db && WellFormed(db) && Integrity(db) && !ChildOf(db, name, name)
    requires t1.columnNames == db[name].columnNames && t1.schema == db[name].schema
    requires forall x, fk :: x in t1.Rows() && fk in t1.ForeignKeys() ==> x in db[name].Rows() || KeySatisfied(db, name, fk, x)
    requires ReferencedKeysStay(db, name, t1)
    requires c in db && fk in db[c].ForeignKeys() && x in (if c == name then t1 else db[c]).Rows()
    ensures HasParent(db[name := t1], c, fk, x)
  {
    var k :| 0 <= k < |db[c].ForeignKeys()| && db[c].ForeignKeys()[k] == fk;
    assert WellFormedKey(db, c, fk);
    var y := ParentOf(db, name, t1, c, fk, x);
    if fk.refTable == name {
      assert ChildOf(db, c, name);
      assert References(db, c, fk, x, y);
      assert Carries(t1, fk.refColumns, Key(db[c].columnNames, x, fk.columns));
      var z :| z in t1.Rows() && Key(t1.columnNames, z, fk.refColumns) == Key(db[c].columnNames, x, fk.columns);
      assert References(db[name := t1], c, fk, x, z);
    } else {
      assert References(db[name := t1], c, fk, x, y);
    }
  }

  lemma KeysKept(db: Database, name: string, t1: Table)
    requires name in db
    requires forall c, fk :: c in db && fk in db[c].ForeignKeys() && fk.refTable == name ==> KeepsKeys(db[name], t1, fk.refColumns)
    ensures ReferencedKeysStay(db, name, t1)
  {
    forall c, fk, x, y | References(db, c, fk, x, y) && fk.refTable == name
      ensures Carries(t1, fk.refColumns, Key(db[c].columnNames, x, fk.columns))
    {
      assert KeepsKeys(db[name], t1, fk.refColumns);
      var z :| z in t1.Rows() && Key(t1.columnNames, z, fk.refColumns) == Key(db[name].columnNames, y, fk.refColumns);
    }
  }

  lemma ParentOf(db: Database, name: string, t1: Table, c: string, fk: ForeignKey, x: Row) returns (y: Row)
    requires name in db && WellFormed(db) && Integrity(db) && c in db && fk in db[c].ForeignKeys()
    requires t1.columnNames == db[name].columnNames && t1.schema == db[name].schema
    requires forall x, fk :: x in t1.Rows() && fk in t1.ForeignKeys() ==> x in db[name].Rows() || KeySatisfied(db, name, fk, x)
    requires x in (if c == name then t1 else db[c]).Rows() && WellFormedKey(db, c, fk)
    ensures fk.refTable in db && y in db[fk.refTable].Rows()
    ensures Key(db[fk.refTable].columnNames, y, fk.refColumns) == Key(db[c].columnNames, x, fk.columns)
  {
    if x in db[c].Rows() {
      assert HasParent(db, c, fk, x);
      y :| References(db, c, fk, x, y);
    } else {
      assert KeySatisfied(db, name, fk, x);
      y :| y in db[fk.refTable].Rows() && Key(db[fk.refTable].columnNames, y, fk.refColumns) == Key(db[c].columnNames, x, fk.columns);
    }
  }

  // ----- FOREIGN KEY of the children of an updated table -----

  /** The key of matched row `i` is still there afterwards: the row keeps it, or an unmatched row carries it too. */
  ghost predicate KeyLives(t: Table, mask: seq<bool>, assigns: seq<Assignment>, cols: seq<string>, i: nat)
    requires |mask| == t.rowCount
  {
    var key := Key(t.columnNames, t.RowAt(i), cols);
    || Key(t.columnNames, Assign(t.RowAt(i), assigns), cols) == key
    || exists j :: 0 <= j < t.rowCount && !mask[j] && Key(t.columnNames, t.RowAt(j), cols) == key
  }

  /** Every matched row that some child row references keeps its key alive. */
  ghost predicate ReferencesSurvive(db: Database, name: string, mask: seq<bool>, assigns: seq<Assignment>)
    requires name in db && |mask| == db[name].rowCount
  {
    forall c, fk: ForeignKey, x, i :: 0 <= i < db[name].rowCount && mask[i] && fk.refTable == name && References(db, c, fk, x, db[name].RowAt(i)) ==>
      KeyLives(db[name], mask, assigns, fk.refColumns, i)
  }

  /** All matched rows receive the same constants, so no matched row can take over another's key. */
  lemma MatchedKey(t: Table, assigns: seq<Assignment>, cols: seq<string>, i: nat, j: nat)
    requires Key(t.columnNames, Assign(t.RowAt(j), assigns), cols) == Key(t.columnNames, t.RowAt(i), cols)
    ensures Key(t.columnNames, Assign(t.RowAt(i), assigns), cols) == Key(t.columnNames, t.RowAt(i), cols)
  {
    var names, row, other := t.columnNames, t.RowAt(i), t.RowAt(j);
    forall k | 0 <= k < |cols| ensures ValueOf(names, Assign(row, assigns), cols[k]) == ValueOf(names, row, cols[k]) {
      assert Key(names, Assign(other, assigns), cols)[k] == Key(names, row, cols)[k];
      var p := Position(names, cols[k]);
      if p.Some? && p.value < |row| { AssignCell(row, other, assigns, p.value); }
    }
  }

  lemma KeyLivesIff(t: Table, mask: seq<bool>, assigns: seq<Assignment>, cols: seq<string>, i: nat)
    requires t.Valid() && |mask| == t.rowCount && i < t.rowCount && mask[i]
    ensures KeyLives(t, mask, assigns, cols, i) <==> Carries(Updated(t, mask, assigns), cols, Key(t.columnNames, t.RowAt(i), cols))
  {
    var t1, key := Updated(t, mask, assigns), Key(t.columnNames, t.RowAt(i), cols);
    if KeyLives(t, mask, assigns, cols, i) {
      if Key(t.columnNames, Assign(t.RowAt(i), assigns), cols) == key {
        assert t1.Rows()[i] in t1.Rows();
      } else {
        var j :| 0 <= j < t.rowCount && !mask[j] && Key(t.columnNames, t.RowAt(j), cols) == key;
        assert t1.Rows()[j] in t1.Rows();
      }
    }
    if Carries(t1, cols, key) {
      var z :| z in t1.Rows() && Key(t1.columnNames, z, cols) == key;
      var j :| 0 <= j < t1.rowCount && t1.Rows()[j] == z;
      if mask[j] { MatchedKey(t, assigns, cols, i, j); }
    }
  }

  /** The condition on the rows before the statement says what must be there after it. */
  lemma ReferencesSurviveIff(db: Database, name: string, mask: seq<bool>, assigns: seq<Assignment>)
    requires name in db && db[name].Valid() && |mask| == db[name].rowCount
    ensures ReferencesSurvive(db, name, mask, assigns) <==> ReferencedKeysStay(db, name, Updated(db[name], mask, assigns))
  {
    var t, t1 := db[name], Updated(db[name], mask, assigns);
    if ReferencesSurvive(db, name, mask, assigns) {
      forall c, fk, x, y | References(db, c, fk, x, y) && fk.refTable == name
        ensures Carries(t1, fk.refColumns, Key(db[c].columnNames, x, fk.columns))
      {
        var i :| 0 <= i < t.rowCount && t.Rows()[i] == y;
        if mask[i] { KeyLivesIff(t, mask, assigns, fk.refColumns, i); } else { assert t1.Rows()[i] in t1.Rows(); }
      }
    }
    if ReferencedKeysStay(db, name, t1) {
      forall c, fk: ForeignKey, x, i | 0 <= i < t.rowCount && mask[i] && fk.refTable == name && References(db, c, fk, x, t.RowAt(i))
        ensures KeyLives(t, mask, assigns, fk.refColumns, i)
      {
        KeyLivesIff(t, mask, assigns, fk.refColumns, i);
      }
    }
  }
}
