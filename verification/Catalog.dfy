/** Tables stored column by column, their schemas, and the row view of a table. */
module Catalog {
  import opened Basics

  datatype ForeignKeyAction = Cascade | SetNull | SetDefault | Restrict | NoAction

  datatype ForeignKey = ForeignKey(
    columns: seq<string>,
    refTable: string,
    refColumns: seq<string>,
    onDelete: Option<ForeignKeyAction>)
  {
    function Action(): ForeignKeyAction {
      match onDelete
      case None => NoAction
      case Some(a) => a
    }
  }

  /** CHECK expressions over integer columns (the NULL-free fragment). */
  datatype CheckOperand = CheckColumn(name: string) | CheckInt(n: i64)
  datatype Comparison = Eq | NotEq | Lt | Gt | LtEq | GtEq
  datatype CheckExpr =
    | CheckAnd(left: CheckExpr, right: CheckExpr)
    | CheckOr(left: CheckExpr, right: CheckExpr)
    | CheckNot(inner: CheckExpr)
    | CheckCompare(lhs: CheckOperand, op: Comparison, rhs: CheckOperand)

  datatype ColumnSchema = ColumnSchema(name: string, primaryKey: bool, unique: bool, check: Option<CheckExpr>)

  datatype TableSchema = TableSchema(
    columns: seq<ColumnSchema>,
    checks: seq<CheckExpr>,
    uniqueConstraints: seq<seq<string>>,
    foreignKeys: seq<ForeignKey>)

  type Row = seq<u64>

  datatype Table = Table(
    columns: seq<seq<u64>>,
    columnNames: seq<string>,
    rowCount: nat,
    schema: Option<TableSchema>)
  {
    /** Every column has the same length, `rowCount`. */
    predicate Valid() {
      && |columns| == |columnNames|
      && forall c :: 0 <= c < |columns| ==> |columns[c]| == rowCount
    }

    /** `columns[c].get(i).copied().unwrap_or(0)` */
    function Cell(c: int, i: int): u64 {
      if 0 <= c < |columns| && 0 <= i < |columns[c]| then columns[c][i] else 0
    }

    function RowAt(i: int): (r: Row)
      ensures |r| == |columns|
    {
      seq(|columns|, c => Cell(c, i))
    }

    /** The table read row by row. */
    function Rows(): (r: seq<Row>)
      ensures |r| == rowCount
      ensures forall i :: 0 <= i < rowCount ==> r[i] == RowAt(i)
    {
      seq(rowCount, i => RowAt(i))
    }

    function ForeignKeys(): seq<ForeignKey> {
      match schema
      case None => []
      case Some(s) => s.foreignKeys
    }
  }

  /** Row `i` of a column store. */
  function RowOf(columns: seq<seq<u64>>, i: int): (r: Row)
    ensures |r| == |columns|
  {
    seq(|columns|, c requires 0 <= c < |columns| => if 0 <= i < |columns[c]| then columns[c][i] else 0)
  }

  type Database = map<string, Table>

  function Compare(a: int, op: Comparison, b: int): bool {
    match op
    case Eq => a == b
    case NotEq => a != b
    case Lt => a < b
    case Gt => a > b
    case LtEq => a <= b
    case GtEq => a >= b
  }

  /** The row's value of a named column; an unknown column reads as 0. */
  function ValueOf(names: seq<string>, row: Row, name: string): u64 {
    match Position(names, name)
    case None => 0
    case Some(c) => if c < |row| then row[c] else 0
  }

  /** The row's values of a list of named columns. */
  function Key(names: seq<string>, row: Row, cols: seq<string>): (k: seq<u64>)
    ensures |k| == |cols|
  {
    seq(|cols|, i requires 0 <= i < |cols| => ValueOf(names, row, cols[i]))
  }
}
