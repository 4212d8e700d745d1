/** The two WHERE evaluators of the query side: the dispatcher's masks and the compiled clause. */
module Predicates {
  import opened Basics
  import opened Catalog
  import opened Text
  import L = Like

  datatype SqlValue = IntVal(n: i64) | StringVal(s: string) | NullVal

  datatype BinOp = Cmp(op: Comparison) | And | Or | Arithmetic

  datatype Expr =
    | Column(name: string)
    | Literal(value: SqlValue)
    | Binary(left: Expr, op: BinOp, right: Expr)
    | LikeExpr(operand: Expr, pattern: Expr, negated: bool)

  /** A table as queries see it: u64 columns with optional 32-bit and string sidecars. */
  datatype QTable = QTable(
    columns: seq<seq<u64>>,
    columnNames: seq<string>,
    rowCount: nat,
    i32s: seq<Option<seq<int>>>,
    strings: seq<Option<seq<string>>>)
  {
    /** Columns are equally long, and their indices fit a machine word. */
    predicate Valid() {
      && |columns| == |columnNames| <= TWO_64
      && forall c :: 0 <= c < |columns| ==> |columns[c]| == rowCount
    }

    function RowAt(i: int): Row {
      RowOf(columns, i)
    }
  }

  // ----- literals -----

  function Negative(s: string): bool {
    s != [] && s[0] == '-'
  }

  /** `str::parse::<i64>`: an optional sign, digits, no overflow. */
  function ParseI64(s: string): Option<i64> {
    var digits := if s != [] && (s[0] == '+' || s[0] == '-') then s[1..] else s;
    if digits == [] || !AllDigits(digits) then None
    else
      var n: int := if Negative(s) then 0 - Value(digits) else Value(digits);
      if -TWO_63 <= n < TWO_63 then Some(n) else None
  }

  /** The dispatcher reads a string literal as u64 first, then as i64, then hashes it. */
  function DispatchCell(v: SqlValue, hash: string -> u64): Option<u64> {
    match v
    case IntVal(n) => Some(AsU64(n))
    case StringVal(s) =>
      (match ParseU64(s)
       case Some(n) => Some(n)
       case None =>
         if ParseI64(s).Some? then Some(AsU64(ParseI64(s).value)) else Some(hash(s)))
    case NullVal => None
  }

  /** The compiled clause reads it as i64 first, then hashes it. */
  function CompiledCell(v: SqlValue, hash: string -> u64): Option<u64> {
    match v
    case IntVal(n) => Some(AsU64(n))
    case StringVal(s) =>
      (match ParseI64(s)
       case Some(n) => Some(AsU64(n))
       case None => Some(hash(s)))
    case NullVal => None
  }

  /** A decimal string between 2^63 and 2^64 is a number to one evaluator and a hash to the other. */
  predicate LiteralSplits(v: SqlValue, hash: string -> u64) {
    v.StringVal? && ParseU64(v.s).Some? && ParseU64(v.s).value >= TWO_63 && hash(v.s) != ParseU64(v.s).value
  }

  lemma CellsAgreeIff(v: SqlValue, hash: string -> u64)
    ensures DispatchCell(v, hash) == CompiledCell(v, hash) <==> !LiteralSplits(v, hash)
  {
    if v.StringVal? && ParseU64(v.s).Some? {
      var s, n := v.s, ParseU64(v.s).value;
      if n < TWO_63 { assert ParseI64(s) == Some(n); } else { assert ParseI64(s) == None; }
    }
  }

  // ----- the dispatcher -----

  function Zip(a: seq<bool>, b: seq<bool>, and: bool): seq<bool> {
    seq(if |a| < |b| then |a| else |b|, i requires 0 <= i < |a| && i < |b| => if and then a[i] && b[i] else a[i] || b[i])
  }

  /** `(column, value)` of a comparison, in either order; the operator is never flipped. */
  function ColumnAndValue(left: Expr, right: Expr): Option<(string, SqlValue)> {
    if left.Column? && right.Literal? then Some((left.name, right.value))
    else if left.Literal? && right.Column? then Some((right.name, left.value))
    else None
  }

  function CompareMask(col: seq<u64>, op: Comparison, cell: u64): (m: seq<bool>)
    ensures |m| == |col|
  {
    seq(|col|, i requires 0 <= i < |col| => Compare(col[i], op, cell))
  }

  /** The 32-bit sidecar of a column, when it can answer the comparison. */
  function I32Mask(t: QTable, c: nat, op: Comparison, v: SqlValue): Option<seq<bool>> {
    if c < |t.i32s| && t.i32s[c].Some? && v.IntVal? && -0x8000_0000 <= v.n < 0x8000_0000 then
      var col := t.i32s[c].value;
      Some(seq(|col|, i requires 0 <= i < |col| => Compare(col[i], op, v.n)))
    else None
  }

  /** Lexicographic order of strings. */
  predicate StringLess(a: string, b: string) {
    b != [] && (a == [] || a[0] < b[0] || (a[0] == b[0] && StringLess(a[1..], b[1..])))
  }

  predicate StringCompare(a: string, op: Comparison, b: string) {
    match op
    case Eq => a == b
    case NotEq => a != b
    case Lt => StringLess(a, b)
    case Gt => StringLess(b, a)
    case LtEq => !StringLess(b, a)
    case GtEq => !StringLess(a, b)
  }

  /** Order comparisons of a string column with a string literal compare the strings themselves. */
  function StringRangeMask(t: QTable, c: nat, op: Comparison, v: SqlValue): Option<seq<bool>> {
    if op != Eq && op != NotEq && v.StringVal? && c < |t.strings| && t.strings[c].Some? then
      var texts := t.strings[c].value;
      Some(seq(t.rowCount, i => StringCompare(if 0 <= i < |texts| then texts[i] else "", op, v.s)))
    else None
  }

  // ----- column names -----

  /** The text after the first dot, up to the second one if any. */
  function Bare(name: string): Option<string> {
    match Find(name, ".")
    case None => None
    case Some(k) =>
      var rest := name[k + 1..];
      match Find(rest, ".")
      case None => Some(rest)
      case Some(j) => Some(rest[..j])
  }

  predicate Names(column: string, name: string) {
    || column == name
    || Bare(column) == Some(name)
    || (|column| > |name| && column[|column| - |name| - 1..] == "." + name)
  }

  function FirstNamed(columns: seq<string>, name: string): Option<nat> {
    if columns == [] then None
    else if Names(columns[0], name) then Some(0)
    else
      match FirstNamed(columns[1..], name)
      case None => None
      case Some(k) => Some(k + 1)
  }

  /** The dispatcher's lookup: the exact name, the name without its prefix, then any qualified match. */
  function ResolveColumn(columns: seq<string>, name: string): Option<nat> {
    if Position(columns, name).Some? then Position(columns, name)
    else
      var bare := Bare(name);
      if bare.Some? && Position(columns, bare.value).Some? then Position(columns, bare.value)
      else FirstNamed(columns, name)
  }

  function EvalPredicateMask(e: Expr, t: QTable, hash: string -> u64): Option<seq<bool>>
    decreases e, 1
  {
    match e
    case LikeExpr(_, _, _) => TryStringLikeFilter(e, t, hash)
    case Binary(l, op, r) =>
      if op == And || op == Or then TryStringLikeFilter(e, t, hash)
      else
        var cv := ColumnAndValue(l, r);
        if cv.None? then None
        else
          var c := ResolveColumn(t.columnNames, cv.value.0);
          if c.None? || c.value >= |t.columns| || op.Arithmetic? then None
          else
            var narrow := I32Mask(t, c.value, op.op, cv.value.1);
            if narrow.Some? then narrow
            else
              var texts := StringRangeMask(t, c.value, op.op, cv.value.1);
              if texts.Some? then texts
              else
                var cell := DispatchCell(cv.value.1, hash);
                if cell.None? then None else Some(CompareMask(t.columns[c.value], op.op, cell.value))
    case Column(_) => None
    case Literal(_) => None
  }

  function TryStringLikeFilter(e: Expr, t: QTable, hash: string -> u64): Option<seq<bool>>
    decreases e, 0
  {
    match e
    case LikeExpr(operand, pattern, negated) =>
      var cv := ColumnAndValue(operand, pattern);
      if cv.None? || !cv.value.1.StringVal? then None
      else
        var c := ResolveColumn(t.columnNames, cv.value.0);
        if c.None? || c.value >= |t.strings| || t.strings[c.value].None? then None
        else
          var strings := t.strings[c.value].value;
          Some(seq(|strings|, i requires 0 <= i < |strings| => L.Shortcut(cv.value.1.s, strings[i]) != negated))
    case Binary(l, op, r) =>
      if op == And || op == Or then
        match (EvalPredicateMask(l, t, hash), EvalPredicateMask(r, t, hash))
        case (Some(a), Some(b)) => Some(Zip(a, b, op == And))
        case (None, _) => None
        case (_, None) => None
      else None
    case Column(_) => None
    case Literal(_) => None
  }

  // ----- the compiled clause -----

  datatype Filter = Filter(col: nat, op: Comparison, value: u64)

  datatype WhereClause =
    | NoFilter
    | Single(filter: Filter)
    | AndClause(left: WhereClause, right: WhereClause)
    | OrClause(left: WhereClause, right: WhereClause)

  function ParseExpr(e: Expr, t: QTable, hash: string -> u64): Result<WhereClause> {
    match e
    case Binary(l, op, r) =>
      if op == And || op == Or then
        var a := ParseExpr(l, t, hash);
        var b := ParseExpr(r, t, hash);
        if a.Err? then a
        else if b.Err? then b
        else Ok(if op == And then AndClause(a.value, b.value) else OrClause(a.value, b.value))
      else if op.Arithmetic? then Err(Other("unsupported operator"))
      else
        var cv := ColumnAndValue(l, r);
        if cv.None? then Err(Other("WHERE clause must be col OP literal"))
        else
          var c := Position(t.columnNames, cv.value.0);
          var cell := CompiledCell(cv.value.1, hash);
          if c.None? then Err(NotFound(cv.value.0))
          else if cell.None? then Err(Other("cannot convert NULL to u64"))
          else Ok(Single(Filter(c.value, op.op, cell.value)))
    case Column(_) => Err(Other("unsupported WHERE expression"))
    case Literal(_) => Err(Other("unsupported WHERE expression"))
    case LikeExpr(_, _, _) => Err(Other("unsupported WHERE expression"))
  }

  predicate RowMatches(w: WhereClause, row: Row) {
    match w
    case NoFilter => true
    case Single(f) => f.col < |row| && Compare(row[f.col], f.op, f.value)
    case AndClause(l, r) => RowMatches(l, row) && RowMatches(r, row)
    case OrClause(l, r) => RowMatches(l, row) || RowMatches(r, row)
  }

  // ----- agreement -----

  /** A sidecar holds the column's cells as signed integers. */
  predicate Faithful(t: QTable, c: nat) {
    && c < |t.columns| && c < |t.i32s| && t.i32s[c].Some?
    && |t.i32s[c].value| == |t.columns[c]|
    && forall i :: 0 <= i < |t.columns[c]| ==> t.i32s[c].value[i] == AsI64(t.columns[c][i])
  }

  /** Comparing as signed and as unsigned integers gives the same answer. */
  predicate SignsAgree(cell: u64, op: Comparison, n: i64) {
    op == Eq || op == NotEq || (AsI64(cell) >= 0 <==> n >= 0)
  }

  /** What a comparison on row `i` must satisfy for the two evaluators to agree. */
  predicate PlainLeaf(name: string, op: Comparison, v: SqlValue, t: QTable, hash: string -> u64, i: nat) {
    && !LiteralSplits(v, hash)
    && (Position(t.columnNames, name).Some? ==>
          var c := Position(t.columnNames, name).value;
          && StringRangeMask(t, c, op, v).None?
          && (I32Mask(t, c, op, v).Some? ==> Faithful(t, c) && i < |t.columns[c]| && SignsAgree(t.columns[c][i], op, v.n)))
  }

  predicate Plain(e: Expr, t: QTable, hash: string -> u64, i: nat) {
    match e
    case Binary(l, op, r) =>
      if op == And || op == Or then Plain(l, t, hash, i) && Plain(r, t, hash, i)
      else
        var cv := ColumnAndValue(l, r);
        op.Cmp? && cv.Some? ==> PlainLeaf(cv.value.0, op.op, cv.value.1, t, hash, i)
    case Column(_) => true
    case Literal(_) => true
    case LikeExpr(_, _, _) => true
  }

  /** The mask a tree gives row `i` is what the compiled clause says of that row. */
  ghost predicate Agrees(e: Expr, t: QTable, hash: string -> u64, i: nat) {
    && ParseExpr(e, t, hash).Ok?
    && EvalPredicateMask(e, t, hash).Some?
    && |EvalPredicateMask(e, t, hash).value| == t.rowCount
    && i < t.rowCount
    && (EvalPredicateMask(e, t, hash).value[i] <==> RowMatches(ParseExpr(e, t, hash).value, t.RowAt(i)))
  }

  lemma LeafAgrees(l: Expr, op: Comparison, r: Expr, t: QTable, hash: string -> u64, i: nat)
    requires t.Valid() && i < t.rowCount && ParseExpr(Binary(l, Cmp(op), r), t, hash).Ok?
    requires Plain(Binary(l, Cmp(op), r), t, hash, i)
    ensures Agrees(Binary(l, Cmp(op), r), t, hash, i)
  {
    var (name, v) := ColumnAndValue(l, r).value;
    var c := Position(t.columnNames, name).value;
    CellsAgreeIff(v, hash);
    assert t.RowAt(i)[c] == t.columns[c][i];
  }

  /** Wherever the clause compiles, the dispatcher's mask marks exactly the rows it accepts. */
  lemma {:induction false} EvaluatorsAgree(e: Expr, t: QTable, hash: string -> u64, i: nat)
    requires t.Valid() && i < t.rowCount && ParseExpr(e, t, hash).Ok? && Plain(e, t, hash, i)
    ensures Agrees(e, t, hash, i)
    decreases e
  {
    if e.op == And || e.op == Or {
      EvaluatorsAgree(e.left, t, hash, i);
      EvaluatorsAgree(e.right, t, hash, i);
    } else {
      LeafAgrees(e.left, e.op.op, e.right, t, hash, i);
    }
  }

  /** What the comparison would mean with each operand on its own side. */
  predicate Meaning(e: Expr, t: QTable, hash: string -> u64, row: Row) {
    match e
    case Binary(l, op, r) =>
      if op == And then Meaning(l, t, hash, row) && Meaning(r, t, hash, row)
      else if op == Or then Meaning(l, t, hash, row) || Meaning(r, t, hash, row)
      else if op.Arithmetic? then false
      else
        var a, b := OperandValue(l, t, hash, row), OperandValue(r, t, hash, row);
        a.Some? && b.Some? && Compare(a.value, op.op, b.value)
    case _ => false
  }

  function OperandValue(e: Expr, t: QTable, hash: string -> u64, row: Row): Option<u64> {
    match e
    case Column(name) =>
      (match Position(t.columnNames, name)
       case None => None
       case Some(c) => Some(if c < |row| then row[c] else 0))
    case Literal(v) => CompiledCell(v, hash)
    case _ => None
  }

  /** Every order comparison has its column on the left. */
  predicate ColumnsLeft(e: Expr) {
    match e
    case Binary(l, op, r) =>
      if op == And || op == Or then ColumnsLeft(l) && ColumnsLeft(r)
      else op == Cmp(Eq) || op == Cmp(NotEq) || l.Column?
    case _ => true
  }

  /** With columns on the left the compiled clause is the unsigned comparison tree. */
  lemma {:induction false} CompiledMeans(e: Expr, t: QTable, hash: string -> u64, row: Row)
    requires |row| == |t.columnNames| && ParseExpr(e, t, hash).Ok? && ColumnsLeft(e)
    ensures RowMatches(ParseExpr(e, t, hash).value, row) <==> Meaning(e, t, hash, row)
    decreases e
  {
    if e.op == And || e.op == Or {
      CompiledMeans(e.left, t, hash, row);
      CompiledMeans(e.right, t, hash, row);
    }
  }

  /** With the literal on the left both evaluators are right on every cell iff the operator is symmetric. */
  lemma LiteralLeftIff(op: Comparison, lit: u64)
    ensures (forall cell: u64 :: Compare(cell, op, lit) <==> Compare(lit, op, cell)) <==> op == Eq || op == NotEq
  {
    if op != Eq && op != NotEq {
      var other: u64 := if lit == 0 then 1 else lit - 1;
      assert Compare(other, op, lit) != Compare(lit, op, other);
    }
  }

  /**
   Through a 32-bit sidecar the dispatcher compares signed, the compiled clause unsigned: on a row
   they agree iff the operator is an equality or cell and literal have the same sign.
  */
  lemma SidecarAgreesIff(t: QTable, c: nat, op: Comparison, n: i64, i: nat)
    requires Faithful(t, c) && i < |t.columns[c]| && -0x8000_0000 <= n < 0x8000_0000
    ensures
      var narrow := I32Mask(t, c, op, IntVal(n));
      && narrow.Some? && i < |narrow.value|
      && ((narrow.value[i] <==> Compare(t.columns[c][i], op, AsU64(n))) <==> SignsAgree(t.columns[c][i], op, n))
  {
  }

  /** `WHERE column op n` compiles, and accepts a row iff its cell is =, !=, <, >, <= or >= the number. */
  lemma ComparisonAccepts(name: string, op: Comparison, n: i64, t: QTable, hash: string -> u64, c: nat, i: nat)
    requires t.Valid() && Position(t.columnNames, name) == Some(c) && n >= 0 && i < t.rowCount
    ensures ParseExpr(Binary(Column(name), Cmp(op), Literal(IntVal(n))), t, hash).Ok?
    ensures
      var accepted := RowMatches(ParseExpr(Binary(Column(name), Cmp(op), Literal(IntVal(n))), t, hash).value, t.RowAt(i));
      var cell := t.columns[c][i];
      && (op == Eq ==> (accepted <==> cell == n))
      && (op == NotEq ==> (accepted <==> cell != n))
      && (op == Lt ==> (accepted <==> cell < n))
      && (op == Gt ==> (accepted <==> cell > n))
      && (op == LtEq ==> (accepted <==> cell <= n))
      && (op == GtEq ==> (accepted <==> cell >= n))
  {
    assert t.RowAt(i)[c] == t.columns[c][i];
  }
}
