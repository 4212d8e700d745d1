/**
 CHECK expressions against SQL's three-valued logic, in which a CHECK rejects a row only when it is
 false. The evaluator turns an unknown comparison into true where it stands, so a NOT above it rejects.
*/
module CheckLogic {
  import opened Basics
  import opened Catalog
  import opened Constraints

  datatype Truth = True | False | Unknown

  function Negation(a: Truth): Truth {
    match a
    case True => False
    case False => True
    case Unknown => Unknown
  }

  function Conjunction(a: Truth, b: Truth): Truth {
    if a == False || b == False then False else if a == True && b == True then True else Unknown
  }

  function Disjunction(a: Truth, b: Truth): Truth {
    if a == True || b == True then True else if a == False && b == False then False else Unknown
  }

  function Comparisons(e: CheckExpr): (n: nat) {
    match e
    case CheckAnd(l, r) => Comparisons(l) + Comparisons(r)
    case CheckOr(l, r) => Comparisons(l) + Comparisons(r)
    case CheckNot(i) => Comparisons(i)
    case CheckCompare(_, _, _) => 1
  }

  /** The expression in three-valued logic, given its comparisons in order. */
  function SqlValue(e: CheckExpr, vals: seq<Truth>): Truth
    requires |vals| == Comparisons(e)
  {
    match e
    case CheckAnd(l, r) => Conjunction(SqlValue(l, vals[..Comparisons(l)]), SqlValue(r, vals[Comparisons(l)..]))
    case CheckOr(l, r) => Disjunction(SqlValue(l, vals[..Comparisons(l)]), SqlValue(r, vals[Comparisons(l)..]))
    case CheckNot(i) => Negation(SqlValue(i, vals))
    case CheckCompare(_, _, _) => vals[0]
  }

  /** The evaluator: an unknown comparison passes where it stands. */
  predicate Passes(e: CheckExpr, vals: seq<Truth>)
    requires |vals| == Comparisons(e)
  {
    match e
    case CheckAnd(l, r) => Passes(l, vals[..Comparisons(l)]) && Passes(r, vals[Comparisons(l)..])
    case CheckOr(l, r) => Passes(l, vals[..Comparisons(l)]) || Passes(r, vals[Comparisons(l)..])
    case CheckNot(i) => !Passes(i, vals)
    case CheckCompare(_, _, _) => vals[0] != False
  }

  /** Every comparison stands under an even number of NOTs, counting from `odd`. */
  predicate EvenlyNegated(e: CheckExpr, odd: bool) {
    match e
    case CheckAnd(l, r) => EvenlyNegated(l, odd) && EvenlyNegated(r, odd)
    case CheckOr(l, r) => EvenlyNegated(l, odd) && EvenlyNegated(r, odd)
    case CheckNot(i) => EvenlyNegated(i, !odd)
    case CheckCompare(_, _, _) => !odd
  }

  /** What SQL lets through: not false, and below an odd number of NOTs, true. */
  predicate SqlPasses(v: Truth, odd: bool) {
    if odd then v == True else v != False
  }

  lemma {:induction false} EvenReads(e: CheckExpr, odd: bool, vals: seq<Truth>)
    requires |vals| == Comparisons(e) && EvenlyNegated(e, odd)
    ensures Passes(e, vals) == SqlPasses(SqlValue(e, vals), odd)
    decreases e
  {
    match e
    case CheckAnd(l, r) =>
      EvenReads(l, odd, vals[..Comparisons(l)]);
      EvenReads(r, odd, vals[Comparisons(l)..]);
    case CheckOr(l, r) =>
      EvenReads(l, odd, vals[..Comparisons(l)]);
      EvenReads(r, odd, vals[Comparisons(l)..]);
    case CheckNot(i) =>
      EvenReads(i, !odd, vals);
    case CheckCompare(_, _, _) =>
  }

  /** Values that make an expression true, or false. */
  lemma {:induction false} Forced(e: CheckExpr, b: bool) returns (vals: seq<Truth>)
    ensures |vals| == Comparisons(e)
    ensures Passes(e, vals) == b && SqlValue(e, vals) == if b then True else False
    decreases e
  {
    match e
    case CheckAnd(l, r) =>
      var x := Forced(l, b);
      var y := Forced(r, b);
      vals := x + y;
      assert vals[..|x|] == x && vals[|x|..] == y;
    case CheckOr(l, r) =>
      var x := Forced(l, b);
      var y := Forced(r, b);
      vals := x + y;
      assert vals[..|x|] == x && vals[|x|..] == y;
    case CheckNot(i) =>
      vals := Forced(i, !b);
    case CheckCompare(_, _, _) =>
      vals := [if b then True else False];
  }

  /** An unevenly negated expression is misjudged for some values of its comparisons. */
  lemma {:induction false} Misjudged(e: CheckExpr, odd: bool) returns (vals: seq<Truth>)
    requires !EvenlyNegated(e, odd)
    ensures |vals| == Comparisons(e) && Passes(e, vals) != SqlPasses(SqlValue(e, vals), odd)
    decreases e
  {
    match e
    case CheckNot(i) =>
      vals := Misjudged(i, !odd);
    case CheckCompare(_, _, _) =>
      vals := [Unknown];
    case CheckAnd(l, r) =>
      vals := MisjudgedOperand(e, l, r, odd);
    case CheckOr(l, r) =>
      vals := MisjudgedOperand(e, l, r, odd);
  }

  lemma {:induction false} MisjudgedOperand(e: CheckExpr, l: CheckExpr, r: CheckExpr, odd: bool) returns (vals: seq<Truth>)
    requires e == CheckAnd(l, r) || e == CheckOr(l, r)
    requires !EvenlyNegated(l, odd) || !EvenlyNegated(r, odd)
    ensures |vals| == Comparisons(e) && Passes(e, vals) != SqlPasses(SqlValue(e, vals), odd)
    decreases e, 0
  {
    var x, y;
    if !EvenlyNegated(l, odd) {
      x := Misjudged(l, odd);
      y := Forced(r, e.CheckAnd?);
    } else {
      x := Forced(l, e.CheckAnd?);
      y := Misjudged(r, odd);
    }
    vals := x + y;
    assert vals[..|x|] == x && vals[|x|..] == y;
  }

  /** The evaluator rejects exactly what SQL rejects, whatever the comparisons say, iff no NOT count is odd. */
  lemma CheckExactIff(e: CheckExpr)
    ensures EvenlyNegated(e, false) <==>
      forall vals: seq<Truth> :: |vals| == Comparisons(e) ==> (Passes(e, vals) <==> SqlValue(e, vals) != False)
  {
    if EvenlyNegated(e, false) {
      forall vals: seq<Truth> | |vals| == Comparisons(e) ensures Passes(e, vals) <==> SqlValue(e, vals) != False {
        EvenReads(e, false, vals);
      }
    } else {
      var vals := Misjudged(e, false);
    }
  }

  // ----- on rows -----

  /** A column's cell read as a signed integer, or a literal; None for a column the table does not have. */
  function Signed(o: CheckOperand, names: seq<string>, row: Row): Option<int> {
    match o
    case CheckInt(n) => Some(n)
    case CheckColumn(name) =>
      if name !in names then None else Some(AsI64(ValueOf(names, row, name)))
  }

  function Verdict(b: bool): Truth {
    if b then True else False
  }

  function ComparisonValue(l: CheckOperand, op: Comparison, r: CheckOperand, names: seq<string>, row: Row): Truth {
    var a, b := Signed(l, names, row), Signed(r, names, row);
    if a.None? || b.None? then Unknown
    else
      match op
      case Eq => Verdict(a.value == b.value)
      case NotEq => Verdict(a.value != b.value)
      case Lt => Verdict(a.value < b.value)
      case Gt => Verdict(b.value < a.value)
      case LtEq => Verdict(!(b.value < a.value))
      case GtEq => Verdict(!(a.value < b.value))
  }

  function ComparisonValues(e: CheckExpr, names: seq<string>, row: Row): (vals: seq<Truth>)
    ensures |vals| == Comparisons(e)
  {
    match e
    case CheckAnd(l, r) => ComparisonValues(l, names, row) + ComparisonValues(r, names, row)
    case CheckOr(l, r) => ComparisonValues(l, names, row) + ComparisonValues(r, names, row)
    case CheckNot(i) => ComparisonValues(i, names, row)
    case CheckCompare(l, op, r) => [ComparisonValue(l, op, r, names, row)]
  }

  /** The value of a CHECK on a row in SQL. */
  function SqlCheck(e: CheckExpr, names: seq<string>, row: Row): Truth {
    SqlValue(e, ComparisonValues(e, names, row))
  }

  lemma {:induction false} EvalIsPasses(e: CheckExpr, names: seq<string>, row: Row)
    ensures EvalCheck(e, names, row) == Passes(e, ComparisonValues(e, names, row))
    decreases e
  {
    match e
    case CheckAnd(l, r) =>
      EvalIsPasses(l, names, row);
      EvalIsPasses(r, names, row);
      SplitComparisons(l, r, names, row);
    case CheckOr(l, r) =>
      EvalIsPasses(l, names, row);
      EvalIsPasses(r, names, row);
      SplitComparisons(l, r, names, row);
    case CheckNot(i) =>
      EvalIsPasses(i, names, row);
    case CheckCompare(l, op, r) =>
  }

  lemma SplitComparisons(l: CheckExpr, r: CheckExpr, names: seq<string>, row: Row)
    ensures
      var x, y := ComparisonValues(l, names, row), ComparisonValues(r, names, row);
      (x + y)[..Comparisons(l)] == x && (x + y)[Comparisons(l)..] == y
  {
  }

  lemma {:induction false} KnownReads(e: CheckExpr, vals: seq<Truth>)
    requires |vals| == Comparisons(e) && Unknown !in vals
    ensures SqlValue(e, vals) == Verdict(Passes(e, vals))
    decreases e
  {
    match e
    case CheckAnd(l, r) =>
      KnownReads(l, vals[..Comparisons(l)]);
      KnownReads(r, vals[Comparisons(l)..]);
    case CheckOr(l, r) =>
      KnownReads(l, vals[..Comparisons(l)]);
      KnownReads(r, vals[Comparisons(l)..]);
    case CheckNot(i) =>
      KnownReads(i, vals);
    case CheckCompare(_, _, _) =>
      assert vals[0] in vals;
  }

  /** A row passes a CHECK iff SQL does not find it false, when all columns are known or every NOT count is even. */
  lemma CheckMeans(e: CheckExpr, names: seq<string>, row: Row)
    requires Unknown !in ComparisonValues(e, names, row) || EvenlyNegated(e, false)
    ensures EvalCheck(e, names, row) <==> SqlCheck(e, names, row) != False
  {
    var vals := ComparisonValues(e, names, row);
    EvalIsPasses(e, names, row);
    if EvenlyNegated(e, false) { EvenReads(e, false, vals); } else { KnownReads(e, vals); }
  }

  /** `CHECK (NOT (x > 5))` rejects every row of a table without a column `x`, where SQL finds it unknown. */
  lemma NotUnknownRejects(e: CheckExpr, row: Row)
    requires e == CheckNot(CheckCompare(CheckColumn("x"), Gt, CheckInt(5)))
    ensures !EvalCheck(e, ["k"], row) && SqlCheck(e, ["k"], row) == Unknown
  {
    assert "x"[0] != "k"[0];
    assert "x" !in ["k"];
    var vals := ComparisonValues(e, ["k"], row);
    assert vals == ComparisonValues(e.inner, ["k"], row) == [Unknown];
    assert SqlValue(e.inner, vals) == Unknown && Passes(e.inner, vals);
    EvalIsPasses(e, ["k"], row);
  }

  /** The CHECKs a table declares, on its columns and on itself. */
  ghost predicate Declares(schema: TableSchema, e: CheckExpr) {
    || e in schema.checks
    || exists i :: 0 <= i < |schema.columns| && schema.columns[i].check == Some(e)
  }

  /** All CHECKs of a table hold iff SQL finds none of those it declares false on any of its rows. */
  lemma ChecksHoldIff(t: Table, schema: TableSchema)
    requires t.schema == Some(schema) && forall e :: Declares(schema, e) ==> EvenlyNegated(e, false)
    ensures ChecksHold(t) <==> forall x, e :: x in t.Rows() && Declares(schema, e) ==> SqlCheck(e, t.columnNames, x) != False
  {
    forall x, e | x in t.Rows() && Declares(schema, e)
      ensures EvalCheck(e, t.columnNames, x) <==> SqlCheck(e, t.columnNames, x) != False
    {
      CheckMeans(e, t.columnNames, x);
    }
    if ChecksHold(t) {
      forall x, e | x in t.Rows() && Declares(schema, e) ensures EvalCheck(e, t.columnNames, x) { assert PassesChecks(t, x); }
    } else {
      var x :| x in t.Rows() && !PassesChecks(t, x);
      RejectedBy(t, schema, x);
    }
  }

  lemma RejectedBy(t: Table, schema: TableSchema, x: Row)
    requires t.schema == Some(schema) && !PassesChecks(t, x)
    ensures exists e :: Declares(schema, e) && !EvalCheck(e, t.columnNames, x)
  {
    if i :| 0 <= i < |schema.columns| && schema.columns[i].check.Some? && !EvalCheck(schema.columns[i].check.value, t.columnNames, x) {
      assert Declares(schema, schema.columns[i].check.value);
    } else {
      var i :| 0 <= i < |schema.checks| && !EvalCheck(schema.checks[i], t.columnNames, x);
      assert Declares(schema, schema.checks[i]);
    }
  }
}
