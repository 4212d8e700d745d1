/**
 What the WHERE clause of an UPDATE or DELETE means. A single test compares the cell with the
 literal; a larger condition is read from left to right without its parentheses, and the theorems
 say for which shapes that is the tree that was written.
*/
module WhereMeaning {
  import opened Basics
  import opened Catalog
  import opened DmlWhere
  import opened DeleteTheory

  // ----- one test -----

  /** `WHERE column op literal` selects a row iff its cell, read as an unsigned number, is =, !=, <, >, <= or >= the literal. */
  lemma TestSelects(t: Table, column: string, op: Comparison, v: i64, c: nat, i: nat)
    requires t.Valid() && Position(t.columnNames, column) == Some(c) && v >= 0 && i < t.rowCount
    ensures MatchMask(t, Some(Test(column, op, v))).Ok?
    ensures
      var selected, cell := MatchMask(t, Some(Test(column, op, v))).value[i], t.columns[c][i];
      && (op == Eq ==> (selected <==> cell == v))
      && (op == NotEq ==> (selected <==> cell != v))
      && (op == Lt ==> (selected <==> cell < v))
      && (op == Gt ==> (selected <==> cell > v))
      && (op == LtEq ==> (selected <==> cell <= v))
      && (op == GtEq ==> (selected <==> cell >= v))
  {
    var test := Test(column, op, v);
    WherePrinted(t, test);
    assert t.RowAt(i)[c] == t.columns[c][i];
    assert MatchMask(t, Some(test)).value[i] == FlatHolds(Flatten(test, t.columnNames), t.RowAt(i));
  }

  // ----- shapes -----

  function Leaves(c: Condition): (n: nat)
    ensures n >= 1
  {
    match c
    case Test(_, _, _) => 1
    case And(l, r) => Leaves(l) + Leaves(r)
    case Or(l, r) => Leaves(l) + Leaves(r)
  }

  /** The connectives in the order of the text, true for AND. */
  function Connectives(c: Condition): (ands: seq<bool>)
    ensures |ands| == Leaves(c) - 1
  {
    match c
    case Test(_, _, _) => []
    case And(l, r) => Connectives(l) + [true] + Connectives(r)
    case Or(l, r) => Connectives(l) + [false] + Connectives(r)
  }

  /** The tree, given the truth of its tests in the order of the text. */
  predicate TreeValue(c: Condition, vals: seq<bool>)
    requires |vals| == Leaves(c)
  {
    match c
    case Test(_, _, _) => vals[0]
    case And(l, r) => TreeValue(l, vals[..Leaves(l)]) && TreeValue(r, vals[Leaves(l)..])
    case Or(l, r) => TreeValue(l, vals[..Leaves(l)]) || TreeValue(r, vals[Leaves(l)..])
  }

  /** The text read from left to right. */
  predicate LeftValue(acc: bool, ands: seq<bool>, vals: seq<bool>)
    requires |ands| == |vals|
    decreases |vals|
  {
    if vals == [] then acc else LeftValue(if ands[0] then acc && vals[0] else acc || vals[0], ands[1..], vals[1..])
  }

  predicate TextValue(c: Condition, vals: seq<bool>)
    requires |vals| == Leaves(c)
  {
    LeftValue(vals[0], Connectives(c), vals[1..])
  }

  predicate AllConnectives(c: Condition, and: bool) {
    forall k :: 0 <= k < Leaves(c) - 1 ==> Connectives(c)[k] == and
  }

  /**
   Dropping the parentheses changes nothing: every right operand uses only the connective it stands
   under. Chains that nest to the left, and conditions with one kind of connective, are all of this shape.
  */
  predicate Straight(c: Condition) {
    match c
    case Test(_, _, _) => true
    case And(l, r) => Straight(l) && AllConnectives(r, true)
    case Or(l, r) => Straight(l) && AllConnectives(r, false)
  }

  lemma {:induction false} LeftValueAppend(acc: bool, ands: seq<bool>, vals: seq<bool>, ands1: seq<bool>, vals1: seq<bool>)
    requires |ands| == |vals| && |ands1| == |vals1|
    ensures LeftValue(acc, ands + ands1, vals + vals1) == LeftValue(LeftValue(acc, ands, vals), ands1, vals1)
    decreases |vals|
  {
    if vals == [] {
      assert ands + ands1 == ands1 && vals + vals1 == vals1;
    } else {
      assert (ands + ands1)[1..] == ands[1..] + ands1 && (vals + vals1)[1..] == vals[1..] + vals1;
      LeftValueAppend(if ands[0] then acc && vals[0] else acc || vals[0], ands[1..], vals[1..], ands1, vals1);
    }
  }

  /** The text of a binary node: the text of the left operand, then on with the right one. */
  lemma TextOfNode(l: Condition, r: Condition, and: bool, vals: seq<bool>)
    requires |vals| == Leaves(l) + Leaves(r)
    ensures
      var c := if and then And(l, r) else Or(l, r);
      TextValue(c, vals) ==
        LeftValue(TextValue(l, vals[..Leaves(l)]), [and] + Connectives(r), vals[Leaves(l)..])
  {
    var n := Leaves(l);
    var c := if and then And(l, r) else Or(l, r);
    assert Connectives(c) == Connectives(l) + ([and] + Connectives(r));
    assert vals[1..] == vals[..n][1..] + vals[n..];
    LeftValueAppend(vals[0], Connectives(l), vals[..n][1..], [and] + Connectives(r), vals[n..]);
  }

  /** One connective only: from left to right is all of them, or any of them. */
  lemma {:induction false} LeftValueUniform(acc: bool, ands: seq<bool>, vals: seq<bool>, and: bool)
    requires |ands| == |vals| && forall k :: 0 <= k < |ands| ==> ands[k] == and
    ensures LeftValue(acc, ands, vals) ==
      if and then acc && (forall k :: 0 <= k < |vals| ==> vals[k]) else acc || exists k :: 0 <= k < |vals| && vals[k]
    decreases |vals|
  {
    if vals != [] {
      LeftValueUniform(if and then acc && vals[0] else acc || vals[0], ands[1..], vals[1..], and);
      assert forall k :: 0 < k < |vals| ==> vals[k] == vals[1..][k - 1];
      if !and && exists k :: 0 <= k < |vals| && vals[k] {
        var k :| 0 <= k < |vals| && vals[k];
        if k > 0 { assert vals[1..][k - 1]; }
      }
    }
  }

  lemma {:induction false} TreeValueUniform(c: Condition, vals: seq<bool>, and: bool)
    requires |vals| == Leaves(c) && AllConnectives(c, and)
    ensures TreeValue(c, vals) == if and then forall k :: 0 <= k < |vals| ==> vals[k] else exists k :: 0 <= k < |vals| && vals[k]
    decreases c
  {
    if !c.Test? {
      var l, r := c.left, c.right;
      UniformParts(c, and);
      TreeValueUniform(l, vals[..Leaves(l)], and);
      TreeValueUniform(r, vals[Leaves(l)..], and);
      SplitValues(vals, Leaves(l));
    }
  }

  lemma UniformParts(c: Condition, and: bool)
    requires !c.Test? && AllConnectives(c, and)
    ensures c.And? == and && AllConnectives(c.left, and) && AllConnectives(c.right, and)
  {
    var n, ands := Leaves(c.left), Connectives(c);
    assert ands[n - 1] == c.And?;
    forall k | 0 <= k < n - 1 ensures Connectives(c.left)[k] == and { assert ands[k] == Connectives(c.left)[k]; }
    forall k | 0 <= k < Leaves(c.right) - 1 ensures Connectives(c.right)[k] == and { assert ands[n + k] == Connectives(c.right)[k]; }
  }

  lemma SplitValues(vals: seq<bool>, n: nat)
    requires n <= |vals|
    ensures (forall k :: 0 <= k < |vals| ==> vals[k]) <==>
      (forall k :: 0 <= k < n ==> vals[..n][k]) && (forall k :: 0 <= k < |vals| - n ==> vals[n..][k])
    ensures (exists k :: 0 <= k < |vals| && vals[k]) <==>
      (exists k :: 0 <= k < n && vals[..n][k]) || (exists k :: 0 <= k < |vals| - n && vals[n..][k])
  {
    assert forall k :: 0 <= k < n ==> vals[..n][k] == vals[k];
    assert forall k :: n <= k < |vals| ==> vals[k] == vals[n..][k - n];
    if k :| 0 <= k < |vals| - n && vals[n..][k] { assert vals[n + k]; }
  }

  lemma {:induction false} StraightReads(c: Condition, vals: seq<bool>)
    requires |vals| == Leaves(c) && Straight(c)
    ensures TextValue(c, vals) == TreeValue(c, vals)
    decreases c
  {
    if !c.Test? {
      var l, r, and := c.left, c.right, c.And?;
      var rest := vals[Leaves(l)..];
      StraightReads(l, vals[..Leaves(l)]);
      TextOfNode(l, r, and, vals);
      LeftValueUniform(TextValue(l, vals[..Leaves(l)]), [and] + Connectives(r), rest, and);
      TreeValueUniform(r, rest, and);
    }
  }

  // ----- every other shape is misread -----

  function Constant(n: nat, b: bool): (s: seq<bool>)
    ensures |s| == n && forall k :: 0 <= k < n ==> s[k] == b
  {
    seq(n, _ => b)
  }

  lemma {:induction false} TreeConstant(c: Condition, b: bool)
    ensures TreeValue(c, Constant(Leaves(c), b)) == b
  {
    if !c.Test? {
      TreeConstant(c.left, b);
      TreeConstant(c.right, b);
      var n := Leaves(c.left);
      assert Constant(Leaves(c), b)[..n] == Constant(n, b) && Constant(Leaves(c), b)[n..] == Constant(Leaves(c.right), b);
    }
  }

  /** A connective that lets a constant operand decide sets the value, and the rest does not change it back. */
  lemma {:induction false} LeftValueConstant(acc: bool, ands: seq<bool>, b: bool)
    requires acc == b || exists k :: 0 <= k < |ands| && ands[k] != b
    ensures LeftValue(acc, ands, Constant(|ands|, b)) == b
    decreases |ands|
  {
    if ands != [] {
      var acc1 := if ands[0] then acc && b else acc || b;
      assert Constant(|ands|, b)[1..] == Constant(|ands[1..]|, b);
      if acc1 != b {
        var k :| 0 <= k < |ands| && ands[k] != b;
        assert ands[1..][k - 1] != b;
      }
      LeftValueConstant(acc1, ands[1..], b);
    }
  }

  /** Values on which text and tree differ. */
  lemma {:induction false} Misread(c: Condition) returns (vals: seq<bool>)
    requires !Straight(c)
    ensures |vals| == Leaves(c) && TextValue(c, vals) != TreeValue(c, vals)
    decreases c
  {
    var l, r, and := c.left, c.right, c.And?;
    var n := Leaves(l);
    if AllConnectives(r, and) {
      var left := Misread(l);
      vals := left + Constant(Leaves(r), and);
      assert vals[..n] == left && vals[n..] == Constant(Leaves(r), and);
      TextOfNode(l, r, and, vals);
      TreeConstant(r, and);
      LeftValueUniform(TextValue(l, left), [and] + Connectives(r), Constant(Leaves(r), and), and);
    } else {
      vals := Constant(n, !and) + Constant(Leaves(r), and);
      assert vals[..n] == Constant(n, !and) && vals[n..] == Constant(Leaves(r), and);
      TextOfNode(l, r, and, vals);
      TreeConstant(l, !and);
      var k :| 0 <= k < Leaves(r) - 1 && Connectives(r)[k] != and;
      var ands := [and] + Connectives(r);
      assert ands[k + 1] != and;
      LeftValueConstant(TextValue(l, vals[..n]), ands, and);
    }
  }

  /** Reading the text from left to right is reading the tree, whatever the tests say, iff the shape is straight. */
  lemma StraightIff(c: Condition)
    ensures Straight(c) <==> forall vals: seq<bool> :: |vals| == Leaves(c) ==> TextValue(c, vals) == TreeValue(c, vals)
  {
    if Straight(c) {
      forall vals: seq<bool> | |vals| == Leaves(c) ensures TextValue(c, vals) == TreeValue(c, vals) { StraightReads(c, vals); }
    } else {
      var vals := Misread(c);
    }
  }

  // ----- on tables -----

  /** The truth of the tests of a condition on a row, in the order of the text. */
  function TestValues(c: Condition, names: seq<string>, row: Row): (vals: seq<bool>)
    ensures |vals| == Leaves(c)
  {
    match c
    case Test(col, op, v) => [Compare(ValueOf(names, row, col), op, AsU64(v))]
    case And(l, r) => TestValues(l, names, row) + TestValues(r, names, row)
    case Or(l, r) => TestValues(l, names, row) + TestValues(r, names, row)
  }

  lemma {:induction false} TreeOfTests(c: Condition, names: seq<string>, row: Row)
    ensures TreeHolds(c, names, row) == TreeValue(c, TestValues(c, names, row))
  {
    if !c.Test? {
      var a, b := TestValues(c.left, names, row), TestValues(c.right, names, row);
      TreeOfTests(c.left, names, row);
      TreeOfTests(c.right, names, row);
      assert (a + b)[..Leaves(c.left)] == a && (a + b)[Leaves(c.left)..] == b;
    }
  }

  lemma {:induction false} FlatOfTests(c: Condition, names: seq<string>, row: Row)
    requires Readable(c, names)
    ensures
      var f := Flatten(c, names);
      && f.ands == Connectives(c) && |f.preds| == Leaves(c)
      && forall k :: 0 <= k < |f.preds| ==> Holds(f.preds[k], row) == TestValues(c, names, row)[k]
  {
    if !c.Test? {
      FlatOfTests(c.left, names, row);
      FlatOfTests(c.right, names, row);
    }
  }

  lemma {:induction false} FoldIsLeftValue(acc: bool, preds: seq<Predicate>, ands: seq<bool>, row: Row, vals: seq<bool>)
    requires |preds| == |ands| == |vals| && forall k :: 0 <= k < |preds| ==> Holds(preds[k], row) == vals[k]
    ensures Fold(acc, preds, ands, row) == LeftValue(acc, ands, vals)
    decreases |preds|
  {
    if preds != [] {
      FoldIsLeftValue(if ands[0] then acc && vals[0] else acc || vals[0], preds[1..], ands[1..], row, vals[1..]);
    }
  }

  lemma TextOfTests(c: Condition, names: seq<string>, row: Row)
    requires Readable(c, names)
    ensures FlatHolds(Flatten(c, names), row) == TextValue(c, TestValues(c, names, row))
  {
    var f, vals := Flatten(c, names), TestValues(c, names, row);
    FlatOfTests(c, names, row);
    FoldIsLeftValue(vals[0], f.preds[1..], f.ands, row, vals[1..]);
  }

  /** The evaluator's answer on a row is the written tree's for every straight readable condition. */
  lemma FlatIsTree(c: Condition, names: seq<string>, row: Row)
    requires Readable(c, names) && Straight(c)
    ensures FlatHolds(Flatten(c, names), row) <==> TreeHolds(c, names, row)
  {
    TextOfTests(c, names, row);
    TreeOfTests(c, names, row);
    StraightReads(c, TestValues(c, names, row));
  }

  /** UPDATE and DELETE address row `i` iff the written condition holds of it, for every straight readable condition. */
  lemma WhereSelects(t: Table, c: Condition)
    requires t.Valid() && Readable(c, t.columnNames) && Straight(c)
    ensures
      var r := MatchMask(t, Some(c));
      r.Ok? && forall i :: 0 <= i < t.rowCount ==> (r.value[i] <==> TreeHolds(c, t.columnNames, t.RowAt(i)))
  {
    if t.rowCount > 0 {
      WherePrinted(t, c);
      forall i | 0 <= i < t.rowCount ensures MatchMask(t, Some(c)).value[i] <==> TreeHolds(c, t.columnNames, t.RowAt(i)) {
        FlatIsTree(c, t.columnNames, t.RowAt(i));
      }
    }
  }
}
