/**
 The WHERE clause that ON DELETE CASCADE sends to a child table, and exactly when the
 precedence-free evaluator selects the referencing rows with it.
*/
module CascadeWhere {
  import opened Basics
  import opened Catalog
  import opened DmlWhere

  function TupleAt(tuple: seq<u64>, i: nat): u64 {
    if i < |tuple| then tuple[i] else 0
  }

  /** `c0 = v0 AND c1 = v1 AND ...` over the first `n` columns. */
  function RowCondition(cols: seq<string>, tuple: seq<u64>, n: nat): Condition
    requires 1 <= n <= |cols|
  {
    var last := Test(cols[n - 1], Eq, AsI64(TupleAt(tuple, n - 1)));
    if n == 1 then last else And(RowCondition(cols, tuple, n - 1), last)
  }

  /** The disjunction of the first `m` row conditions. */
  function AnyRowCondition(cols: seq<string>, tuples: seq<seq<u64>>, m: nat): Condition
    requires cols != [] && 1 <= m <= |tuples|
  {
    var last := RowCondition(cols, tuples[m - 1], |cols|);
    if m == 1 then last else Or(AnyRowCondition(cols, tuples, m - 1), last)
  }

  function BuildCascadeWhere(cols: seq<string>, tuples: seq<seq<u64>>): Option<Condition> {
    if tuples == [] || cols == [] then None else Some(AnyRowCondition(cols, tuples, |tuples|))
  }

  // ----- what the built tree means -----

  ghost predicate SameWidth(cols: seq<string>, tuples: seq<seq<u64>>) {
    cols != [] && forall j :: 0 <= j < |tuples| ==> |tuples[j]| == |cols|
  }

  lemma {:induction false} RowConditionMeans(cols: seq<string>, tuple: seq<u64>, n: nat, names: seq<string>, row: Row)
    requires 1 <= n <= |cols| == |tuple|
    ensures TreeHolds(RowCondition(cols, tuple, n), names, row) <==> Key(names, row, cols)[..n] == tuple[..n]
  {
    var key := Key(names, row, cols);
    assert TreeHolds(Test(cols[n - 1], Eq, AsI64(TupleAt(tuple, n - 1))), names, row) <==> key[n - 1] == tuple[n - 1];
    if n > 1 {
      RowConditionMeans(cols, tuple, n - 1, names, row);
      assert key[..n] == key[..n - 1] + [key[n - 1]];
      assert tuple[..n] == tuple[..n - 1] + [tuple[n - 1]];
    }
  }

  /** The tree, read as a tree, selects exactly the rows whose key is one of the tuples. */
  lemma {:induction false} CascadeTreeMeans(cols: seq<string>, tuples: seq<seq<u64>>, m: nat, names: seq<string>, row: Row)
    requires SameWidth(cols, tuples) && 1 <= m <= |tuples|
    ensures TreeHolds(AnyRowCondition(cols, tuples, m), names, row) <==> Key(names, row, cols) in tuples[..m]
  {
    var key := Key(names, row, cols);
    RowConditionMeans(cols, tuples[m - 1], |cols|, names, row);
    assert key[..|cols|] == key && tuples[m - 1][..|cols|] == tuples[m - 1];
    assert tuples[..m] == tuples[..m - 1] + [tuples[m - 1]];
    if m > 1 {
      CascadeTreeMeans(cols, tuples, m - 1, names, row);
    }
  }

  // ----- what the evaluator computes -----

  /** Left to right with one precedence: `((r OR first) AND second) AND ...` for every tuple. */
  predicate LeftToRight(tuples: seq<seq<u64>>, key: seq<u64>)
    decreases |tuples|
  {
    tuples != [] && key != [] &&
    var last := tuples[|tuples| - 1];
    |last| == |key|
    && (LeftToRight(tuples[..|tuples| - 1], key) || key[0] == last[0])
    && key[1..] == last[1..]
  }

  lemma FoldConcat(acc: bool, p: seq<Predicate>, a: seq<bool>, q: seq<Predicate>, b: seq<bool>, row: Row)
    requires |a| == |p|
    ensures Fold(acc, p + q, a + b, row) == Fold(Fold(acc, p, a, row), q, b, row)
    decreases |p|
  {
    if p == [] {
      assert p + q == q && a + b == b;
    } else {
      assert (p + q)[1..] == p[1..] + q && (a + b)[1..] == a[1..] + b;
      FoldConcat(if a[0] then acc && Holds(p[0], row) else acc || Holds(p[0], row), p[1..], a[1..], q, b, row);
    }
  }

  predicate Resolved(cols: seq<string>, names: seq<string>) {
    forall i :: 0 <= i < |cols| ==> cols[i] in names
  }

  predicate Printable(tuple: seq<u64>, n: nat) {
    forall i: nat :: i < n ==> TupleAt(tuple, i) < TWO_63
  }

  lemma {:induction false} RowConditionReadable(cols: seq<string>, tuple: seq<u64>, n: nat, names: seq<string>)
    requires Resolved(cols, names) && 1 <= n <= |cols|
    ensures Readable(RowCondition(cols, tuple, n), names) <==> Printable(tuple, n)
  {
    if n > 1 {
      RowConditionReadable(cols, tuple, n - 1, names);
      assert Printable(tuple, n) <==> Printable(tuple, n - 1) && TupleAt(tuple, n - 1) < TWO_63;
    }
  }

  lemma {:induction false} AnyRowReadable(cols: seq<string>, tuples: seq<seq<u64>>, m: nat, names: seq<string>)
    requires cols != [] && Resolved(cols, names) && 1 <= m <= |tuples|
    ensures Readable(AnyRowCondition(cols, tuples, m), names)
      <==> forall j :: 0 <= j < m ==> Printable(tuples[j], |cols|)
  {
    RowConditionReadable(cols, tuples[m - 1], |cols|, names);
    if m > 1 {
      AnyRowReadable(cols, tuples, m - 1, names);
    }
  }

  function KeyTest(cols: seq<string>, tuple: seq<u64>, names: seq<string>, i: nat): Predicate
    requires i < |cols| && Resolved(cols, names)
  {
    Predicate(Position(names, cols[i]).value, Eq, TupleAt(tuple, i))
  }

  lemma KeyTestHolds(cols: seq<string>, tuple: seq<u64>, names: seq<string>, i: nat, row: Row)
    requires i < |cols| == |tuple| && Resolved(cols, names) && |row| == |names|
    ensures Holds(KeyTest(cols, tuple, names, i), row) <==> Key(names, row, cols)[i] == tuple[i]
  {
  }

  /** One tuple flattens to one equality per column, joined by ANDs. */
  lemma {:induction false} FlattenRow(cols: seq<string>, tuple: seq<u64>, n: nat, names: seq<string>)
    requires Resolved(cols, names) && 1 <= n <= |cols| && Printable(tuple, |cols|)
    ensures Readable(RowCondition(cols, tuple, n), names)
    ensures
      var f := Flatten(RowCondition(cols, tuple, n), names);
      && |f.preds| == n
      && (forall i :: 0 <= i < n ==> f.preds[i] == KeyTest(cols, tuple, names, i))
      && (forall i :: 0 <= i < n - 1 ==> f.ands[i])
  {
    assert TupleAt(tuple, n - 1) < TWO_63;
    if n > 1 {
      FlattenRow(cols, tuple, n - 1, names);
    }
  }

  lemma {:induction false} FoldAnds(acc: bool, preds: seq<Predicate>, ands: seq<bool>, row: Row)
    requires |ands| == |preds| && forall i :: 0 <= i < |ands| ==> ands[i]
    ensures Fold(acc, preds, ands, row) <==> acc && forall i :: 0 <= i < |preds| ==> Holds(preds[i], row)
    decreases |preds|
  {
    if preds != [] {
      FoldAnds(acc && Holds(preds[0], row), preds[1..], ands[1..], row);
      assert forall i :: 0 < i < |preds| ==> preds[i] == preds[1..][i - 1];
    }
  }

  /** Within one tuple the fold adds the tail to what came before. */
  lemma RowChain(cols: seq<string>, tuple: seq<u64>, f: Flat, names: seq<string>, row: Row, acc: bool)
    requires Resolved(cols, names) && 1 <= |cols| == |tuple| && |row| == |names|
    requires |f.preds| == |cols| == |f.ands| + 1
    requires forall i :: 0 <= i < |cols| ==> f.preds[i] == KeyTest(cols, tuple, names, i)
    requires forall i :: 0 <= i < |cols| - 1 ==> f.ands[i]
    ensures
      var key := Key(names, row, cols);
      && (Holds(f.preds[0], row) <==> key[0] == tuple[0])
      && (Fold(acc, f.preds[1..], f.ands, row) <==> acc && key[1..] == tuple[1..])
  {
    var key := Key(names, row, cols);
    forall i | 0 <= i < |cols| ensures Holds(f.preds[i], row) <==> key[i] == tuple[i] {
      KeyTestHolds(cols, tuple, names, i, row);
    }
    FoldAnds(acc, f.preds[1..], f.ands, row);
    assert forall i :: 0 <= i < |cols| - 1 ==> f.preds[1..][i] == f.preds[i + 1];
    if forall i :: 0 <= i < |cols| - 1 ==> Holds(f.preds[1..][i], row) {
      forall i | 0 <= i < |cols| - 1 ensures key[1..][i] == tuple[1..][i] {
        assert Holds(f.preds[1..][i], row);
      }
      assert key[1..] == tuple[1..];
    } else {
      var i :| 0 <= i < |cols| - 1 && !Holds(f.preds[1..][i], row);
      assert key[1..][i] != tuple[1..][i];
    }
  }

  lemma OrFold(f: Flat, g: Flat, row: Row)
    requires |f.preds| == |f.ands| + 1 && |g.preds| == |g.ands| + 1
    ensures FlatHolds(Flat(f.preds + g.preds, f.ands + [false] + g.ands), row) ==
            Fold(FlatHolds(f, row) || Holds(g.preds[0], row), g.preds[1..], g.ands, row)
  {
    assert (f.preds + g.preds)[1..] == f.preds[1..] + g.preds;
    assert f.ands + [false] + g.ands == f.ands + ([false] + g.ands);
    FoldConcat(Holds(f.preds[0], row), f.preds[1..], f.ands, g.preds, [false] + g.ands, row);
    assert ([false] + g.ands)[1..] == g.ands;
  }

  lemma {:induction false} FlattenAnyRow(cols: seq<string>, tuples: seq<seq<u64>>, m: nat, names: seq<string>)
    requires cols != [] && 2 <= m <= |tuples|
    requires Readable(AnyRowCondition(cols, tuples, m - 1), names)
    requires Readable(RowCondition(cols, tuples[m - 1], |cols|), names)
    ensures Readable(AnyRowCondition(cols, tuples, m), names)
    ensures
      var f := Flatten(AnyRowCondition(cols, tuples, m - 1), names);
      var g := Flatten(RowCondition(cols, tuples[m - 1], |cols|), names);
      Flatten(AnyRowCondition(cols, tuples, m), names) == Flat(f.preds + g.preds, f.ands + [false] + g.ands)
  {
  }

  lemma LeftToRightPrefix(tuples: seq<seq<u64>>, m: nat, key: seq<u64>)
    requires 1 <= m <= |tuples| && key != [] && |tuples[m - 1]| == |key|
    ensures LeftToRight(tuples[..m], key) <==>
      (LeftToRight(tuples[..m - 1], key) || key[0] == tuples[m - 1][0]) && key[1..] == tuples[m - 1][1..]
  {
    assert tuples[..m][..m - 1] == tuples[..m - 1];
  }

  /** The flattened condition of one tuple, folded onto what came before. */
  lemma TupleFold(cols: seq<string>, tuple: seq<u64>, names: seq<string>, row: Row, acc: bool)
    requires Resolved(cols, names) && 1 <= |cols| == |tuple| && |row| == |names| && Printable(tuple, |cols|)
    ensures Readable(RowCondition(cols, tuple, |cols|), names)
    ensures
      var g := Flatten(RowCondition(cols, tuple, |cols|), names);
      var key := Key(names, row, cols);
      && (Holds(g.preds[0], row) <==> key[0] == tuple[0])
      && (Fold(acc, g.preds[1..], g.ands, row) <==> acc && key[1..] == tuple[1..])
  {
    FlattenRow(cols, tuple, |cols|, names);
    RowChain(cols, tuple, Flatten(RowCondition(cols, tuple, |cols|), names), names, row, acc);
  }

  lemma FirstTuple(cols: seq<string>, tuple: seq<u64>, names: seq<string>, row: Row)
    requires Resolved(cols, names) && 1 <= |cols| == |tuple| && |row| == |names| && Printable(tuple, |cols|)
    ensures Readable(RowCondition(cols, tuple, |cols|), names)
    ensures
      var key := Key(names, row, cols);
      FlatHolds(Flatten(RowCondition(cols, tuple, |cols|), names), row) <==> key[0] == tuple[0] && key[1..] == tuple[1..]
  {
    RowConditionReadable(cols, tuple, |cols|, names);
    var g := Flatten(RowCondition(cols, tuple, |cols|), names);
    TupleFold(cols, tuple, names, row, Holds(g.preds[0], row));
  }

  lemma NextTuple(f: Flat, cols: seq<string>, tuple: seq<u64>, names: seq<string>, row: Row)
    requires Resolved(cols, names) && 1 <= |cols| == |tuple| && |row| == |names| && Printable(tuple, |cols|)
    requires |f.preds| == |f.ands| + 1
    ensures Readable(RowCondition(cols, tuple, |cols|), names)
    ensures
      var g := Flatten(RowCondition(cols, tuple, |cols|), names);
      var key := Key(names, row, cols);
      FlatHolds(Flat(f.preds + g.preds, f.ands + [false] + g.ands), row) <==>
        (FlatHolds(f, row) || key[0] == tuple[0]) && key[1..] == tuple[1..]
  {
    RowConditionReadable(cols, tuple, |cols|, names);
    var g := Flatten(RowCondition(cols, tuple, |cols|), names);
    TupleFold(cols, tuple, names, row, FlatHolds(f, row) || Holds(g.preds[0], row));
    OrFold(f, g, row);
  }

  lemma {:induction false} CascadeFold(cols: seq<string>, tuples: seq<seq<u64>>, m: nat, names: seq<string>, row: Row)
    requires SameWidth(cols, tuples) && Resolved(cols, names) && 1 <= m <= |tuples| && |row| == |names|
    requires forall j :: 0 <= j < |tuples| ==> Printable(tuples[j], |cols|)
    ensures Readable(AnyRowCondition(cols, tuples, m), names)
    ensures FlatHolds(Flatten(AnyRowCondition(cols, tuples, m), names), row)
      <==> LeftToRight(tuples[..m], Key(names, row, cols))
  {
    LeftToRightPrefix(tuples, m, Key(names, row, cols));
    if m == 1 {
      FirstTuple(cols, tuples[0], names, row);
    } else {
      CascadeFold(cols, tuples, m - 1, names, row);
      NextTuple(Flatten(AnyRowCondition(cols, tuples, m - 1), names), cols, tuples[m - 1], names, row);
      FlattenAnyRow(cols, tuples, m, names);
    }
  }

  /**
   What a cascade really selects in a non-empty child table: the statement fails iff some
   referenced value is at least 2^63 (it prints as a negative number), otherwise row `i` is
   selected iff the left-to-right reading accepts its key.
  */
  lemma CascadeMask(t: Table, cols: seq<string>, tuples: seq<seq<u64>>)
    requires t.Valid() && t.rowCount > 0
    requires SameWidth(cols, tuples) && tuples != [] && Resolved(cols, t.columnNames)
    ensures BuildCascadeWhere(cols, tuples).Some?
    ensures
      var r := SimpleWhere(t, Tokens(BuildCascadeWhere(cols, tuples).value));
      && (r.Ok? <==> forall j :: 0 <= j < |tuples| ==> Printable(tuples[j], |cols|))
      && (r.Ok? ==> |r.value| == t.rowCount && forall i :: 0 <= i < t.rowCount ==>
            (r.value[i] <==> LeftToRight(tuples, Key(t.columnNames, t.RowAt(i), cols))))
  {
    var c := AnyRowCondition(cols, tuples, |tuples|);
    WherePrinted(t, c);
    AnyRowReadable(cols, tuples, |tuples|, t.columnNames);
    if Readable(c, t.columnNames) {
      forall i | 0 <= i < t.rowCount {
        CascadeFold(cols, tuples, |tuples|, t.columnNames, t.RowAt(i));
      }
      assert tuples[..|tuples|] == tuples;
    }
  }

  // ----- when the two readings agree -----

  /** All tuples agree on every column but the first. */
  ghost predicate SameTail(tuples: seq<seq<u64>>) {
    forall i, j :: 0 <= i < |tuples| && 0 <= j < |tuples| && |tuples[i]| >= 1 && |tuples[j]| >= 1
      ==> tuples[i][1..] == tuples[j][1..]
  }

  /** The evaluator never selects a row that references nothing deleted. */
  lemma {:induction false} LeftToRightSound(tuples: seq<seq<u64>>, key: seq<u64>)
    ensures LeftToRight(tuples, key) ==> key in tuples
    decreases |tuples|
  {
    if LeftToRight(tuples, key) {
      var n := |tuples|;
      var last := tuples[n - 1];
      if key[0] == last[0] {
        assert key == [key[0]] + key[1..] && last == [last[0]] + last[1..];
      } else {
        LeftToRightSound(tuples[..n - 1], key);
      }
    }
  }

  /** With equal tails nothing is lost either. */
  lemma {:induction false} LeftToRightComplete(tuples: seq<seq<u64>>, key: seq<u64>)
    requires SameTail(tuples) && key != [] && forall j :: 0 <= j < |tuples| ==> |tuples[j]| == |key|
    ensures LeftToRight(tuples, key) <==> key in tuples
    decreases |tuples|
  {
    LeftToRightSound(tuples, key);
    if key in tuples {
      var n := |tuples|;
      var last := tuples[n - 1];
      var j :| 0 <= j < n && tuples[j] == key;
      assert tuples[j][1..] == last[1..];
      if j < n - 1 {
        assert tuples[..n - 1][j] == key;
        LeftToRightComplete(tuples[..n - 1], key);
      }
    }
  }

  /** The longest run of tuples at the end that agree on every column but the first. */
  function LastRun(tuples: seq<seq<u64>>): seq<seq<u64>>
    decreases |tuples|
  {
    if |tuples| <= 1 then tuples
    else
      var n := |tuples| - 1;
      (if SameRest(tuples[n - 1], tuples[n]) then LastRun(tuples[..n]) else []) + [tuples[n]]
  }

  /** The keys agree beyond their first component. */
  predicate SameRest(a: seq<u64>, b: seq<u64>) {
    |a| >= 1 && |b| >= 1 ==> a[1..] == b[1..]
  }

  lemma {:induction false} LastRunInTuples(tuples: seq<seq<u64>>, key: seq<u64>)
    requires key in LastRun(tuples)
    ensures key in tuples
    decreases |tuples|
  {
    if |tuples| > 1 {
      var n := |tuples| - 1;
      if key != tuples[n] { LastRunInTuples(tuples[..n], key); }
    }
  }

  /** What the evaluator does with any list of tuples: it accepts exactly the keys of the last run. */
  lemma {:induction false} LeftToRightIsLastRun(tuples: seq<seq<u64>>, key: seq<u64>)
    requires key != [] && forall j :: 0 <= j < |tuples| ==> |tuples[j]| == |key|
    ensures LeftToRight(tuples, key) <==> key in LastRun(tuples)
    ensures key in LastRun(tuples) ==> SameRest(key, tuples[|tuples| - 1])
    decreases |tuples|
  {
    if tuples != [] {
      var n := |tuples| - 1;
      var last := tuples[n];
      assert last == [last[0]] + last[1..] && key == [key[0]] + key[1..];
      LeftToRightIsLastRun(tuples[..n], key);
    }
  }

  /** For the tuples of one statement: the evaluator accepts exactly them iff they agree beyond the first column. */
  lemma TuplesExactIff(tuples: seq<seq<u64>>, width: nat)
    requires width >= 1 && forall j :: 0 <= j < |tuples| ==> |tuples[j]| == width
    ensures (forall key: seq<u64> :: |key| == width ==> (LeftToRight(tuples, key) <==> key in tuples)) <==> SameTail(tuples)
  {
    if SameTail(tuples) {
      forall key: seq<u64> | |key| == width ensures LeftToRight(tuples, key) <==> key in tuples {
        LeftToRightComplete(tuples, key);
      }
    } else {
      var i, j :| 0 <= i < |tuples| && 0 <= j < |tuples| && tuples[i][1..] != tuples[j][1..];
      var last := tuples[|tuples| - 1];
      var k := if tuples[i][1..] != last[1..] then i else j;
      assert tuples[k] in tuples && !LeftToRight(tuples, tuples[k]);
    }
  }

  lemma {:induction false} SelectSameTail(keys: seq<seq<u64>>, mask: seq<bool>)
    requires |mask| == |keys| && SameTail(keys)
    ensures SameTail(Select(keys, mask))
  {
    var s := Select(keys, mask);
    forall i, j | 0 <= i < |s| && 0 <= j < |s| && |s[i]| >= 1 && |s[j]| >= 1
      ensures s[i][1..] == s[j][1..]
    {
      var a := SelectFrom(keys, mask, s[i]);
      var b := SelectFrom(keys, mask, s[j]);
    }
  }

  /** Deleting just rows `i < j` hands the evaluator exactly those two keys. */
  lemma {:induction false} SelectPair<T>(s: seq<T>, i: nat, j: nat)
    requires i < j < |s|
    ensures Select(s, seq(|s|, k => k == i || k == j)) == [s[i], s[j]]
  {
    var mask := seq(|s|, k => k == i || k == j);
    if i == 0 {
      SelectOne(s[1..], j - 1);
      assert mask[1..] == seq(|s[1..]|, k => k == j - 1);
    } else {
      SelectPair(s[1..], i - 1, j - 1);
      assert mask[1..] == seq(|s[1..]|, k => k == i - 1 || k == j - 1);
    }
  }

  lemma {:induction false} SelectOne<T>(s: seq<T>, j: nat)
    requires j < |s|
    ensures Select(s, seq(|s|, k => k == j)) == [s[j]]
  {
    var mask := seq(|s|, k => k == j);
    if j == 0 {
      SelectNone(s[1..], mask[1..]);
    } else {
      SelectOne(s[1..], j - 1);
      assert mask[1..] == seq(|s[1..]|, k => k == j - 1);
    }
  }

  lemma {:induction false} SelectNone<T>(s: seq<T>, mask: seq<bool>)
    requires |mask| == |s| && forall k :: 0 <= k < |s| ==> !mask[k]
    ensures Select(s, mask) == []
  {
    if s != [] {
      SelectNone(s[1..], mask[1..]);
    }
  }

  /** For every set of deleted parent rows the cascade selects exactly their referencing rows. */
  ghost predicate ExactForEveryMask(keys: seq<seq<u64>>, width: nat) {
    forall mask: seq<bool>, key: seq<u64> :: |mask| == |keys| && |key| == width ==>
      (LeftToRight(Select(keys, mask), key) <==> key in Select(keys, mask))
  }

  /**
   CASCADE is exact for every DELETE on a parent iff all its rows agree on every referenced
   column but the first. A one-column key always qualifies; a composite key whose later
   columns vary leaves orphans for some DELETE.
  */
  lemma CascadeExactIff(keys: seq<seq<u64>>, width: nat)
    requires width >= 1 && forall j :: 0 <= j < |keys| ==> |keys[j]| == width
    ensures ExactForEveryMask(keys, width) <==> SameTail(keys)
  {
    if SameTail(keys) {
      forall mask: seq<bool>, key: seq<u64> | |mask| == |keys| && |key| == width
        ensures LeftToRight(Select(keys, mask), key) <==> key in Select(keys, mask)
      {
        SelectSameTail(keys, mask);
        assert forall j :: 0 <= j < |Select(keys, mask)| ==> Select(keys, mask)[j] in keys;
        LeftToRightComplete(Select(keys, mask), key);
      }
    }
    if !SameTail(keys) {
      var i, j :| 0 <= i < |keys| && 0 <= j < |keys| && keys[i][1..] != keys[j][1..];
      var lo, hi := if i < j then i else j, if i < j then j else i;
      var mask := seq(|keys|, k => k == lo || k == hi);
      SelectPair(keys, lo, hi);
      assert Select(keys, mask) == [keys[lo], keys[hi]];
      assert keys[lo] in Select(keys, mask);
      assert !LeftToRight(Select(keys, mask), keys[lo]);
    }
  }

  /**
   Row by row: a row the condition tree selects is missed by the evaluator iff its key is one of
   the tuples but not in their last run.
  */
  lemma CascadeMissesIff(t: Table, cols: seq<string>, tuples: seq<seq<u64>>, i: nat)
    requires t.Valid() && i < t.rowCount
    requires SameWidth(cols, tuples) && tuples != [] && Resolved(cols, t.columnNames)
    requires forall j :: 0 <= j < |tuples| ==> Printable(tuples[j], |cols|)
    ensures
      var w := BuildCascadeWhere(cols, tuples);
      var key := Key(t.columnNames, t.RowAt(i), cols);
      && w.Some?
      && var r := SimpleWhere(t, Tokens(w.value));
      && r.Ok? && |r.value| == t.rowCount
      && (TreeHolds(w.value, t.columnNames, t.RowAt(i)) && !r.value[i] <==> key in tuples && key !in LastRun(tuples))
  {
    var key := Key(t.columnNames, t.RowAt(i), cols);
    CascadeMask(t, cols, tuples);
    CascadeTreeMeans(cols, tuples, |tuples|, t.columnNames, t.RowAt(i));
    assert tuples[..|tuples|] == tuples;
    LeftToRightIsLastRun(tuples, key);
  }

  lemma TwoTuples()
    ensures
      var tuples: seq<seq<u64>> := [[1, 2], [3, 4]];
      && SameWidth(["a", "b"], tuples) && Printable(tuples[0], 2) && Printable(tuples[1], 2)
      && LastRun(tuples) == [[3, 4]] && [1, 2] in tuples && [1, 2] !in LastRun(tuples)
  {
    var tuples: seq<seq<u64>> := [[1, 2], [3, 4]];
    assert tuples[0] == [1, 2] && tuples[0][1..] == [2] && tuples[1][1..] == [4];
    assert tuples[0][0] != tuples[1][0];
  }

  /**
   A child row (1, 2) referencing a parent (1, 2) survives the CASCADE of a DELETE that takes the
   parents (1, 2) and (3, 4) together.
  */
  lemma CompositeCascadeMissesRow(child: Table)
    requires child == Table([[1], [2]], ["a", "b"], 1, None)
    ensures
      var w := BuildCascadeWhere(["a", "b"], [[1, 2], [3, 4]]);
      && w.Some? && SimpleWhere(child, Tokens(w.value)) == Ok([false])
      && TreeHolds(w.value, child.columnNames, child.RowAt(0))
  {
    TwoTuples();
    var cols := ["a", "b"];
    assert cols[0] == "a" && cols[1] == "b";
    var key := Key(child.columnNames, child.RowAt(0), cols);
    assert key[0] == 1 && key[1] == 2;
    assert key == [1, 2];
    var tuples: seq<seq<u64>> := [[1, 2], [3, 4]];
    CascadeMissesIff(child, cols, tuples, 0);
    var r := SimpleWhere(child, Tokens(BuildCascadeWhere(cols, tuples).value));
    assert |r.value| == 1 && !r.value[0];
    assert r.value == [false];
  }

  /** A parent key of -1 makes the CASCADE fail on every non-empty child table. */
  lemma NegativeKeyCascadeFails(child: Table, col: string)
    requires child.Valid() && child.rowCount > 0 && col in child.columnNames
    ensures
      var w := BuildCascadeWhere([col], [[AsU64(-1)]]);
      w.Some? && SimpleWhere(child, Tokens(w.value)).Err?
  {
    var tuples: seq<seq<u64>> := [[AsU64(-1)]];
    CascadeMask(child, [col], tuples);
    assert TupleAt(tuples[0], 0) >= TWO_63;
    assert !Printable(tuples[0], 1);
  }
}
