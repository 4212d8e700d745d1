/**
 Row selection: the serial path (a compiled clause turned back into an expression and evaluated
 column by column) and the morsel-parallel path, against the list of rows that match and are visible.
*/
module RowScan {
  import opened Basics
  import opened Catalog
  import opened Text
  import opened Predicates
  import opened Mvcc
  import opened MvccVacuum

  // ----- the serial path -----

  function FilterExpr(f: Filter): Expr {
    Binary(Column(Decimal(f.col)), Cmp(f.op), Literal(IntVal(AsI64(f.value))))
  }

  /** A clause as an expression again; its columns are named by their index. */
  function ClauseExpr(w: WhereClause): Expr {
    match w
    case NoFilter => Literal(IntVal(1))
    case Single(f) => FilterExpr(f)
    case AndClause(l, r) => Binary(ClauseExpr(l), And, ClauseExpr(r))
    case OrClause(l, r) => Binary(ClauseExpr(l), Or, ClauseExpr(r))
  }

  /** Lookup by name, by unqualified name, and only then by index. */
  function ResolveName(name: string, names: seq<string>): Option<nat> {
    if Position(names, name).Some? then Position(names, name)
    else
      var bare := Bare(name);
      if bare.Some? && Position(names, bare.value).Some? then Position(names, bare.value)
      else if ParseU64(name).Some? then Some(ParseU64(name).value)
      else None
  }

  /** The comparison a leaf performs; `None` leaves the mask alone. */
  function LeafFilter(e: Expr, names: seq<string>, hash: string -> u64): Option<Filter>
    requires e.Binary?
  {
    var cv := ColumnAndValue(e.left, e.right);
    if !e.op.Cmp? || cv.None? then None
    else
      var c, cell := ResolveName(cv.value.0, names), DispatchCell(cv.value.1, hash);
      if c.None? || cell.None? then None else Some(Filter(c.value, e.op.op, cell.value))
  }

  /** AND/OR trees whose leaves name existing columns: what the column lookup must never leave. */
  predicate InRange(e: Expr, t: QTable, hash: string -> u64) {
    match e
    case Binary(l, op, r) =>
      if op == And || op == Or then InRange(l, t, hash) && InRange(r, t, hash)
      else
        var f := LeafFilter(e, t.columnNames, hash);
        f.Some? ==> f.value.col < |t.columns|
    case Column(_) => true
    case Literal(_) => true
    case LikeExpr(_, _, _) => false
  }

  /** What the tree says of one row when every mask starts out true. */
  predicate Marks(e: Expr, t: QTable, hash: string -> u64, i: nat)
    requires t.Valid() && InRange(e, t, hash) && i < t.rowCount
  {
    match e
    case Binary(l, op, r) =>
      if op == And then Marks(l, t, hash, i) && Marks(r, t, hash, i)
      else if op == Or then Marks(l, t, hash, i) || Marks(r, t, hash, i)
      else
        var f := LeafFilter(e, t.columnNames, hash);
        f.Some? ==> Compare(t.columns[f.value.col][i], f.value.op, f.value.value)
    case Column(_) => true
    case Literal(_) => true
  }

  method FilterColumn(col: seq<u64>, op: Comparison, value: u64, out: array<bool>)
    requires |col| == out.Length
    modifies out
    ensures forall i :: 0 <= i < out.Length ==> (out[i] <==> Compare(col[i], op, value))
  {
    for i := 0 to |col|
      invariant forall k :: 0 <= k < i ==> (out[k] <==> Compare(col[k], op, value))
    {
      out[i] := Compare(col[i], op, value);
    }
  }

  method CombineMasks(left: seq<bool>, right: seq<bool>, and: bool, out: array<bool>)
    requires |left| == |right| == out.Length
    modifies out
    ensures forall i :: 0 <= i < out.Length ==> (out[i] <==> if and then left[i] && right[i] else left[i] || right[i])
  {
    for i := 0 to |left|
      invariant forall k :: 0 <= k < i ==> (out[k] <==> if and then left[k] && right[k] else left[k] || right[k])
    {
      out[i] := if and then left[i] && right[i] else left[i] || right[i];
    }
  }

  /** Evaluates a tree into a mask that is all true on entry. */
  method EvalWhere(e: Expr, t: QTable, hash: string -> u64, mask: array<bool>)
    requires t.Valid() && InRange(e, t, hash) && mask.Length == t.rowCount
    requires forall i :: 0 <= i < mask.Length ==> mask[i]
    modifies mask
    ensures forall i :: 0 <= i < mask.Length ==> (mask[i] <==> Marks(e, t, hash, i))
    decreases e
  {
    if e.Binary? && e.op == And {
      EvalWhere(e.left, t, hash, mask);
      var rightMask := new bool[t.rowCount](_ => true);
      EvalWhere(e.right, t, hash, rightMask);
      var leftMask := mask[..];
      CombineMasks(leftMask, rightMask[..], true, mask);
    } else if e.Binary? && e.op == Or {
      var leftMask := new bool[t.rowCount](_ => true);
      var rightMask := new bool[t.rowCount](_ => true);
      EvalWhere(e.left, t, hash, leftMask);
      EvalWhere(e.right, t, hash, rightMask);
      CombineMasks(leftMask[..], rightMask[..], false, mask);
    } else if e.Binary? {
      var f := LeafFilter(e, t.columnNames, hash);
      if f.Some? {
        FilterColumn(t.columns[f.value.col], f.value.op, f.value.value, mask);
      }
    }
  }

  // ----- which column an index resolves to -----

  /** The column the index of a compiled filter ends up at. */
  function Target(names: seq<string>, col: nat): nat {
    match Position(names, Decimal(col))
    case Some(j) => j
    case None => col
  }

  lemma {:induction false} DigitsHaveNoDot(s: string)
    requires AllDigits(s)
    ensures Find(s, ".") == None
  {
    if s != [] {
      assert IsDigit(s[0]);
      assert AllDigits(s[1..]) by { forall i | 0 <= i < |s[1..]| ensures IsDigit(s[1..][i]) { assert s[1..][i] == s[i + 1]; } }
      DigitsHaveNoDot(s[1..]);
      assert !("." <= s);
    }
  }

  lemma ResolvesToTarget(names: seq<string>, col: nat)
    requires col < TWO_64
    ensures ResolveName(Decimal(col), names) == Some(Target(names, col))
  {
    DigitsHaveNoDot(Decimal(col));
    ParseDecimal(col);
  }

  /** The clause with every column index replaced by the one it resolves to. */
  function Retargeted(w: WhereClause, names: seq<string>): WhereClause {
    match w
    case NoFilter => NoFilter
    case Single(f) => Single(f.(col := Target(names, f.col)))
    case AndClause(l, r) => AndClause(Retargeted(l, names), Retargeted(r, names))
    case OrClause(l, r) => OrClause(Retargeted(l, names), Retargeted(r, names))
  }

  predicate Uses(w: WhereClause, c: nat) {
    match w
    case NoFilter => false
    case Single(f) => f.col == c
    case AndClause(l, r) => Uses(l, c) || Uses(r, c)
    case OrClause(l, r) => Uses(l, c) || Uses(r, c)
  }

  /** Every column a clause uses exists; `ParseExpr` produces only such clauses. */
  predicate WellScoped(w: WhereClause, width: nat) {
    match w
    case NoFilter => true
    case Single(f) => f.col < width
    case AndClause(l, r) => WellScoped(l, width) && WellScoped(r, width)
    case OrClause(l, r) => WellScoped(l, width) && WellScoped(r, width)
  }

  lemma {:induction false} CompiledIsWellScoped(e: Expr, t: QTable, hash: string -> u64)
    requires ParseExpr(e, t, hash).Ok?
    ensures WellScoped(ParseExpr(e, t, hash).value, |t.columnNames|)
    decreases e
  {
    if e.op == And || e.op == Or {
      CompiledIsWellScoped(e.left, t, hash);
      CompiledIsWellScoped(e.right, t, hash);
    }
  }

  /** The serial evaluation is the row-by-row one on the columns the indices resolve to. */
  lemma {:induction false} SerialMarks(w: WhereClause, t: QTable, hash: string -> u64)
    requires t.Valid() && WellScoped(w, |t.columns|)
    ensures InRange(ClauseExpr(w), t, hash)
    ensures forall i :: 0 <= i < t.rowCount ==>
      (Marks(ClauseExpr(w), t, hash, i) <==> RowMatches(Retargeted(w, t.columnNames), t.RowAt(i)))
    decreases w
  {
    if w.Single? {
      ResolvesToTarget(t.columnNames, w.filter.col);
      var f := LeafFilter(ClauseExpr(w), t.columnNames, hash);
      assert f == Some(w.filter.(col := Target(t.columnNames, w.filter.col)));
    } else if !w.NoFilter? {
      SerialMarks(w.left, t, hash);
      SerialMarks(w.right, t, hash);
    }
  }

  /** No column is named like the index of a different column the clause uses. */
  ghost predicate NoAlias(w: WhereClause, names: seq<string>) {
    forall c :: Uses(w, c) ==> Target(names, c) == c
  }

  lemma {:induction false} RetargetedSame(w: WhereClause, names: seq<string>)
    requires NoAlias(w, names)
    ensures Retargeted(w, names) == w
    decreases w
  {
    if w.Single? {
      assert Uses(w, w.filter.col);
    } else if !w.NoFilter? {
      assert forall c :: Uses(w.left, c) || Uses(w.right, c) ==> Uses(w, c);
      RetargetedSame(w.left, names);
      RetargetedSame(w.right, names);
    }
  }

  /** A filter on column `col` selects the right rows of every table with these column names. */
  ghost predicate SerialExact(names: seq<string>, col: nat) {
    forall t: QTable, f: Filter :: t.Valid() && t.columnNames == names && f.col == col ==> SelectsRight(t, f)
  }

  predicate SelectsRight(t: QTable, f: Filter) {
    forall i :: 0 <= i < t.rowCount ==>
      (RowMatches(Retargeted(Single(f), t.columnNames), t.RowAt(i)) <==> RowMatches(Single(f), t.RowAt(i)))
  }

  /** The serial path reads the right column iff no other column's name is that index in decimal. */
  lemma SerialExactIff(names: seq<string>, col: nat)
    requires col < |names| <= TWO_64
    ensures SerialExact(names, col) <==> Position(names, Decimal(col)) in {None, Some(col)}
  {
    var j := Target(names, col);
    if j != col {
      var cells: seq<seq<u64>> := seq(|names|, c => if c == col then [1] else [0]);
      var t := QTable(cells, names, 1, [], []);
      var f := Filter(col, Eq, 1);
      assert t.Valid();
      assert t.RowAt(0)[col] == 1 && t.RowAt(0)[j] == 0;
      assert !SelectsRight(t, f);
    } else {
      forall t: QTable, f: Filter | t.Valid() && t.columnNames == names && f.col == col ensures SelectsRight(t, f) {
        assert f.(col := Target(names, f.col)) == f;
      }
    }
  }

  // ----- scanning -----

  /** What a scan reads: the clause, the table and, under MVCC, the manager and the version chains. */
  datatype Query = Query(where: WhereClause, table: QTable, chains: seq<Chain>, mvcc: Option<Manager>)
  {
    ghost predicate Valid() {
      table.Valid() && WellScoped(where, |table.columns|)
    }

    /** The row has a version the active transaction sees, or no versions at all. */
    predicate IsVisible(i: nat) {
      mvcc.Some? ==> RowVisible(mvcc.value, Chains(chains, i), Reader(mvcc.value))
    }

    predicate Keeps(i: nat) {
      IsVisible(i) && RowMatches(where, table.RowAt(i))
    }
  }

  /** The active transaction, or the reader of everything committed when there is none. */
  function Reader(m: Manager): Txn {
    match m.current
    case Some(t) => t
    case None => Txn(0, m.commitId, RepeatableRead)
  }

  /** The row indices the scan should return, in the order given. */
  function Kept(q: Query, ixs: seq<nat>): seq<nat> {
    if ixs == [] then []
    else Kept(q, ixs[..|ixs| - 1]) + (if q.Keeps(ixs[|ixs| - 1]) then [ixs[|ixs| - 1]] else [])
  }

  function Range(n: nat): (r: seq<nat>)
    ensures |r| == n && forall i :: 0 <= i < n ==> r[i] == i
  {
    seq(n, i requires 0 <= i => i)
  }

  /** The answer of a scan: strictly increasing, and exactly the rows that match and are visible. */
  ghost predicate IsAnswer(q: Query, r: seq<nat>) {
    && (forall a, b :: 0 <= a < b < |r| ==> r[a] < r[b])
    && (forall i: nat :: i in r <==> i < q.table.rowCount && q.Keeps(i))
  }

  lemma {:induction false} KeptIsAnswer(q: Query, n: nat)
    ensures
      var r := Kept(q, Range(n));
      && (forall a, b :: 0 <= a < b < |r| ==> r[a] < r[b])
      && (forall i: nat :: i in r <==> i < n && q.Keeps(i))
  {
    if n > 0 {
      assert Range(n)[..n - 1] == Range(n - 1);
      KeptIsAnswer(q, n - 1);
      var before := Kept(q, Range(n - 1));
      assert forall a :: 0 <= a < |before| ==> before[a] in before;
    }
  }

  lemma {:induction false} KeptConcat(q: Query, a: seq<nat>, b: seq<nat>)
    ensures Kept(q, a + b) == Kept(q, a) + Kept(q, b)
    decreases |b|
  {
    if b == [] {
      assert a + b == a;
    } else {
      var m := |b| - 1;
      assert (a + b)[..|a + b| - 1] == a + b[..m];
      KeptConcat(q, a, b[..m]);
    }
  }

  /** One worker: visibility and clause in a single pass over its morsel. */
  method Worker(q: Query, morsel: seq<nat>) returns (out: seq<nat>)
    ensures out == Kept(q, morsel)
  {
    out := [];
    for k := 0 to |morsel|
      invariant out == Kept(q, morsel[..k])
    {
      assert morsel[..k + 1][..k] == morsel[..k];
      if q.IsVisible(morsel[k]) && RowMatches(q.where, q.table.RowAt(morsel[k])) {
        out := out + [morsel[k]];
      }
    }
    assert morsel[..|morsel|] == morsel;
  }

  /** The results of the morsels in morsel order. */
  function Joined(parts: seq<seq<nat>>): seq<nat> {
    if parts == [] then [] else Joined(parts[..|parts| - 1]) + parts[|parts| - 1]
  }

  method Chunks(ixs: seq<nat>, size: nat) returns (morsels: seq<seq<nat>>)
    requires size > 0
    ensures Joined(morsels) == ixs
    ensures forall k :: 0 <= k < |morsels| ==> 1 <= |morsels[k]| <= size
  {
    morsels := [];
    var at := 0;
    while at < |ixs|
      invariant 0 <= at <= |ixs|
      invariant Joined(morsels) == ixs[..at]
      invariant forall k :: 0 <= k < |morsels| ==> 1 <= |morsels[k]| <= size
    {
      var end := if at + size <= |ixs| then at + size else |ixs|;
      assert (morsels + [ixs[at..end]])[..|morsels|] == morsels;
      assert ixs[..at] + ixs[at..end] == ixs[..end];
      morsels := morsels + [ixs[at..end]];
      at := end;
    }
    assert ixs[..|ixs|] == ixs;
  }

  lemma {:induction false} JoinedKept(q: Query, morsels: seq<seq<nat>>, parts: seq<seq<nat>>)
    requires |parts| == |morsels| && forall k :: 0 <= k < |parts| ==> parts[k] == Kept(q, morsels[k])
    ensures Joined(parts) == Kept(q, Joined(morsels))
  {
    if parts != [] {
      var n := |parts| - 1;
      JoinedKept(q, morsels[..n], parts[..n]);
      KeptConcat(q, Joined(morsels[..n]), morsels[n]);
    }
  }

  /** The spawned workers: one per morsel, finishing in any order. */
  method RunWorkers(q: Query, morsels: seq<seq<nat>>) returns (parts: seq<seq<nat>>)
    ensures |parts| == |morsels| && forall k :: 0 <= k < |parts| ==> parts[k] == Kept(q, morsels[k])
  {
    parts := seq(|morsels|, _ => []);
    var running: set<nat> := set k | k in Range(|morsels|);
    forall k: nat | k < |morsels| ensures k in running { assert Range(|morsels|)[k] == k; }
    while running != {}
      invariant |parts| == |morsels|
      invariant forall k :: k in running ==> 0 <= k < |morsels|
      invariant forall k :: 0 <= k < |morsels| && k !in running ==> parts[k] == Kept(q, morsels[k])
      decreases |running|
    {
      var k :| k in running;
      var part := Worker(q, morsels[k]);
      parts := parts[k := part];
      running := running - {k};
    }
  }

  /** Joining the handles in morsel order. */
  method JoinAll(parts: seq<seq<nat>>) returns (r: seq<nat>)
    ensures r == Joined(parts)
  {
    r := [];
    for k := 0 to |parts|
      invariant r == Joined(parts[..k])
    {
      assert parts[..k + 1][..k] == parts[..k];
      r := r + parts[k];
    }
    assert parts[..|parts|] == parts;
  }

  method ParallelScan(q: Query, rowIndices: seq<nat>, numThreads: nat, morselSize: nat) returns (r: seq<nat>)
    ensures r == Kept(q, rowIndices)
  {
    if rowIndices == [] { return []; }
    if |rowIndices| <= morselSize || numThreads <= 1 || morselSize == 0 {
      r := Worker(q, rowIndices);
      return;
    }
    var morsels := Chunks(rowIndices, morselSize);
    var parts := RunWorkers(q, morsels);
    r := JoinAll(parts);
    JoinedKept(q, morsels, parts);
  }

  method FilterRows(e: Expr, t: QTable, hash: string -> u64) returns (r: seq<nat>)
    requires t.Valid() && InRange(e, t, hash)
    ensures forall a, b :: 0 <= a < b < |r| ==> r[a] < r[b]
    ensures forall i: nat :: i in r <==> i < t.rowCount && Marks(e, t, hash, i)
  {
    var mask := new bool[t.rowCount](_ => true);
    EvalWhere(e, t, hash, mask);
    r := [];
    for i := 0 to t.rowCount
      invariant forall a, b :: 0 <= a < b < |r| ==> r[a] < r[b]
      invariant forall k: nat :: k in r <==> k < i && mask[k]
    {
      if mask[i] {
        assert forall a :: 0 <= a < |r| ==> r[a] in r;
        r := r + [i];
      }
    }
  }

  /** `Vec::retain` with the visibility test. */
  method RetainVisible(q: Query, ixs: seq<nat>) returns (r: seq<nat>)
    requires forall a, b :: 0 <= a < b < |ixs| ==> ixs[a] < ixs[b]
    ensures forall a, b :: 0 <= a < b < |r| ==> r[a] < r[b]
    ensures forall i: nat :: i in r <==> i in ixs && q.IsVisible(i)
  {
    r := [];
    for k := 0 to |ixs|
      invariant forall a, b :: 0 <= a < b < |r| ==> r[a] < r[b]
      invariant forall i: nat :: i in r <==> i in ixs[..k] && q.IsVisible(i)
    {
      assert ixs[..k + 1] == ixs[..k] + [ixs[k]];
      if q.IsVisible(ixs[k]) {
        forall a | 0 <= a < |r| ensures r[a] < ixs[k] { assert r[a] in r && r[a] in ixs[..k]; }
        r := r + [ixs[k]];
      }
    }
    assert ixs[..|ixs|] == ixs;
  }

  /** The query as the serial path reads it. */
  function Serial(q: Query): Query {
    q.(where := Retargeted(q.where, q.table.columnNames))
  }

  /**
   Row selection. Above 1000 rows under MVCC it is the exact answer for every thread count; below,
   it is the answer for the clause on the columns its indices resolve to.
  */
  method FilterIndices(q: Query, hash: string -> u64, numThreads: nat) returns (r: seq<nat>)
    requires q.Valid()
    ensures IsAnswer(if q.mvcc.Some? && q.table.rowCount > 1000 then q else Serial(q), r)
    ensures NoAlias(q.where, q.table.columnNames) ==> r == Kept(q, Range(q.table.rowCount))
  {
    ghost var all := Range(q.table.rowCount);
    KeptIsAnswer(q, q.table.rowCount);
    if q.mvcc.Some? && q.table.rowCount > 1000 {
      r := ParallelScan(q, Range(q.table.rowCount), numThreads, 256);
      return;
    }
    SerialMarks(q.where, q.table, hash);
    r := FilterRows(ClauseExpr(q.where), q.table, hash);
    if q.mvcc.Some? {
      r := RetainVisible(q, r);
    }
    if NoAlias(q.where, q.table.columnNames) {
      RetargetedSame(q.where, q.table.columnNames);
      AnswerUnique(q, r, Kept(q, all));
    }
  }

  lemma AnswerUnique(q: Query, r: seq<nat>, s: seq<nat>)
    requires IsAnswer(q, r) && IsAnswer(q, s)
    ensures r == s
  {
    SortedUnique(r, s);
  }

  lemma NonEmptyHas(s: seq<nat>)
    ensures s != [] ==> exists x: nat :: x in s
  {
    if s != [] { assert s[0] in s; }
  }

  lemma {:induction false} SortedUnique(r: seq<nat>, s: seq<nat>)
    requires forall a, b :: 0 <= a < b < |r| ==> r[a] < r[b]
    requires forall a, b :: 0 <= a < b < |s| ==> s[a] < s[b]
    requires forall i: nat :: i in r <==> i in s
    ensures r == s
    decreases |r|
  {
    if r == [] {
      NonEmptyHas(s);
    } else {
      assert r[0] in s;
      var m, n := |r| - 1, |s| - 1;
      assert r[m] in s && s[n] in r;
      assert r[m] == s[n];
      forall i: nat ensures i in r[..m] <==> i in s[..n] {
        if i in r[..m] { assert i in r && i < r[m]; assert i in s; }
        if i in s[..n] { assert i in s && i < s[n]; assert i in r; }
      }
      SortedUnique(r[..m], s[..n]);
      assert r == r[..m] + [r[m]] && s == s[..n] + [s[n]];
    }
  }

  /** With one comparison in the clause a row is in the answer iff it is visible and its cell is =, !=, <, >, <= or >= the literal. */
  lemma FilterSelects(q: Query, r: seq<nat>, f: Filter, i: nat)
    requires q.Valid() && q.where == Single(f) && IsAnswer(q, r) && i < q.table.rowCount && q.IsVisible(i)
    ensures
      var cell := q.table.columns[f.col][i];
      && (f.op == Eq ==> (i in r <==> cell == f.value))
      && (f.op == NotEq ==> (i in r <==> cell != f.value))
      && (f.op == Lt ==> (i in r <==> cell < f.value))
      && (f.op == Gt ==> (i in r <==> cell > f.value))
      && (f.op == LtEq ==> (i in r <==> cell <= f.value))
      && (f.op == GtEq ==> (i in r <==> cell >= f.value))
  {
    assert q.table.RowAt(i)[f.col] == q.table.columns[f.col][i];
  }
}
