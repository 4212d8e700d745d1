/** GROUP BY in the dispatcher: aggregates per group, result columns, ORDER BY and LIMIT. */
module GroupBy {
  import opened Basics
  import opened Grouping
  import P = Predicates
  import T = Text

  datatype SelectItem =
    | ColumnItem(name: string)
    | LiteralItem(literal: u64)
    | Star
    | AggregateItem(func: string, arg: string, alias: Option<string>)
    | WindowItem
    | ExpressionItem

  datatype GroupQuery = GroupQuery(
    select: seq<SelectItem>,
    groupBy: seq<string>,
    orderBy: Option<(string, bool)>,
    limit: Option<nat>)

  datatype ResultColumn = ResultColumn(name: string, values: seq<u64>)

  /** The float encodings of SUM and AVG results, which the integers below are passed through. */
  datatype Floats = Floats(ofSum: u64 -> u64, ofAverage: (u64, nat) -> u64)

  function CellAt(t: P.QTable, c: nat, i: nat): u64 {
    if c < |t.columns| && i < |t.columns[c]| then t.columns[c][i] else 0
  }

  function Cells(t: P.QTable, c: nat, rows: seq<nat>): (r: seq<u64>)
    ensures |r| == |rows|
  {
    seq(|rows|, k requires 0 <= k < |rows| => CellAt(t, c, rows[k]))
  }

  // ----- aggregates -----

  function WrappingSum(cells: seq<u64>): u64 {
    if cells == [] then 0 else (WrappingSum(cells[..|cells| - 1]) + cells[|cells| - 1]) % TWO_64
  }

  function NonZero(cells: seq<u64>): (n: nat)
    ensures n <= |cells|
  {
    if cells == [] then 0 else NonZero(cells[..|cells| - 1]) + (if cells[|cells| - 1] != 0 then 1 else 0)
  }

  function Least(cells: seq<u64>): (m: u64)
    requires cells != []
    ensures m in cells
    ensures forall i :: 0 <= i < |cells| ==> m <= cells[i]
  {
    var n := |cells| - 1;
    if n == 0 then cells[0]
    else
      var m := Least(cells[..n]);
      if cells[n] < m then cells[n] else m
  }

  function Greatest(cells: seq<u64>): (m: u64)
    requires cells != []
    ensures m in cells
    ensures forall i :: 0 <= i < |cells| ==> cells[i] <= m
  {
    var n := |cells| - 1;
    if n == 0 then cells[0]
    else
      var m := Greatest(cells[..n]);
      if cells[n] >= m then cells[n] else m
  }

  /** The aggregate's column; an unknown name falls back to the first column. */
  function ArgColumn(t: P.QTable, arg: string): nat {
    match P.ResolveColumn(t.columnNames, arg)
    case Some(c) => c
    case None => 0
  }

  datatype AggregateKind = CountRows | CountColumn | Sum | Average | Minimum | Maximum | CountDistinct | Unknown

  /** The function a SELECT item names, whatever its case. */
  function KindOf(func: string, arg: string): AggregateKind {
    var f := T.Upper(func);
    if f == "COUNT" then (if arg == "*" then CountRows else CountColumn)
    else if f == "SUM" then Sum
    else if f == "AVG" then Average
    else if f == "MIN" then Minimum
    else if f == "MAX" then Maximum
    else if f == "COUNT_DISTINCT" then CountDistinct
    else Unknown
  }

  /** The aggregate of the cells of a group, one per row. */
  function Fold(kind: AggregateKind, cells: seq<u64>, floats: Floats): u64 {
    match kind
    case CountRows => |cells| % TWO_64
    case CountColumn => NonZero(cells) % TWO_64
    case Sum => floats.ofSum(WrappingSum(cells))
    case Average => if cells == [] then 0 else floats.ofAverage(WrappingSum(cells), |cells|)
    case Minimum => if cells == [] then 0 else Least(cells)
    case Maximum => if cells == [] then 0 else Greatest(cells)
    case CountDistinct => DistinctCount(cells) % TWO_64
    case Unknown => 0
  }

  function Aggregate(func: string, arg: string, t: P.QTable, rows: seq<nat>, floats: Floats): u64 {
    Fold(KindOf(func, arg), Cells(t, ArgColumn(t, arg), rows), floats)
  }

  function Weight(t: P.QTable, c: nat): nat -> nat {
    i => CellAt(t, c, i)
  }

  /** The exact, unbounded sum of a column over some rows. */
  function ColumnTotal(t: P.QTable, c: nat, rows: seq<nat>): nat {
    Total(rows, Weight(t, c))
  }

  lemma {:induction false} WrappingSumIsTotal(t: P.QTable, c: nat, rows: seq<nat>)
    ensures WrappingSum(Cells(t, c, rows)) == ColumnTotal(t, c, rows) % TWO_64
  {
    if rows != [] {
      var n := |rows| - 1;
      WrappingSumIsTotal(t, c, rows[..n]);
      assert Cells(t, c, rows)[..n] == Cells(t, c, rows[..n]);
      assert ColumnTotal(t, c, rows) == ColumnTotal(t, c, rows[..n]) + CellAt(t, c, rows[n]);
      ModAdd(ColumnTotal(t, c, rows[..n]), CellAt(t, c, rows[n]));
    }
  }

  lemma ModAdd(a: nat, b: nat)
    ensures (a % TWO_64 + b) % TWO_64 == (a + b) % TWO_64
  {
    assert a == (a / TWO_64) * TWO_64 + a % TWO_64;
    assert (a + b) == (a / TWO_64) * TWO_64 + (a % TWO_64 + b);
  }

  /** The u64 sum is the real sum iff the real sum fits. */
  lemma SumExactIff(t: P.QTable, c: nat, rows: seq<nat>)
    ensures WrappingSum(Cells(t, c, rows)) == ColumnTotal(t, c, rows) <==> ColumnTotal(t, c, rows) < TWO_64
  {
    WrappingSumIsTotal(t, c, rows);
  }

  /** COUNT of a column without a NULL bitmap counts the rows iff no cell is zero. */
  lemma {:induction false} CountSkipsZeros(cells: seq<u64>)
    ensures NonZero(cells) == |cells| <==> 0 !in cells
  {
    if cells != [] {
      var n := |cells| - 1;
      assert cells == cells[..n] + [cells[n]];
      CountSkipsZeros(cells[..n]);
    }
  }

  /** The size of the hash set of the elements. */
  function DistinctCount<K(==)>(s: seq<K>): nat {
    |set x | x in s|
  }

  lemma {:induction false} DistinctCounts<K>(s: seq<K>)
    ensures DistinctCount(s) == |Distinct(s)|
  {
    if s != [] {
      var n := |s| - 1;
      DistinctCounts(s[..n]);
      var before, after := set x | x in s[..n], set x | x in s;
      assert s == s[..n] + [s[n]];
      assert after == before + {s[n]};
      assert s[n] in before <==> s[n] in s[..n];
      if s[n] in s[..n] { assert after == before; } else { assert |after| == |before| + 1; }
    }
  }

  // ----- the result columns of a single-key query -----

  datatype Grouped = Grouped(table: P.QTable, indices: seq<nat>, groupCol: nat, floats: Floats)
  {
    function Keys(): (k: seq<u64>)
      ensures |k| == |indices|
    {
      Cells(table, groupCol, indices)
    }

    function Bucket(k: u64): seq<nat> {
      RowsWith(indices, Keys(), k)
    }
  }

  function FirstCell(t: P.QTable, c: nat, rows: seq<nat>): u64 {
    if rows == [] then 0 else CellAt(t, c, rows[0])
  }

  function GroupValue(item: SelectItem, q: GroupQuery, g: Grouped, k: u64): u64 {
    match item
    case ColumnItem(name) =>
      if name in q.groupBy then k
      else
        var c := P.ResolveColumn(g.table.columnNames, name);
        FirstCell(g.table, if c.Some? then c.value else g.groupCol, g.Bucket(k))
    case LiteralItem(v) => v
    case AggregateItem(func, arg, _) => Aggregate(func, arg, g.table, g.Bucket(k), g.floats)
    case Star => 0
    case WindowItem => 0
    case ExpressionItem => 0
  }

  function ItemName(item: SelectItem): string {
    match item
    case ColumnItem(name) => name
    case LiteralItem(v) => T.Decimal(v)
    case AggregateItem(func, _, alias) => (match alias case Some(a) => a case None => func)
    case Star => ""
    case WindowItem => ""
    case ExpressionItem => ""
  }

  /** One column per SELECT item, one value per group in first-seen order. */
  function ItemColumn(item: SelectItem, q: GroupQuery, g: Grouped): (c: ResultColumn)
    ensures |c.values| == |Distinct(g.Keys())|
  {
    var order := Distinct(g.Keys());
    ResultColumn(ItemName(item), seq(|order|, j requires 0 <= j < |order| => GroupValue(item, q, g, order[j])))
  }

  function SingleColumns(select: seq<SelectItem>, q: GroupQuery, g: Grouped): (r: Result<seq<ResultColumn>>)
    ensures r.Ok? ==> SameLength(r.value, |Distinct(g.Keys())|)
  {
    if select == [] then Ok([])
    else
      var item := select[|select| - 1];
      match SingleColumns(select[..|select| - 1], q, g)
      case Err(e) => Err(e)
      case Ok(cols) =>
        if item.Star? then Ok(cols)
        else if item.WindowItem? then Err(Other("window function in single-key GROUP BY"))
        else if item.ExpressionItem? then Err(Other("expression in single-key GROUP BY"))
        else Ok(cols + [ItemColumn(item, q, g)])
  }

  predicate SameLength(cols: seq<ResultColumn>, n: nat) {
    forall c :: 0 <= c < |cols| ==> |cols[c].values| == n
  }

  /** The values of one column, group by group, from the hash map of buckets. */
  method EmitColumn(item: SelectItem, q: GroupQuery, g: Grouped, order: seq<u64>, buckets: map<u64, seq<nat>>)
    returns (c: ResultColumn)
    requires order == Distinct(g.Keys())
    requires forall k :: k in order ==> k in buckets && buckets[k] == g.Bucket(k)
    requires !item.Star? && !item.WindowItem? && !item.ExpressionItem?
    ensures c == ItemColumn(item, q, g)
  {
    var values: seq<u64> := [];
    for j := 0 to |order|
      invariant |values| == j && forall k :: 0 <= k < j ==> values[k] == GroupValue(item, q, g, order[k])
    {
      var bucket := buckets[order[j]];
      var v: u64;
      if item.ColumnItem? {
        if item.name in q.groupBy {
          v := order[j];
        } else {
          var c := P.ResolveColumn(g.table.columnNames, item.name);
          v := FirstCell(g.table, if c.Some? then c.value else g.groupCol, bucket);
        }
      } else if item.LiteralItem? {
        v := item.literal;
      } else {
        v := Aggregate(item.func, item.arg, g.table, bucket, g.floats);
      }
      values := values + [v];
    }
    c := ResultColumn(ItemName(item), values);
  }

  /** The fast path for one grouping column. */
  method ExecuteSingleKey(q: GroupQuery, g: Grouped) returns (r: Result<seq<ResultColumn>>)
    ensures SingleColumns(q.select, q, g).Err? ==> r == SingleColumns(q.select, q, g)
    ensures SingleColumns(q.select, q, g).Ok? ==> IsOrdered(SingleColumns(q.select, q, g).value, |Distinct(g.Keys())|, q, r)
  {
    var keys := g.Keys();
    var buckets := BuildBuckets(g.indices, keys);
    var order := KeysInOrder(keys);
    DistinctIsFirstSeen(keys);
    var cols: seq<ResultColumn> := [];
    for s := 0 to |q.select|
      invariant SingleColumns(q.select[..s], q, g) == Ok(cols)
    {
      var item := q.select[s];
      SelectStep(q.select, s, q, g);
      if item.WindowItem? { return Err(Other("window function in single-key GROUP BY")); }
      if item.ExpressionItem? { return Err(Other("expression in single-key GROUP BY")); }
      if !item.Star? {
        var c := EmitColumn(item, q, g, order, buckets);
        cols := cols + [c];
      }
    }
    assert q.select[..|q.select|] == q.select;
    r := OrderAndLimit(cols, |order|, q);
  }

  /** An unsupported item anywhere makes the whole list fail with that item's error. */
  lemma {:induction false} SelectFails(select: seq<SelectItem>, s: nat, q: GroupQuery, g: Grouped)
    requires s <= |select| && SingleColumns(select[..s], q, g).Err?
    ensures SingleColumns(select, q, g) == SingleColumns(select[..s], q, g)
    decreases |select| - s
  {
    if s == |select| {
      assert select[..s] == select;
    } else {
      assert select[..s + 1][..s] == select[..s];
      SelectFails(select, s + 1, q, g);
    }
  }

  lemma SelectStep(select: seq<SelectItem>, s: nat, q: GroupQuery, g: Grouped)
    requires s < |select| && SingleColumns(select[..s], q, g).Ok?
    ensures
      var cols := SingleColumns(select[..s], q, g).value;
      SingleColumns(select[..s + 1], q, g) ==
        if select[s].Star? then Ok(cols)
        else if select[s].WindowItem? then Err(Other("window function in single-key GROUP BY"))
        else if select[s].ExpressionItem? then Err(Other("expression in single-key GROUP BY"))
        else Ok(cols + [ItemColumn(select[s], q, g)])
    ensures SingleColumns(select[..s + 1], q, g).Err? ==> SingleColumns(select, q, g) == SingleColumns(select[..s + 1], q, g)
  {
    assert select[..s + 1][..s] == select[..s];
    if SingleColumns(select[..s + 1], q, g).Err? { SelectFails(select, s + 1, q, g); }
  }

  // ----- ORDER BY and LIMIT -----

  /** Row `x` comes before row `y`: by value, and by position among equal values. */
  predicate Precedes(values: seq<u64>, ascending: bool, x: nat, y: nat)
    requires x < |values| && y < |values|
  {
    || (if ascending then values[x] < values[y] else values[y] < values[x])
    || (values[x] == values[y] && x < y)
  }

  /** A permutation of the rows of the first `n`, sorted and stable. */
  ghost predicate StableSort(idx: seq<nat>, n: nat, values: seq<u64>, ascending: bool)
    requires n <= |values|
  {
    && |idx| == n
    && (forall i: nat :: i in idx <==> i < n)
    && (forall a, b :: 0 <= a < b < n ==> idx[a] < n && idx[b] < n && Precedes(values, ascending, idx[a], idx[b]))
  }

  /** Read in this order the values rise, or fall. */
  ghost predicate ValuesInOrder(idx: seq<nat>, values: seq<u64>, ascending: bool) {
    && (forall a :: 0 <= a < |idx| ==> idx[a] < |values|)
    && (forall a, b :: 0 <= a < b < |idx| ==>
          if ascending then values[idx[a]] <= values[idx[b]] else values[idx[a]] >= values[idx[b]])
  }

  lemma StableSortOrders(idx: seq<nat>, values: seq<u64>, ascending: bool)
    requires StableSort(idx, |values|, values, ascending)
    ensures ValuesInOrder(idx, values, ascending)
  {
    forall a | 0 <= a < |idx| ensures idx[a] < |values| { assert idx[a] in idx; }
    forall a, b | 0 <= a < b < |idx| ensures if ascending then values[idx[a]] <= values[idx[b]] else values[idx[a]] >= values[idx[b]] {
      assert Precedes(values, ascending, idx[a], idx[b]);
    }
  }

  method SortIndices(values: seq<u64>, ascending: bool) returns (idx: seq<nat>)
    ensures StableSort(idx, |values|, values, ascending)
    ensures ValuesInOrder(idx, values, ascending)
  {
    idx := [];
    for i := 0 to |values|
      invariant StableSort(idx, i, values, ascending)
    {
      var k := |idx|;
      forall a | 0 <= a < |idx| ensures idx[a] < i { assert idx[a] in idx; }
      while k > 0 && !Precedes(values, ascending, idx[k - 1], i)
        invariant 0 <= k <= |idx|
        invariant forall a :: k <= a < |idx| ==> !Precedes(values, ascending, idx[a], i)
      {
        k := k - 1;
      }
      InsertKeepsSort(idx, i, k, values, ascending);
      idx := idx[..k] + [i] + idx[k..];
    }
    StableSortOrders(idx, values, ascending);
  }

  lemma InsertKeepsSort(idx: seq<nat>, i: nat, k: nat, values: seq<u64>, ascending: bool)
    requires i < |values| && StableSort(idx, i, values, ascending) && k <= |idx|
    requires forall a :: 0 <= a < |idx| ==> idx[a] < i
    requires k > 0 ==> Precedes(values, ascending, idx[k - 1], i)
    requires forall a :: k <= a < |idx| ==> !Precedes(values, ascending, idx[a], i)
    ensures StableSort(idx[..k] + [i] + idx[k..], i + 1, values, ascending)
  {
    var out := idx[..k] + [i] + idx[k..];
    InsertMembers(idx, k, i);
    forall a, b | 0 <= a < b < i + 1 ensures out[a] < i + 1 && out[b] < i + 1 && Precedes(values, ascending, out[a], out[b]) {
      InsertOrder(idx, i, k, values, ascending, a, b);
    }
  }

  lemma InsertMembers(idx: seq<nat>, k: nat, i: nat)
    requires k <= |idx|
    ensures forall j: nat :: j in idx[..k] + [i] + idx[k..] <==> j in idx || j == i
  {
    assert idx == idx[..k] + idx[k..];
  }

  lemma InsertOrder(idx: seq<nat>, i: nat, k: nat, values: seq<u64>, ascending: bool, a: nat, b: nat)
    requires i < |values| && StableSort(idx, i, values, ascending) && k <= |idx|
    requires forall a :: 0 <= a < |idx| ==> idx[a] < i
    requires k > 0 ==> Precedes(values, ascending, idx[k - 1], i)
    requires forall a :: k <= a < |idx| ==> !Precedes(values, ascending, idx[a], i)
    requires a < b < i + 1
    ensures
      var out := idx[..k] + [i] + idx[k..];
      out[a] <= i && out[b] <= i && Precedes(values, ascending, out[a], out[b])
  {
    var out := idx[..k] + [i] + idx[k..];
    if b == k {
      if a < k - 1 { assert Precedes(values, ascending, idx[a], idx[k - 1]); }
    } else if a == k {
      assert out[b] == idx[b - 1];
    } else if b < k {
      assert out[a] == idx[a] && out[b] == idx[b];
    } else {
      assert out[b] == idx[b - 1] && out[a] == if a < k then idx[a] else idx[a - 1];
    }
  }

  /** There is only one stable sort, so the result does not depend on the sorting algorithm. */
  lemma {:induction false} StableSortUnique(a: seq<nat>, b: seq<nat>, n: nat, values: seq<u64>, ascending: bool, k: nat)
    requires n <= |values| && StableSort(a, n, values, ascending) && StableSort(b, n, values, ascending) && k <= n
    ensures a[..k] == b[..k]
  {
    if k > 0 {
      StableSortUnique(a, b, n, values, ascending, k - 1);
      assert a[k - 1] in a && b[k - 1] in b;
      assert a[k - 1] in b && b[k - 1] in a;
      var p :| 0 <= p < n && b[p] == a[k - 1];
      var r :| 0 <= r < n && a[r] == b[k - 1];
      NotEarlier(a, b, n, values, ascending, k - 1, p);
      NotEarlier(b, a, n, values, ascending, k - 1, r);
      assert a[k - 1] == b[k - 1];
      assert a[..k] == a[..k - 1] + [a[k - 1]] && b[..k] == b[..k - 1] + [b[k - 1]];
    }
  }

  lemma NotEarlier(a: seq<nat>, b: seq<nat>, n: nat, values: seq<u64>, ascending: bool, k: nat, p: nat)
    requires n <= |values| && StableSort(a, n, values, ascending) && StableSort(b, n, values, ascending)
    requires k < n && p < n && a[..k] == b[..k] && b[p] == a[k]
    ensures p >= k
  {
    assert forall j :: 0 <= j < k ==> a[..k][j] == b[j];
  }

  function Permuted(cols: seq<ResultColumn>, idx: seq<nat>): (r: seq<ResultColumn>)
    requires forall c, j :: 0 <= c < |cols| && 0 <= j < |idx| ==> idx[j] < |cols[c].values|
    ensures |r| == |cols| && SameLength(r, |idx|)
  {
    seq(|cols|, c requires 0 <= c < |cols| =>
      ResultColumn(cols[c].name, seq(|idx|, j requires 0 <= j < |idx| => cols[c].values[idx[j]])))
  }

  function Limited(cols: seq<ResultColumn>, n: nat, limit: Option<nat>): (r: seq<ResultColumn>)
    requires SameLength(cols, n)
    ensures |r| == |cols|
    ensures forall c :: 0 <= c < |cols| ==> r[c].name == cols[c].name && r[c].values <= cols[c].values
    ensures SameLength(r, if limit.Some? && limit.value < n then limit.value else n)
  {
    if limit.Some? && limit.value < n then
      seq(|cols|, c requires 0 <= c < |cols| => ResultColumn(cols[c].name, cols[c].values[..limit.value]))
    else cols
  }

  function Names(cols: seq<ResultColumn>): (r: seq<string>)
    ensures |r| == |cols|
  {
    seq(|cols|, c requires 0 <= c < |cols| => cols[c].name)
  }

  /** The answer is a prefix of the rows in their stable order. */
  ghost predicate IsPrefixOfSort(cols: seq<ResultColumn>, n: nat, c: nat, ascending: bool, limit: Option<nat>, r: seq<ResultColumn>)
    requires SameLength(cols, n) && c < |cols|
  {
    exists idx :: StableSort(idx, n, cols[c].values, ascending) && InRows(idx, n) && r == Limited(Permuted(cols, idx), n, limit)
  }

  predicate InRows(idx: seq<nat>, n: nat) {
    |idx| == n && forall j :: 0 <= j < |idx| ==> idx[j] < n
  }

  ghost predicate IsOrdered(cols: seq<ResultColumn>, n: nat, q: GroupQuery, r: Result<seq<ResultColumn>>)
    requires SameLength(cols, n)
  {
    match q.orderBy
    case None => r == Ok(Limited(cols, n, q.limit))
    case Some(key) =>
      match Position(Names(cols), key.0)
      case None => r == Err(NotFound(key.0))
      case Some(c) => r.Ok? && IsPrefixOfSort(cols, n, c, key.1, q.limit, r.value)
  }

  predicate InOrder(values: seq<u64>, ascending: bool) {
    forall a, b :: 0 <= a < b < |values| ==> if ascending then values[a] <= values[b] else values[a] >= values[b]
  }

  /** ORDER BY the first sort key, then LIMIT. */
  method OrderAndLimit(cols: seq<ResultColumn>, n: nat, q: GroupQuery) returns (r: Result<seq<ResultColumn>>)
    requires SameLength(cols, n)
    ensures IsOrdered(cols, n, q, r)
    ensures r.Ok? && q.orderBy.Some? ==>
      |r.value| == |cols| && InOrder(r.value[Position(Names(cols), q.orderBy.value.0).value].values, q.orderBy.value.1)
  {
    if q.orderBy.None? {
      return Ok(Limited(cols, n, q.limit));
    }
    var key := q.orderBy.value;
    var c := Position(Names(cols), key.0);
    if c.None? { return Err(NotFound(key.0)); }
    var idx := SortIndices(cols[c.value].values, key.1);
    forall j | 0 <= j < |idx| ensures idx[j] < n { assert idx[j] in idx; }
    assert InRows(idx, n);
    r := Ok(Limited(Permuted(cols, idx), n, q.limit));
  }

  // ----- several grouping columns -----

  datatype MultiGrouped = MultiGrouped(table: P.QTable, indices: seq<nat>, groupCols: seq<nat>, floats: Floats)
  {
    /** The composite key of a row. */
    function KeyAt(i: nat): (k: seq<u64>)
      ensures |k| == |groupCols|
    {
      seq(|groupCols|, c requires 0 <= c < |groupCols| => CellAt(table, groupCols[c], i))
    }

    function Keys(): (k: seq<seq<u64>>)
      ensures |k| == |indices|
    {
      seq(|indices|, p requires 0 <= p < |indices| => KeyAt(indices[p]))
    }

    function Bucket(h: u64): seq<nat> {
      RowsWith(indices, Hashes(Keys()), h)
    }
  }

  function KeyColumn(g: MultiGrouped, name: string, c: nat, order: seq<u64>): (r: ResultColumn)
    ensures |r.values| == |order|
  {
    ResultColumn(name, seq(|order|, j requires 0 <= j < |order| => FirstCell(g.table, c, g.Bucket(order[j]))))
  }

  function KeyColumns(g: MultiGrouped, names: seq<string>, order: seq<u64>): (r: seq<ResultColumn>)
    requires |names| == |g.groupCols|
    ensures |r| == |names| && SameLength(r, |order|)
  {
    seq(|names|, i requires 0 <= i < |names| => KeyColumn(g, names[i], g.groupCols[i], order))
  }

  function AggregateColumn(g: MultiGrouped, item: SelectItem, order: seq<u64>): (r: ResultColumn)
    requires item.AggregateItem?
    ensures |r.values| == |order|
  {
    ResultColumn(ItemName(item), seq(|order|, j requires 0 <= j < |order| =>
      Aggregate(item.func, item.arg, g.table, g.Bucket(order[j]), g.floats)))
  }

  /** Only the aggregates of the SELECT list; every other item is passed over. */
  function AggregateColumns(g: MultiGrouped, select: seq<SelectItem>, order: seq<u64>): (r: seq<ResultColumn>)
    ensures SameLength(r, |order|)
  {
    if select == [] then []
    else
      var item := select[|select| - 1];
      AggregateColumns(g, select[..|select| - 1], order) + (if item.AggregateItem? then [AggregateColumn(g, item, order)] else [])
  }

  function MultiColumns(g: MultiGrouped, q: GroupQuery, order: seq<u64>): (r: seq<ResultColumn>)
    requires |q.groupBy| == |g.groupCols|
    ensures SameLength(r, |order|)
  {
    KeyColumns(g, q.groupBy, order) + AggregateColumns(g, q.select, order)
  }

  /** Every hash that occurs, once: the iteration order of the hash map is not specified. */
  ghost predicate Enumerates(order: seq<u64>, hashes: seq<u64>) {
    NoDuplicates(order) && forall h :: h in order <==> h in hashes
  }

  method AnyOrder(keys: set<u64>) returns (order: seq<u64>)
    ensures NoDuplicates(order) && forall h :: h in order <==> h in keys
  {
    order := [];
    var left := keys;
    while left != {}
      invariant left <= keys && NoDuplicates(order)
      invariant forall h :: h in order <==> h in keys && h !in left
      decreases |left|
    {
      var h :| h in left;
      assert h !in order;
      order := order + [h];
      left := left - {h};
    }
  }

  method HashKeys(g: MultiGrouped) returns (hashes: seq<u64>)
    ensures hashes == Hashes(g.Keys())
  {
    hashes := [];
    for p := 0 to |g.indices|
      invariant |hashes| == p && forall k :: 0 <= k < p ==> hashes[k] == HashKey(g.KeyAt(g.indices[k]))
    {
      var h := HashRow(g.KeyAt(g.indices[p]));
      hashes := hashes + [h];
    }
  }

  /** One result row per present hash, in some order of the groups, then ordered and limited. */
  ghost predicate IsMultiAnswer(q: GroupQuery, g: MultiGrouped, r: Result<seq<ResultColumn>>)
    requires |q.groupBy| == |g.groupCols|
  {
    exists order :: Enumerates(order, Hashes(g.Keys())) && IsOrdered(MultiColumns(g, q, order), |order|, q, r)
  }

  /** The path for several grouping columns. */
  method ExecuteMultiKey(q: GroupQuery, g: MultiGrouped) returns (r: Result<seq<ResultColumn>>)
    requires |q.groupBy| == |g.groupCols|
    ensures IsMultiAnswer(q, g, r)
  {
    var hashes := HashKeys(g);
    var buckets := BuildBuckets(g.indices, hashes);
    var groups := AnyOrder(buckets.Keys);
    var cols := EmitMulti(q, g, groups, buckets);
    r := OrderAndLimit(cols, |groups|, q);
  }

  method EmitMulti(q: GroupQuery, g: MultiGrouped, order: seq<u64>, buckets: map<u64, seq<nat>>) returns (cols: seq<ResultColumn>)
    requires |q.groupBy| == |g.groupCols|
    requires forall h :: h in order ==> h in buckets && buckets[h] == g.Bucket(h)
    ensures cols == MultiColumns(g, q, order)
  {
    cols := [];
    for i := 0 to |q.groupBy|
      invariant |cols| == i && forall k :: 0 <= k < i ==> cols[k] == KeyColumn(g, q.groupBy[k], g.groupCols[k], order)
    {
      var values := seq(|order|, j requires 0 <= j < |order| => FirstCell(g.table, g.groupCols[i], buckets[order[j]]));
      assert values == KeyColumn(g, q.groupBy[i], g.groupCols[i], order).values;
      cols := cols + [ResultColumn(q.groupBy[i], values)];
    }
    assert cols == KeyColumns(g, q.groupBy, order);
    for s := 0 to |q.select|
      invariant cols == KeyColumns(g, q.groupBy, order) + AggregateColumns(g, q.select[..s], order)
    {
      assert q.select[..s + 1][..s] == q.select[..s];
      var item := q.select[s];
      if item.AggregateItem? {
        var values := seq(|order|, j requires 0 <= j < |order| =>
          Aggregate(item.func, item.arg, g.table, buckets[order[j]], g.floats));
        assert values == AggregateColumn(g, item, order).values;
        cols := cols + [ResultColumn(ItemName(item), values)];
      }
    }
    assert q.select[..|q.select|] == q.select;
  }

  // ----- the whole query -----

  /** The rows the WHERE mask keeps. */
  function Filtered(mask: seq<bool>): seq<nat> {
    if mask == [] then []
    else Filtered(mask[..|mask| - 1]) + (if mask[|mask| - 1] then [|mask| - 1] else [])
  }

  lemma {:induction false} FilteredMember(mask: seq<bool>, i: nat)
    ensures i in Filtered(mask) <==> i < |mask| && mask[i]
  {
    if mask != [] {
      FilteredMember(mask[..|mask| - 1], i);
    }
  }

  /** Filtered rows are the rows of the mask, each once. */
  lemma {:induction false} FilteredRows(mask: seq<bool>)
    ensures forall i: nat :: i in Filtered(mask) <==> i < |mask| && mask[i]
    ensures NoDuplicates(Filtered(mask))
  {
    forall i: nat ensures i in Filtered(mask) <==> i < |mask| && mask[i] { FilteredMember(mask, i); }
    if mask != [] {
      var n := |mask| - 1;
      FilteredRows(mask[..n]);
      assert n !in Filtered(mask[..n]);
    }
  }

  method FilterRows(mask: seq<bool>) returns (indices: seq<nat>)
    ensures indices == Filtered(mask)
  {
    indices := [];
    for i := 0 to |mask|
      invariant indices == Filtered(mask[..i])
    {
      assert mask[..i + 1][..i] == mask[..i];
      if mask[i] { indices := indices + [i]; }
    }
    assert mask[..|mask|] == mask;
  }

  /** The grouping columns, or the first name that is no column. */
  function ResolveAll(t: P.QTable, names: seq<string>): (r: Result<seq<nat>>)
    ensures r.Ok? ==> |r.value| == |names|
  {
    if names == [] then Ok([])
    else
      match ResolveAll(t, names[..|names| - 1])
      case Err(e) => Err(e)
      case Ok(cols) =>
        var c := P.ResolveColumn(t.columnNames, names[|names| - 1]);
        if c.None? then Err(NotFound(names[|names| - 1])) else Ok(cols + [c.value])
  }

  ghost predicate IsSingleAnswer(q: GroupQuery, g: Grouped, r: Result<seq<ResultColumn>>) {
    match SingleColumns(q.select, q, g)
    case Err(e) => r == Err(e)
    case Ok(cols) => IsOrdered(cols, |Distinct(g.Keys())|, q, r)
  }

  /** The only grouping column holds strings. */
  predicate GroupsStrings(q: GroupQuery, t: P.QTable) {
    var cols := ResolveAll(t, q.groupBy);
    cols.Ok? && |cols.value| == 1 && cols.value[0] < |t.strings| && t.strings[cols.value[0]].Some?
  }

  /** GROUP BY over the rows a WHERE mask keeps; a single string column takes another path. */
  method ExecuteGroupBy(q: GroupQuery, t: P.QTable, mask: seq<bool>, floats: Floats) returns (r: Result<seq<ResultColumn>>)
    requires !GroupsStrings(q, t)
    ensures ResolveAll(t, q.groupBy).Err? ==> r == Err(ResolveAll(t, q.groupBy).error)
    ensures ResolveAll(t, q.groupBy).Ok? && |q.groupBy| == 1 ==>
      IsSingleAnswer(q, Grouped(t, Filtered(mask), ResolveAll(t, q.groupBy).value[0], floats), r)
    ensures ResolveAll(t, q.groupBy).Ok? && |q.groupBy| != 1 ==>
      IsMultiAnswer(q, MultiGrouped(t, Filtered(mask), ResolveAll(t, q.groupBy).value, floats), r)
  {
    var indices := FilterRows(mask);
    var cols := ResolveAll(t, q.groupBy);
    if cols.Err? { return Err(cols.error); }
    if |q.groupBy| == 1 {
      r := ExecuteSingleKey(q, Grouped(t, indices, cols.value[0], floats));
    } else {
      r := ExecuteMultiKey(q, MultiGrouped(t, indices, cols.value, floats));
    }
  }

  // ----- what the results mean -----

  /** The positions whose cell is not zero. */
  function NonZeroPositions(cells: seq<u64>): set<nat> {
    set k: nat | k < |cells| && cells[k] != 0
  }

  /** What the function called `f` says of a group, stated on the rows themselves. */
  ghost predicate IsAggregate(f: string, arg: string, t: P.QTable, rows: seq<nat>, floats: Floats, v: u64) {
    var cells, total := Cells(t, ArgColumn(t, arg), rows), ColumnTotal(t, ArgColumn(t, arg), rows);
    && (f == "COUNT" && |rows| < TWO_64 ==> v == if arg == "*" then |rows| else |NonZeroPositions(cells)|)
    && (f == "SUM" && total < TWO_64 ==> v == floats.ofSum(total))
    && (f == "AVG" && rows != [] && total < TWO_64 ==> v == floats.ofAverage(total, |rows|))
    && (f == "MIN" && rows != [] ==> v in cells && forall i :: 0 <= i < |cells| ==> v <= cells[i])
    && (f == "MAX" && rows != [] ==> v in cells && forall i :: 0 <= i < |cells| ==> cells[i] <= v)
    && (f == "COUNT_DISTINCT" && |rows| < TWO_64 ==> v == |Distinct(cells)|)
    && (rows == [] && f != "SUM" ==> v == 0)
    && (f !in ["COUNT", "SUM", "AVG", "MIN", "MAX", "COUNT_DISTINCT"] ==> v == 0)
  }

  lemma {:induction false} NonZeroCounts(cells: seq<u64>)
    ensures NonZero(cells) == |NonZeroPositions(cells)|
  {
    if cells != [] {
      var n := |cells| - 1;
      NonZeroCounts(cells[..n]);
      var before, after := NonZeroPositions(cells[..n]), NonZeroPositions(cells);
      if cells[n] != 0 { assert after == before + {n}; } else { assert after == before; }
    } else {
      assert NonZeroPositions(cells) == {};
    }
  }

  lemma {:induction false} DistinctLength<K>(s: seq<K>)
    ensures |Distinct(s)| <= |s|
  {
    if s != [] { DistinctLength(s[..|s| - 1]); }
  }

  /** Every aggregate equals the direct computation over the rows of its group, by the name of the function in any case. */
  lemma AggregateCorrect(func: string, arg: string, t: P.QTable, rows: seq<nat>, floats: Floats)
    ensures IsAggregate(T.Upper(func), arg, t, rows, floats, Aggregate(func, arg, t, rows, floats))
  {
    var cells, kind := Cells(t, ArgColumn(t, arg), rows), KindOf(func, arg);
    if kind.Sum? || kind.Average? {
      SumExactIff(t, ArgColumn(t, arg), rows);
    } else if kind.CountColumn? {
      NonZeroCounts(cells);
    } else if kind.CountDistinct? {
      DistinctCounts(cells);
      DistinctLength(cells);
    }
  }

  /** The grouping column of the result holds each group's key once, and the key is the cell of all its rows. */
  lemma GroupColumnHoldsKeys(name: string, q: GroupQuery, g: Grouped)
    requires name in q.groupBy
    ensures
      var values := ItemColumn(ColumnItem(name), q, g).values;
      && (forall a, b :: 0 <= a < b < |values| ==> values[a] != values[b])
      && (forall i :: i in g.indices ==> CellAt(g.table, g.groupCol, i) in values)
      && (forall j, i :: 0 <= j < |values| && i in g.Bucket(values[j]) ==> CellAt(g.table, g.groupCol, i) == values[j])
  {
    var values := ItemColumn(ColumnItem(name), q, g).values;
    assert values == Distinct(g.Keys());
    DistinctEnumerates(g.Keys());
    forall i | i in g.indices ensures CellAt(g.table, g.groupCol, i) in values {
      var p :| 0 <= p < |g.indices| && g.indices[p] == i;
      assert g.Keys()[p] in g.Keys();
    }
    forall j, i | 0 <= j < |values| && i in g.Bucket(values[j]) ensures CellAt(g.table, g.groupCol, i) == values[j] {
      BucketIsGroup(g, values[j], i);
    }
  }

  /** A group holds exactly the filtered rows with its key. */
  lemma BucketIsGroup(g: Grouped, k: u64, i: nat)
    ensures i in g.Bucket(k) <==> i in g.indices && CellAt(g.table, g.groupCol, i) == k
  {
    RowsWithMember(g.indices, g.Keys(), k, i);
    if i in g.indices && CellAt(g.table, g.groupCol, i) == k {
      var p :| 0 <= p < |g.indices| && g.indices[p] == i;
      assert g.Keys()[p] == k;
    }
  }

  function One(): nat -> nat {
    _ => 1
  }

  lemma {:induction false} TotalOfOnes(rows: seq<nat>)
    ensures Total(rows, One()) == |rows|
  {
    if rows != [] { TotalOfOnes(rows[..|rows| - 1]); }
  }

  /** A result column holds the aggregate of every group. */
  ghost predicate Aggregates<K>(values: seq<u64>, func: string, arg: string, t: P.QTable, floats: Floats,
                                order: seq<K>, indices: seq<nat>, keys: seq<K>)
    requires |keys| == |indices|
  {
    && |values| == |order|
    && forall j :: 0 <= j < |order| ==> values[j] == Aggregate(func, arg, t, RowsWith(indices, keys, order[j]), floats)
  }

  /** The groups partition the filtered rows. */
  ghost predicate Partitions<K(!new)>(order: seq<K>, keys: seq<K>) {
    NoDuplicates(order) && forall k :: k in keys ==> k in order
  }

  /** The values are the float encodings of integers that add up to `total`. */
  ghost predicate EncodesSumsOf(values: seq<u64>, floats: Floats, total: nat) {
    exists sums: seq<u64> :: |sums| == |values| && AddUp(sums) == total && forall j :: 0 <= j < |values| ==> values[j] == floats.ofSum(sums[j])
  }

  /** An emitted COUNT(*) column adds up to the filtered rows. */
  lemma CountConserves<K(!new)>(values: seq<u64>, func: string, arg: string, t: P.QTable, floats: Floats,
                                order: seq<K>, indices: seq<nat>, keys: seq<K>)
    requires |keys| == |indices| < TWO_64 && Partitions(order, keys) && KindOf(func, arg).CountRows?
    requires Aggregates(values, func, arg, t, floats, order, indices, keys)
    ensures AddUp(values) == |indices|
  {
    var w := GroupWeights(order, indices, keys, One());
    forall j | 0 <= j < |order| ensures w[j] == values[j] { TotalOfOnes(RowsWith(indices, keys, order[j])); }
    assert values == w;
    WeightsAddUp(order, indices, keys, One());
    GroupsConserve(order, indices, keys, One());
    TotalOfOnes(indices);
  }

  /** An emitted SUM column encodes integers that add up to the filtered total, when that total fits. */
  lemma SumConserves<K(!new)>(values: seq<u64>, func: string, arg: string, t: P.QTable, floats: Floats,
                              order: seq<K>, indices: seq<nat>, keys: seq<K>)
    requires |keys| == |indices| && Partitions(order, keys) && KindOf(func, arg).Sum?
    requires Aggregates(values, func, arg, t, floats, order, indices, keys)
    requires ColumnTotal(t, ArgColumn(t, arg), indices) < TWO_64
    ensures EncodesSumsOf(values, floats, ColumnTotal(t, ArgColumn(t, arg), indices))
  {
    var c := ArgColumn(t, arg);
    var w := GroupWeights(order, indices, keys, Weight(t, c));
    WeightsAddUp(order, indices, keys, Weight(t, c));
    GroupsConserve(order, indices, keys, Weight(t, c));
    forall j | 0 <= j < |w| ensures w[j] < TWO_64 { ElementBelowSum(w, j); }
    var sums: seq<u64> := w;
    forall j | 0 <= j < |values| ensures values[j] == floats.ofSum(sums[j]) {
      SumExactIff(t, c, RowsWith(indices, keys, order[j]));
    }
  }

  /** Single key: the emitted counts add up to the filtered rows, the emitted sums to the filtered total. */
  lemma SingleKeyConserves(item: SelectItem, q: GroupQuery, g: Grouped)
    requires item.AggregateItem? && |g.indices| < TWO_64
    ensures
      var values := ItemColumn(item, q, g).values;
      var total := ColumnTotal(g.table, ArgColumn(g.table, item.arg), g.indices);
      && (KindOf(item.func, item.arg).CountRows? ==> AddUp(values) == |g.indices|)
      && (KindOf(item.func, item.arg).Sum? && total < TWO_64 ==> EncodesSumsOf(values, g.floats, total))
  {
    var keys := g.Keys();
    var order, values := Distinct(keys), ItemColumn(item, q, g).values;
    DistinctEnumerates(keys);
    assert Partitions(order, keys);
    assert Aggregates(values, item.func, item.arg, g.table, g.floats, order, g.indices, keys);
    if KindOf(item.func, item.arg).CountRows? {
      CountConserves(values, item.func, item.arg, g.table, g.floats, order, g.indices, keys);
    }
    if KindOf(item.func, item.arg).Sum? && ColumnTotal(g.table, ArgColumn(g.table, item.arg), g.indices) < TWO_64 {
      SumConserves(values, item.func, item.arg, g.table, g.floats, order, g.indices, keys);
    }
  }

  /** Several keys: the same, in every iteration order and whether or not hashes collide. */
  lemma MultiKeyConserves(item: SelectItem, g: MultiGrouped, order: seq<u64>)
    requires item.AggregateItem? && |g.indices| < TWO_64 && Enumerates(order, Hashes(g.Keys()))
    ensures
      var values := AggregateColumn(g, item, order).values;
      var total := ColumnTotal(g.table, ArgColumn(g.table, item.arg), g.indices);
      && (KindOf(item.func, item.arg).CountRows? ==> AddUp(values) == |g.indices|)
      && (KindOf(item.func, item.arg).Sum? && total < TWO_64 ==> EncodesSumsOf(values, g.floats, total))
  {
    var keys, values := Hashes(g.Keys()), AggregateColumn(g, item, order).values;
    assert Partitions(order, keys);
    assert Aggregates(values, item.func, item.arg, g.table, g.floats, order, g.indices, keys);
    if KindOf(item.func, item.arg).CountRows? {
      CountConserves(values, item.func, item.arg, g.table, g.floats, order, g.indices, keys);
    }
    if KindOf(item.func, item.arg).Sum? && ColumnTotal(g.table, ArgColumn(g.table, item.arg), g.indices) < TWO_64 {
      SumConserves(values, item.func, item.arg, g.table, g.floats, order, g.indices, keys);
    }
  }

  /** The composite key a multi-key result row shows. */
  function ShownKey(g: MultiGrouped, h: u64): seq<u64> {
    var rows := g.Bucket(h);
    seq(|g.groupCols|, c requires 0 <= c < |g.groupCols| => FirstCell(g.table, g.groupCols[c], rows))
  }

  lemma ShownKeyIsPresent(g: MultiGrouped, h: u64) returns (p: nat)
    requires h in Hashes(g.Keys())
    ensures p < |g.indices| && Hashes(g.Keys())[p] == h && ShownKey(g, h) == g.Keys()[p]
  {
    var hashes := Hashes(g.Keys());
    var q :| 0 <= q < |hashes| && hashes[q] == h;
    RowsWithMember(g.indices, hashes, h, g.indices[q]);
    var rows := g.Bucket(h);
    assert rows[0] in rows;
    RowsWithMember(g.indices, hashes, h, rows[0]);
    p :| 0 <= p < |hashes| && hashes[p] == h && g.indices[p] == rows[0];
  }

  /** Without collisions each result row is one composite key with exactly that key's rows. */
  lemma MultiKeyRow(g: MultiGrouped, h: u64)
    requires NoCollision(g.Keys()) && h in Hashes(g.Keys())
    ensures ShownKey(g, h) in g.Keys() && HashKey(ShownKey(g, h)) == h
    ensures g.Bucket(h) == RowsWith(g.indices, g.Keys(), ShownKey(g, h))
  {
    var p := ShownKeyIsPresent(g, h);
    SameRowsWith(g.indices, g.Keys(), Hashes(g.Keys()), g.Keys()[p], h);
  }

  function ShownKeys(g: MultiGrouped, order: seq<u64>): (r: seq<seq<u64>>)
    ensures |r| == |order|
  {
    seq(|order|, j requires 0 <= j < |order| => ShownKey(g, order[j]))
  }

  /** Without collisions the multi-key result lists every composite key exactly once. */
  lemma MultiKeyRefinesVectorKey(g: MultiGrouped, order: seq<u64>)
    requires NoCollision(g.Keys()) && Enumerates(order, Hashes(g.Keys()))
    ensures NoDuplicates(ShownKeys(g, order))
    ensures forall k :: k in ShownKeys(g, order) <==> k in g.Keys()
    ensures forall j :: 0 <= j < |order| ==> g.Bucket(order[j]) == RowsWith(g.indices, g.Keys(), ShownKeys(g, order)[j])
  {
    var shown := ShownKeys(g, order);
    forall j | 0 <= j < |order|
      ensures shown[j] in g.Keys() && HashKey(shown[j]) == order[j] && g.Bucket(order[j]) == RowsWith(g.indices, g.Keys(), shown[j])
    {
      assert order[j] in order;
      MultiKeyRow(g, order[j]);
    }
    forall k | k in g.Keys() ensures k in shown {
      var p :| 0 <= p < |g.Keys()| && g.Keys()[p] == k;
      assert Hashes(g.Keys())[p] == HashKey(k);
      assert HashKey(k) in order;
      var j :| 0 <= j < |order| && order[j] == HashKey(k);
      var s :| 0 <= s < |g.Keys()| && g.Keys()[s] == shown[j];
      assert HashKey(g.Keys()[s]) == HashKey(g.Keys()[p]);
    }
  }
}
