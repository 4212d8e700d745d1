/**
 The WHERE evaluator behind UPDATE, DELETE and CASCADE.

 A condition tree is printed to SQL text, tokenised again, and evaluated after dropping the
 parentheses, left to right, giving AND and OR the same precedence. The theorems say when
 that agrees with the tree that was printed.
*/
module DmlWhere {
  import opened Basics
  import opened Catalog

  /** Conditions over integer literals. */
  datatype Condition =
    | Test(column: string, op: Comparison, value: i64)
    | And(left: Condition, right: Condition)
    | Or(left: Condition, right: Condition)

  /** Tokens; identifiers are assumed to survive printing and lexing unchanged. */
  datatype Token =
    | Ident(name: string)
    | Int(value: i64)
    | Op(text: string)
    | KeywordAnd
    | KeywordOr
    | LParen
    | RParen

  function OpText(op: Comparison): string {
    match op
    case Eq => "="
    case NotEq => "!="
    case Lt => "<"
    case Gt => ">"
    case LtEq => "<="
    case GtEq => ">="
  }

  function ParseOp(text: string): Option<Comparison> {
    if text == "=" then Some(Eq)
    else if text == "!=" || text == "<>" then Some(NotEq)
    else if text == "<" then Some(Lt)
    else if text == ">" then Some(Gt)
    else if text == "<=" then Some(LtEq)
    else if text == ">=" then Some(GtEq)
    else None
  }

  /** A negative literal prints with a sign, which lexes as a separate operator token. */
  function LiteralTokens(v: i64): seq<Token> {
    if v >= 0 then [Int(v)]
    else [Op("-"), Int(if v == -0x8000_0000_0000_0000 then 0 else -v)]
  }

  /** Printing then lexing a condition: every binary node is parenthesised. */
  function Tokens(c: Condition): seq<Token> {
    match c
    case Test(col, op, v) => [LParen, Ident(col), Op(OpText(op))] + LiteralTokens(v) + [RParen]
    case And(l, r) => [LParen] + Tokens(l) + [KeywordAnd] + Tokens(r) + [RParen]
    case Or(l, r) => [LParen] + Tokens(l) + [KeywordOr] + Tokens(r) + [RParen]
  }

  datatype Predicate = Predicate(col: nat, op: Comparison, cell: u64)

  /** Predicates and the connectives between them (true for AND), in token order. */
  datatype Flat = Flat(preds: seq<Predicate>, ands: seq<bool>)

  function Prepend(preds: seq<Predicate>, ands: seq<bool>, r: Result<Flat>): Result<Flat> {
    match r
    case Err(e) => Err(e)
    case Ok(f) => Ok(Flat(preds + f.preds, ands + f.ands))
  }

  /** One `<column> <op> <value>` predicate at the head of the stream. */
  function ReadPredicate(tokens: seq<Token>, names: seq<string>): Result<Predicate>
    requires tokens != []
  {
    if !tokens[0].Ident? then Err(Other("expected column name"))
    else if |tokens| < 3 then Err(Other("incomplete predicate"))
    else if !tokens[1].Op? then Err(Other("expected comparison operator"))
    else if ParseOp(tokens[1].text).None? then Err(Other("unsupported operator"))
    else
      match Position(names, tokens[0].name)
      case None => Err(NotFound(tokens[0].name))
      case Some(c) =>
        if tokens[2].Int? then Ok(Predicate(c, ParseOp(tokens[1].text).value, AsU64(tokens[2].value)))
        else Err(Other("expected literal"))
  }

  /** What the token loop collects. */
  function Scan(tokens: seq<Token>, names: seq<string>): Result<Flat>
    decreases |tokens|
  {
    if tokens == [] then Ok(Flat([], []))
    else if tokens[0].KeywordAnd? then Prepend([], [true], Scan(tokens[1..], names))
    else if tokens[0].KeywordOr? then Prepend([], [false], Scan(tokens[1..], names))
    else if tokens[0].LParen? || tokens[0].RParen? then Scan(tokens[1..], names)
    else
      match ReadPredicate(tokens, names)
      case Err(e) => Err(e)
      case Ok(p) => Prepend([p], [], Scan(tokens[3..], names))
  }

  predicate Holds(p: Predicate, row: Row) {
    Compare(if p.col < |row| then row[p.col] else 0, p.op, p.cell)
  }

  /** The combining loop: left to right, a missing connective counts as AND. */
  function Fold(acc: bool, preds: seq<Predicate>, ands: seq<bool>, row: Row): bool
    decreases |preds|
  {
    if preds == [] then acc
    else
      var and := ands == [] || ands[0];
      Fold(if and then acc && Holds(preds[0], row) else acc || Holds(preds[0], row),
           preds[1..], if ands == [] then [] else ands[1..], row)
  }

  function FlatHolds(f: Flat, row: Row): bool {
    if f.preds == [] then true else Fold(Holds(f.preds[0], row), f.preds[1..], f.ands, row)
  }

  /** The mask of a WHERE clause given as tokens; an empty table skips even the parsing. */
  function SimpleWhere(t: Table, tokens: seq<Token>): Result<seq<bool>> {
    if t.rowCount == 0 then Ok([])
    else
      match Scan(tokens, t.columnNames)
      case Err(e) => Err(e)
      case Ok(f) => Ok(seq(t.rowCount, i => FlatHolds(f, t.RowAt(i))))
  }

  lemma PrependTwice(p: seq<Predicate>, a: seq<bool>, q: seq<Predicate>, b: seq<bool>, r: Result<Flat>)
    ensures Prepend(p, a, Prepend(q, b, r)) == Prepend(p + q, a + b, r)
  {
    if r.Ok? {
      assert p + (q + r.value.preds) == p + q + r.value.preds;
      assert a + (b + r.value.ands) == a + b + r.value.ands;
    }
  }

  lemma PrependNothing(r: Result<Flat>)
    ensures Prepend([], [], r) == r
  {
    if r.Ok? {
      assert [] + r.value.preds == r.value.preds && [] + r.value.ands == r.value.ands;
    }
  }

  lemma {:induction false} FoldStep(acc: bool, preds: seq<Predicate>, ands: seq<bool>, p: Predicate, row: Row)
    ensures Fold(acc, preds + [p], ands, row) ==
            if |preds| >= |ands| || ands[|preds|] then Fold(acc, preds, ands, row) && Holds(p, row)
            else Fold(acc, preds, ands, row) || Holds(p, row)
    decreases |preds|
  {
    if preds == [] {
      assert preds + [p] == [p];
    } else {
      assert (preds + [p])[1..] == preds[1..] + [p];
      var and := ands == [] || ands[0];
      FoldStep(if and then acc && Holds(preds[0], row) else acc || Holds(preds[0], row),
               preds[1..], if ands == [] then [] else ands[1..], p, row);
    }
  }

  /** The parse loop. */
  method ParsePredicates(tokens: seq<Token>, names: seq<string>) returns (r: Result<Flat>)
    ensures r == Scan(tokens, names)
  {
    var preds: seq<Predicate>, ands: seq<bool>, i := [], [], 0;
    PrependNothing(Scan(tokens, names));
    assert tokens[0..] == tokens;
    while i < |tokens|
      invariant 0 <= i <= |tokens|
      invariant Scan(tokens, names) == Prepend(preds, ands, Scan(tokens[i..], names))
    {
      ghost var rest := tokens[i..];
      if tokens[i].KeywordAnd? || tokens[i].KeywordOr? {
        var and := tokens[i].KeywordAnd?;
        PrependTwice(preds, ands, [], [and], Scan(rest[1..], names));
        assert rest[1..] == tokens[i + 1..] && preds + [] == preds;
        ands := ands + [and];
        i := i + 1;
      } else if tokens[i].LParen? || tokens[i].RParen? {
        assert rest[1..] == tokens[i + 1..];
        i := i + 1;
      } else {
        var p := ReadPredicate(tokens[i..], names);
        if p.Err? {
          return Err(p.error);
        }
        PrependTwice(preds, ands, [p.value], [], Scan(rest[3..], names));
        assert rest[3..] == tokens[i + 3..] && ands + [] == ands;
        preds := preds + [p.value];
        i := i + 3;
      }
    }
    assert tokens[i..] == [] && preds + [] == preds && ands + [] == ands;
    r := Ok(Flat(preds, ands));
  }

  /** One mask per predicate, combined left to right. */
  method CombineMasks(t: Table, f: Flat) returns (result: seq<bool>)
    ensures result == seq(t.rowCount, i => FlatHolds(f, t.RowAt(i)))
  {
    var n, preds, ands := t.rowCount, f.preds, f.ands;
    if preds == [] {
      return seq(n, _ => true);
    }
    result := seq(n, j => Holds(preds[0], t.RowAt(j)));
    var k := 1;
    while k < |preds|
      invariant 1 <= k <= |preds|
      invariant |result| == n
      invariant forall j :: 0 <= j < n ==>
        result[j] == Fold(Holds(preds[0], t.RowAt(j)), preds[1..k], ands, t.RowAt(j))
    {
      var isAnd := k - 1 >= |ands| || ands[k - 1];
      var mask := seq(n, j => Holds(preds[k], t.RowAt(j)));
      assert preds[1..k + 1] == preds[1..k] + [preds[k]];
      forall j | 0 <= j < n {
        FoldStep(Holds(preds[0], t.RowAt(j)), preds[1..k], ands, preds[k], t.RowAt(j));
      }
      result := seq(n, j requires 0 <= j < n => if isAnd then result[j] && mask[j] else result[j] || mask[j]);
      k := k + 1;
    }
    assert preds[1..k] == preds[1..];
  }

  /** The evaluator as a program. */
  method EvalSimpleWhere(t: Table, tokens: seq<Token>) returns (r: Result<seq<bool>>)
    ensures r == SimpleWhere(t, tokens)
  {
    if t.rowCount == 0 {
      return Ok([]);
    }
    var f := ParsePredicates(tokens, t.columnNames);
    if f.Err? {
      return Err(f.error);
    }
    var mask := CombineMasks(t, f.value);
    r := Ok(mask);
  }

  // ----- printed conditions -----

  /** The meaning of the tree itself. */
  predicate TreeHolds(c: Condition, names: seq<string>, row: Row) {
    match c
    case Test(col, op, v) => Compare(ValueOf(names, row, col), op, AsU64(v))
    case And(l, r) => TreeHolds(l, names, row) && TreeHolds(r, names, row)
    case Or(l, r) => TreeHolds(l, names, row) || TreeHolds(r, names, row)
  }

  /** Every literal is non-negative and every column exists. */
  predicate Readable(c: Condition, names: seq<string>) {
    match c
    case Test(col, _, v) => v >= 0 && col in names
    case And(l, r) => Readable(l, names) && Readable(r, names)
    case Or(l, r) => Readable(l, names) && Readable(r, names)
  }

  /** The leaves and connectives of a tree, in order. */
  function Flatten(c: Condition, names: seq<string>): (f: Flat)
    requires Readable(c, names)
    ensures |f.preds| == |f.ands| + 1
  {
    match c
    case Test(col, op, v) => Flat([Predicate(Position(names, col).value, op, AsU64(v))], [])
    case And(l, r) => var a, b := Flatten(l, names), Flatten(r, names);
      Flat(a.preds + b.preds, a.ands + [true] + b.ands)
    case Or(l, r) => var a, b := Flatten(l, names), Flatten(r, names);
      Flat(a.preds + b.preds, a.ands + [false] + b.ands)
  }

  /** Reading back a printed tree yields its leaves in order, or fails exactly when unreadable. */
  lemma {:induction false} ScanPrinted(c: Condition, names: seq<string>, rest: seq<Token>)
    ensures Readable(c, names) ==>
      Scan(Tokens(c) + rest, names) == Prepend(Flatten(c, names).preds, Flatten(c, names).ands, Scan(rest, names))
    ensures !Readable(c, names) ==> Scan(Tokens(c) + rest, names).Err?
    decreases c, 1
  {
    match c
    case Test(col, op, v) =>
      ScanTest(col, op, v, names, rest);
    case And(l, r) =>
      ScanBinary(l, r, true, names, rest);
    case Or(l, r) =>
      ScanBinary(l, r, false, names, rest);
  }

  lemma {:induction false} ScanBinary(l: Condition, r: Condition, and: bool, names: seq<string>, rest: seq<Token>)
    ensures
      var c := if and then And(l, r) else Or(l, r);
      && (Readable(c, names) ==>
            Scan(Tokens(c) + rest, names) == Prepend(Flatten(c, names).preds, Flatten(c, names).ands, Scan(rest, names)))
      && (!Readable(c, names) ==> Scan(Tokens(c) + rest, names).Err?)
    decreases if and then And(l, r) else Or(l, r), 0
  {
    var kw := if and then KeywordAnd else KeywordOr;
    var close := [RParen] + rest;
    var tail := Tokens(r) + close;
    PrintedBinary(l, r, and, rest);
    ScanHead(LParen, Tokens(l) + ([kw] + tail), names);
    ScanHead(kw, tail, names);
    ScanHead(RParen, rest, names);
    ScanPrinted(l, names, [kw] + tail);
    ScanPrinted(r, names, close);
    if Readable(l, names) && Readable(r, names) {
      PrependBinary(Flatten(l, names), Flatten(r, names), and, Scan(rest, names));
    }
  }

  lemma {:induction false} ScanTest(col: string, op: Comparison, v: i64, names: seq<string>, rest: seq<Token>)
    ensures
      var c := Test(col, op, v);
      && (Readable(c, names) ==>
            Scan(Tokens(c) + rest, names) == Prepend(Flatten(c, names).preds, [], Scan(rest, names)))
      && (!Readable(c, names) ==> Scan(Tokens(c) + rest, names).Err?)
  {
    var all := Tokens(Test(col, op, v)) + rest;
    var body := [Ident(col), Op(OpText(op))] + LiteralTokens(v) + [RParen] + rest;
    assert all[0] == LParen && all[1..] == body;
    assert ParseOp(OpText(op)) == Some(op);
    assert body[0] == Ident(col) && body[1] == Op(OpText(op)) && body[2] == LiteralTokens(v)[0];
    if v >= 0 && col in names {
      assert body[3..] == [RParen] + rest;
      assert ([RParen] + rest)[1..] == rest;
      assert Scan(body[3..], names) == Scan(rest, names);
      assert Scan(body, names) == Prepend([Predicate(Position(names, col).value, op, AsU64(v))], [], Scan(body[3..], names));
    }
  }

  lemma ScanHead(tok: Token, rest: seq<Token>, names: seq<string>)
    requires !tok.Ident? && !tok.Int? && !tok.Op?
    ensures Scan([tok] + rest, names) ==
      if tok.KeywordAnd? then Prepend([], [true], Scan(rest, names))
      else if tok.KeywordOr? then Prepend([], [false], Scan(rest, names))
      else Scan(rest, names)
  {
    assert ([tok] + rest)[1..] == rest;
  }

  lemma {:induction false} PrintedBinary(l: Condition, r: Condition, and: bool, rest: seq<Token>)
    ensures
      var kw := if and then KeywordAnd else KeywordOr;
      Tokens(if and then And(l, r) else Or(l, r)) + rest ==
        [LParen] + (Tokens(l) + ([kw] + (Tokens(r) + ([RParen] + rest))))
  {
  }

  lemma {:induction false} PrependBinary(a: Flat, b: Flat, and: bool, s: Result<Flat>)
    ensures Prepend(a.preds, a.ands, Prepend([], [and], Prepend(b.preds, b.ands, s))) ==
            Prepend(a.preds + b.preds, a.ands + [and] + b.ands, s)
  {
    PrependTwice([], [and], b.preds, b.ands, s);
    assert [] + b.preds == b.preds;
    PrependTwice(a.preds, a.ands, b.preds, [and] + b.ands, s);
    assert a.ands + ([and] + b.ands) == a.ands + [and] + b.ands;
  }

  /** On a non-empty table a printed tree evaluates iff it is readable, and then to its flat form. */
  lemma WherePrinted(t: Table, c: Condition)
    requires t.rowCount > 0
    ensures SimpleWhere(t, Tokens(c)).Ok? <==> Readable(c, t.columnNames)
    ensures Readable(c, t.columnNames) ==>
      SimpleWhere(t, Tokens(c)) ==
        Ok(seq(t.rowCount, i => FlatHolds(Flatten(c, t.columnNames), t.RowAt(i))))
  {
    ScanPrinted(c, t.columnNames, []);
    assert Tokens(c) + [] == Tokens(c);
    if Readable(c, t.columnNames) {
      var f := Flatten(c, t.columnNames);
      assert f.preds + [] == f.preds && f.ands + [] == f.ands;
    }
  }
}
