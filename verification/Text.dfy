/** The string operations the frame parser and the column resolver rely on. */
module Text {
  import opened Basics

  predicate IsSpace(c: char) {
    c == ' ' || c == '\t' || c == '\n' || c == '\r'
  }

  predicate IsDigit(c: char) {
    '0' <= c <= '9'
  }

  /** ASCII upper-casing. */
  function UpperChar(c: char): char {
    if 'a' <= c <= 'z' then (c as int - 32) as char else c
  }

  function Upper(s: string): (r: string)
    ensures |r| == |s|
  {
    seq(|s|, i requires 0 <= i < |s| => UpperChar(s[i]))
  }

  predicate NoLower(s: string) {
    forall i :: 0 <= i < |s| ==> !('a' <= s[i] <= 'z')
  }

  lemma UpperNoLower(s: string)
    requires NoLower(s)
    ensures Upper(s) == s
  {
  }

  function TrimStart(s: string): string {
    if s != [] && IsSpace(s[0]) then TrimStart(s[1..]) else s
  }

  function TrimEnd(s: string): string {
    if s != [] && IsSpace(s[|s| - 1]) then TrimEnd(s[..|s| - 1]) else s
  }

  function Trim(s: string): string {
    TrimEnd(TrimStart(s))
  }

  /** Neither end is white space. */
  predicate Tight(s: string) {
    s != [] && !IsSpace(s[0]) && !IsSpace(s[|s| - 1])
  }

  lemma TrimTight(s: string)
    requires Tight(s)
    ensures Trim(s) == s && Trim(" " + s) == s
  {
    assert (" " + s)[1..] == s;
    assert TrimStart(" " + s) == TrimStart(s);
  }

  /** Index of the first occurrence. */
  function Find(s: string, t: string): (r: Option<nat>)
    ensures r.Some? ==> r.value + |t| <= |s| && s[r.value..r.value + |t|] == t
  {
    if t <= s then Some(0)
    else if s == [] then None
    else
      match Find(s[1..], t)
      case None => None
      case Some(k) =>
        assert s[1..][k..k + |t|] == s[k + 1..k + 1 + |t|];
        Some(k + 1)
  }

  /** `t` cannot start inside `a` in the string `a + t + b`. */
  ghost predicate NotInside(a: string, t: string, b: string) {
    forall i :: 0 <= i < |a| ==> StartsElsewhere(a, t, b, i)
  }

  predicate StartsElsewhere(a: string, t: string, b: string, i: nat)
    requires i < |a|
  {
    !(t <= (a + t + b)[i..])
  }

  lemma {:induction false} FindFirst(a: string, t: string, b: string)
    requires NotInside(a, t, b)
    ensures Find(a + t + b, t) == Some(|a|)
    decreases |a|
  {
    var s := a + t + b;
    if a == [] {
      assert s[..|t|] == t;
      assert t <= s;
    } else {
      assert StartsElsewhere(a, t, b, 0);
      assert s[0..] == s;
      assert s[1..] == a[1..] + t + b;
      forall i | 0 <= i < |a[1..]| ensures StartsElsewhere(a[1..], t, b, i) {
        assert StartsElsewhere(a, t, b, i + 1);
        assert s[1..][i..] == s[i + 1..];
      }
      FindFirst(a[1..], t, b);
    }
  }

  // ----- decimal numbers -----

  function DigitChar(n: nat): (c: char)
    requires n < 10
    ensures IsDigit(c) && c as int == '0' as int + n
  {
    ('0' as int + n) as char
  }

  function Decimal(n: nat): (s: string)
    ensures s != [] && forall i :: 0 <= i < |s| ==> IsDigit(s[i])
  {
    if n < 10 then [DigitChar(n)] else Decimal(n / 10) + [DigitChar(n % 10)]
  }

  /** The value of a digit string. */
  function Value(s: string): nat
    requires forall i :: 0 <= i < |s| ==> IsDigit(s[i])
  {
    if s == [] then 0
    else
      assert IsDigit(s[|s| - 1]);
      Value(s[..|s| - 1]) * 10 + (s[|s| - 1] as int - '0' as int)
  }

  predicate AllDigits(s: string) {
    forall i :: 0 <= i < |s| ==> IsDigit(s[i])
  }

  /** `str::parse::<u64>`: an optional plus sign, digits, no overflow. */
  function ParseU64(s: string): Option<u64> {
    var digits := if s != [] && s[0] == '+' then s[1..] else s;
    if digits == [] || !AllDigits(digits) then None
    else if Value(digits) < TWO_64 then Some(Value(digits))
    else None
  }

  lemma {:induction false} DecimalValue(n: nat)
    ensures Value(Decimal(n)) == n
  {
    if n >= 10 {
      DecimalValue(n / 10);
      var s := Decimal(n);
      assert s[..|s| - 1] == Decimal(n / 10);
    } else {
      assert Decimal(n)[..0] == [];
    }
  }

  lemma ParseDecimal(n: u64)
    ensures ParseU64(Decimal(n)) == Some(n)
  {
    DecimalValue(n);
    assert IsDigit(Decimal(n)[0]);
  }

  // ----- words -----

  predicate IsWord(s: string) {
    s != [] && forall i :: 0 <= i < |s| ==> !IsSpace(s[i])
  }

  /** The length of the leading run of non-space characters. */
  function WordLength(s: string): (n: nat)
    ensures n <= |s|
    ensures s != [] && !IsSpace(s[0]) ==> n >= 1
  {
    if s == [] || IsSpace(s[0]) then 0 else 1 + WordLength(s[1..])
  }

  function SplitWhitespace(s: string): seq<string>
    decreases |s|
  {
    if s == [] then []
    else if IsSpace(s[0]) then SplitWhitespace(s[1..])
    else [s[..WordLength(s)]] + SplitWhitespace(s[WordLength(s)..])
  }

  lemma {:induction false} WordThen(w: string, rest: string)
    requires IsWord(w) && (rest == [] || IsSpace(rest[0]))
    ensures WordLength(w + rest) == |w|
  {
    var s := w + rest;
    assert s[0] == w[0] && s[1..] == w[1..] + rest;
    if |w| == 1 {
      assert w[1..] + rest == rest;
    } else {
      assert IsWord(w[1..]) by { forall i | 0 <= i < |w[1..]| ensures !IsSpace(w[1..][i]) { assert w[1..][i] == w[i + 1]; } }
      WordThen(w[1..], rest);
    }
  }

  lemma SplitOne(w: string)
    requires IsWord(w)
    ensures SplitWhitespace(w) == [w]
  {
    WordThen(w, []);
    assert w + [] == w && w[..|w|] == w && w[|w|..] == [];
  }

  lemma SplitTwo(w1: string, w2: string)
    requires IsWord(w1) && IsWord(w2)
    ensures SplitWhitespace(w1 + " " + w2) == [w1, w2]
  {
    var s, rest := w1 + " " + w2, " " + w2;
    assert s == w1 + rest;
    WordThen(w1, rest);
    assert s[0] == w1[0] && s[..|w1|] == w1 && s[|w1|..] == rest;
    assert rest[1..] == w2;
    assert SplitWhitespace(rest) == SplitWhitespace(w2);
    SplitOne(w2);
    assert SplitWhitespace(s) == [w1] + [w2];
  }
}
