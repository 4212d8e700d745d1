/** The LIKE shortcut of the dispatcher against the recursive meaning of the LIKE predicate. */
module Like {
  // ----- the predicate -----

  predicate IsWild(c: char) {
    c == '%' || c == '_'
  }

  /** LIKE as in section 8.5 of ISO/IEC 9075-2: `%` stands for any run, `_` for any one character. */
  predicate LikeMatch(p: string, s: string)
    decreases |p| + |s|
  {
    if p == [] then s == []
    else if p[0] == '%' then LikeMatch(p[1..], s) || (s != [] && LikeMatch(p, s[1..]))
    else s != [] && (p[0] == '_' || p[0] == s[0]) && LikeMatch(p[1..], s[1..])
  }

  // ----- the shortcut -----

  function TrimStart(p: string): string {
    if p != [] && p[0] == '%' then TrimStart(p[1..]) else p
  }

  function TrimEnd(p: string): string {
    if p != [] && p[|p| - 1] == '%' then TrimEnd(p[..|p| - 1]) else p
  }

  function Trim(p: string): string {
    TrimEnd(TrimStart(p))
  }

  function Literals(p: string): string {
    if p == [] then [] else (if IsWild(p[0]) then [] else [p[0]]) + Literals(p[1..])
  }

  predicate HasWild(p: string) {
    exists i :: 0 <= i < |p| && IsWild(p[i])
  }

  predicate Contains(s: string, needle: string) {
    exists i :: 0 <= i <= |s| - |needle| && OccursAt(s, needle, i)
  }

  predicate OccursAt(s: string, needle: string, i: int) {
    0 <= i <= |s| - |needle| && s[i..i + |needle|] == needle
  }

  predicate EndsWith(s: string, t: string) {
    |t| <= |s| && s[|s| - |t|..] == t
  }

  predicate StartsWild(p: string) { p != [] && p[0] == '%' }

  predicate EndsWild(p: string) { p != [] && p[|p| - 1] == '%' }

  /** What the mask says of one string. */
  predicate Shortcut(p: string, s: string) {
    var middle := Trim(p);
    var needle := if HasWild(middle) then Literals(middle) else middle;
    middle == [] || needle == [] || Probe(StartsWild(p), EndsWild(p), middle, needle, s)
  }

  /** Contains, prefix, suffix or equality, by where the pattern is open. */
  predicate Probe(startsWild: bool, endsWild: bool, middle: string, needle: string, s: string) {
    if startsWild && endsWild then Contains(s, needle)
    else if endsWild then middle <= s
    else if startsWild then EndsWith(s, middle)
    else if HasWild(middle) then Contains(s, needle)
    else s == middle
  }

  method ProbeAll(strings: seq<string>, startsWild: bool, endsWild: bool, middle: string, needle: string) returns (mask: seq<bool>)
    ensures |mask| == |strings|
    ensures forall i :: 0 <= i < |strings| ==> (mask[i] <==> Probe(startsWild, endsWild, middle, needle, strings[i]))
  {
    mask := [];
    for i := 0 to |strings|
      invariant |mask| == i
      invariant forall j :: 0 <= j < i ==> (mask[j] <==> Probe(startsWild, endsWild, middle, needle, strings[j]))
    {
      mask := mask + [Probe(startsWild, endsWild, middle, needle, strings[i])];
    }
  }

  method BuildLikeMask(strings: seq<string>, pattern: string) returns (mask: seq<bool>)
    ensures |mask| == |strings|
    ensures forall i :: 0 <= i < |strings| ==> (mask[i] <==> Shortcut(pattern, strings[i]))
  {
    var middle := Trim(pattern);
    if middle == [] {
      return seq(|strings|, _ => true);
    }
    var needle := if HasWild(middle) then Literals(middle) else middle;
    if needle == [] {
      return seq(|strings|, _ => true);
    }
    mask := ProbeAll(strings, StartsWild(pattern), EndsWild(pattern), middle, needle);
  }

  /** `[NOT] LIKE` on a string column. */
  method LikeFilter(strings: seq<string>, pattern: string, negated: bool) returns (mask: seq<bool>)
    ensures |mask| == |strings|
    ensures forall i :: 0 <= i < |strings| ==> (mask[i] <==> (Shortcut(pattern, strings[i]) != negated))
  {
    mask := BuildLikeMask(strings, pattern);
    if negated {
      mask := seq(|mask|, i requires 0 <= i < |mask| => !mask[i]);
    }
  }

  // ----- shape of a trimmed pattern -----

  function Percents(k: nat): string {
    seq(k, _ => '%')
  }

  lemma {:induction false} TrimStartShape(p: string) returns (a: nat)
    ensures p == Percents(a) + TrimStart(p)
    ensures a >= 1 <==> StartsWild(p)
    ensures !StartsWild(TrimStart(p))
  {
    if StartsWild(p) {
      var k := TrimStartShape(p[1..]);
      a := k + 1;
      assert p == ['%'] + p[1..];
      assert Percents(a) == ['%'] + Percents(k);
    } else {
      a := 0;
      assert Percents(0) + p == p;
    }
  }

  lemma {:induction false} TrimEndShape(p: string) returns (b: nat)
    ensures p == TrimEnd(p) + Percents(b)
    ensures b >= 1 <==> EndsWild(p)
    ensures !EndsWild(TrimEnd(p))
    ensures TrimEnd(p) != [] ==> TrimEnd(p)[0] == p[0]
  {
    if EndsWild(p) {
      var n := |p| - 1;
      var k := TrimEndShape(p[..n]);
      b := k + 1;
      assert p == p[..n] + ['%'];
      assert Percents(b) == Percents(k) + ['%'];
    } else {
      b := 0;
      assert p + Percents(0) == p;
    }
  }

  lemma {:induction false} TrimShape(p: string) returns (a: nat, b: nat)
    ensures p == Percents(a) + (Trim(p) + Percents(b))
    ensures a >= 1 <==> StartsWild(p)
    ensures Trim(p) != [] ==> (b >= 1 <==> EndsWild(p))
    ensures Trim(p) != [] ==> Trim(p)[0] != '%' && Trim(p)[|Trim(p)| - 1] != '%'
  {
    a := TrimStartShape(p);
    b := TrimEndShape(TrimStart(p));
  }

  // ----- LIKE on composed patterns -----

  lemma {:induction false} LikeConcat(p: string, q: string, s: string, t: string)
    requires LikeMatch(p, s) && LikeMatch(q, t)
    ensures LikeMatch(p + q, s + t)
    decreases |p| + |s|
  {
    if p == [] {
      assert p + q == q && s + t == t;
    } else {
      assert (p + q)[1..] == p[1..] + q;
      if s != [] { assert (s + t)[1..] == s[1..] + t; }
      if p[0] == '%' {
        if LikeMatch(p[1..], s) { LikeConcat(p[1..], q, s, t); } else { LikeConcat(p, q, s[1..], t); }
      } else {
        LikeConcat(p[1..], q, s[1..], t);
      }
    }
  }

  lemma {:induction false} PercentsEmpty(k: nat)
    ensures LikeMatch(Percents(k), [])
  {
    if k > 0 {
      assert Percents(k)[1..] == Percents(k - 1);
      PercentsEmpty(k - 1);
    }
  }

  lemma {:induction false} PercentsAll(k: nat, s: string)
    requires k >= 1
    ensures LikeMatch(Percents(k), s)
    decreases |s|
  {
    if s == [] { PercentsEmpty(k); } else { PercentsAll(k, s[1..]); }
  }

  /** A pattern without wildcards matches only itself; followed by `%`s, every string it starts. */
  lemma {:induction false} LiteralPattern(m: string, b: nat, s: string)
    requires !HasWild(m)
    ensures LikeMatch(m + Percents(b), s) <==> if b >= 1 then m <= s else s == m
    decreases |m|
  {
    if m == [] {
      assert m + Percents(b) == Percents(b);
      if b >= 1 { PercentsAll(b, s); }
    } else {
      var p := m + Percents(b);
      assert !IsWild(m[0]);
      assert p[0] == m[0] && p[1..] == m[1..] + Percents(b);
      assert !HasWild(m[1..]) by {
        forall i | 0 <= i < |m[1..]| ensures !IsWild(m[1..][i]) { assert m[1..][i] == m[i + 1]; }
      }
      if s != [] {
        LiteralPattern(m[1..], b, s[1..]);
        assert m == [m[0]] + m[1..] && s == [s[0]] + s[1..];
      }
    }
  }

  /** Leading `%`s let the rest match at any position. */
  lemma {:induction false} LeadingPercents(a: nat, q: string, s: string)
    requires a >= 1
    ensures LikeMatch(Percents(a) + q, s) <==> MatchesSuffix(q, s)
    decreases a + |s|
  {
    var p := Percents(a) + q;
    assert p[0] == '%' && p[1..] == Percents(a - 1) + q;
    if a == 1 { assert Percents(0) + q == q; } else { LeadingPercents(a - 1, q, s); }
    if s != [] {
      LeadingPercents(a, q, s[1..]);
      SuffixStep(q, s);
    } else {
      assert s[0..] == s;
      if MatchesSuffix(q, s) { var k :| 0 <= k <= |s| && LikeMatch(q, s[k..]); }
    }
    if LikeMatch(q, s) { assert LikeMatch(q, s[0..]) by { assert s[0..] == s; } }
  }

  ghost predicate MatchesSuffix(q: string, s: string) {
    exists k :: 0 <= k <= |s| && LikeMatch(q, s[k..])
  }

  lemma {:induction false} SuffixStep(q: string, s: string)
    requires s != []
    ensures MatchesSuffix(q, s) <==> LikeMatch(q, s) || MatchesSuffix(q, s[1..])
  {
    if MatchesSuffix(q, s) {
      var k :| 0 <= k <= |s| && LikeMatch(q, s[k..]);
      if k == 0 { assert s[0..] == s; } else { assert s[1..][k - 1..] == s[k..]; }
    }
    if LikeMatch(q, s) { assert s[0..] == s; }
    if MatchesSuffix(q, s[1..]) {
      var k :| 0 <= k <= |s[1..]| && LikeMatch(q, s[1..][k..]);
      assert s[1..][k..] == s[k + 1..];
    }
  }

  // ----- where the shortcut is exact -----

  lemma {:induction false} ShortcutExact(p: string, s: string)
    requires p != [] && !HasWild(Trim(p))
    ensures Shortcut(p, s) <==> LikeMatch(p, s)
  {
    var a, b := TrimShape(p);
    var m := Trim(p);
    var q := m + Percents(b);
    if m == [] {
      assert q == Percents(b) && p == Percents(a + b);
      PercentsAll(a + b, s);
    } else if a == 0 {
      assert Percents(0) + q == q;
      LiteralPattern(m, b, s);
    } else {
      LeadingPercents(a, q, s);
      SuffixLiteral(m, b, s);
    }
  }

  lemma {:induction false} SuffixLiteral(m: string, b: nat, s: string)
    requires !HasWild(m)
    ensures MatchesSuffix(m + Percents(b), s) <==> if b >= 1 then Contains(s, m) else EndsWith(s, m)
  {
    forall k | 0 <= k <= |s| ensures LikeMatch(m + Percents(b), s[k..]) <==> if b >= 1 then m <= s[k..] else s[k..] == m {
      LiteralPattern(m, b, s[k..]);
    }
    if b >= 1 { OpenSuffix(m + Percents(b), m, s); } else { ClosedSuffix(m + Percents(b), m, s); }
  }

  lemma OpenSuffix(q: string, m: string, s: string)
    requires forall k :: 0 <= k <= |s| ==> (LikeMatch(q, s[k..]) <==> m <= s[k..])
    ensures MatchesSuffix(q, s) <==> Contains(s, m)
  {
    if MatchesSuffix(q, s) {
      var k :| 0 <= k <= |s| && LikeMatch(q, s[k..]);
      assert s[k..k + |m|] == s[k..][..|m|] == m;
      assert OccursAt(s, m, k);
    }
    if Contains(s, m) {
      var i :| 0 <= i <= |s| - |m| && OccursAt(s, m, i);
      assert s[i..][..|m|] == m;
      assert LikeMatch(q, s[i..]);
    }
  }

  lemma ClosedSuffix(q: string, m: string, s: string)
    requires forall k :: 0 <= k <= |s| ==> (LikeMatch(q, s[k..]) <==> s[k..] == m)
    ensures MatchesSuffix(q, s) <==> EndsWith(s, m)
  {
    if EndsWith(s, m) {
      assert LikeMatch(q, s[|s| - |m|..]);
    }
  }

  // ----- where it is not -----

  function NonPercent(p: string): nat {
    if p == [] then 0 else (if p[0] == '%' then 0 else 1) + NonPercent(p[1..])
  }

  lemma {:induction false} NeedsLength(p: string, s: string)
    ensures LikeMatch(p, s) ==> |s| >= NonPercent(p)
    decreases |p| + |s|
  {
    if p != [] {
      NeedsLength(p[1..], s);
      if s != [] {
        NeedsLength(p, s[1..]);
        NeedsLength(p[1..], s[1..]);
      }
    }
  }

  lemma {:induction false} NonPercentConcat(p: string, q: string)
    ensures NonPercent(p + q) == NonPercent(p) + NonPercent(q)
  {
    if p == [] { assert p + q == q; } else {
      assert (p + q)[1..] == p[1..] + q;
      NonPercentConcat(p[1..], q);
    }
  }

  lemma {:induction false} LiteralsConcat(p: string, q: string)
    ensures Literals(p + q) == Literals(p) + Literals(q)
  {
    if p == [] { assert p + q == q; } else {
      assert (p + q)[1..] == p[1..] + q;
      LiteralsConcat(p[1..], q);
    }
  }

  lemma {:induction false} CountsLiterals(p: string)
    ensures NonPercent(p) >= |Literals(p)|
    ensures '_' in p ==> NonPercent(p) > |Literals(p)|
  {
    if p != [] {
      CountsLiterals(p[1..]);
      if '_' in p && p[0] != '_' { assert '_' in p[1..]; }
    }
  }

  lemma {:induction false} TrimmedCounts(p: string)
    ensures NonPercent(p) >= NonPercent(Trim(p))
  {
    var a, b := TrimShape(p);
    NonPercentConcat(Percents(a), Trim(p) + Percents(b));
    NonPercentConcat(Trim(p), Percents(b));
  }

  /** Every wildcard replaced by one character: a string the pattern matches. */
  function Filled(p: string, c: char): (s: string)
    ensures |s| == |p|
  {
    seq(|p|, i requires 0 <= i < |p| => if IsWild(p[i]) then c else p[i])
  }

  lemma {:induction false} FilledMatches(p: string, c: char)
    ensures LikeMatch(p, Filled(p, c))
  {
    if p != [] {
      FilledMatches(p[1..], c);
      assert Filled(p, c)[1..] == Filled(p[1..], c);
    }
  }

  /** With no `_`, dropping every `%` leaves a string the pattern matches. */
  lemma {:induction false} LiteralsMatch(p: string)
    requires '_' !in p
    ensures LikeMatch(p, Literals(p))
  {
    if p != [] {
      LiteralsMatch(p[1..]);
      if p[0] == '%' { assert Literals(p) == Literals(p[1..]); } else { assert Literals(p)[1..] == Literals(p[1..]); }
    }
  }

  /** Inner `%`: pulling the literals apart by one foreign character defeats the contains-search. */
  lemma {:induction false} InnerPercentFails(p: string) returns (s: string)
    requires Trim(p) != [] && HasWild(Trim(p)) && '_' !in Trim(p)
    ensures LikeMatch(p, s) && !Contains(s, Literals(Trim(p)))
  {
    var a, b := TrimShape(p);
    s := InnerSplit(Trim(p));
    PaddedMatches(a, Trim(p), b, s);
  }

  lemma InnerSplit(m: string) returns (s: string)
    requires m != [] && HasWild(m) && '_' !in m && m[0] != '%' && m[|m| - 1] != '%'
    ensures LikeMatch(m, s) && !Contains(s, Literals(m))
  {
    var i :| 0 <= i < |m| && IsWild(m[i]);
    assert m[i] in m && m[0] in m && m[|m| - 1] in m;
    var l, r := m[..i], m[i + 1..];
    assert m == l + (['%'] + r);
    s := SplitFails(l, r);
  }

  lemma {:induction false} SplitFails(l: string, r: string) returns (s: string)
    requires l != [] && r != [] && !IsWild(l[0]) && !IsWild(r[|r| - 1]) && '_' !in l && '_' !in r
    ensures LikeMatch(l + (['%'] + r), s) && !Contains(s, Literals(l + (['%'] + r)))
  {
    FirstLiteral(l);
    LastLiteral(r);
    var left, right := Literals(l), Literals(r);
    var c := Apart(left[|left| - 1], right[0]);
    s := left + ([c] + right);
    SplitLiterals(l, r);
    PulledApart(left, right, c);
    SplitMatches(l, r, c);
  }

  lemma {:induction false} LastLiteral(r: string)
    requires r != [] && !IsWild(r[|r| - 1])
    ensures Literals(r) != []
  {
    var n := |r| - 1;
    assert r == r[..n] + [r[n]];
    LiteralsConcat(r[..n], [r[n]]);
  }

  lemma {:induction false} SplitLiterals(l: string, r: string)
    ensures Literals(l + (['%'] + r)) == Literals(l) + Literals(r)
  {
    var q := ['%'] + r;
    assert q[1..] == r;
    assert Literals(q) == Literals(r);
    LiteralsConcat(l, q);
  }

  lemma {:induction false} SplitMatches(l: string, r: string, c: char)
    requires '_' !in l && '_' !in r
    ensures LikeMatch(l + (['%'] + r), Literals(l) + ([c] + Literals(r)))
  {
    LiteralsMatch(l);
    LiteralsMatch(r);
    PercentsAll(1, [c]);
    assert Percents(1) == ['%'];
    LikeConcat(['%'], r, [c], Literals(r));
    LikeConcat(l, ['%'] + r, Literals(l), [c] + Literals(r));
  }

  lemma {:induction false} PaddedMatches(a: nat, m: string, b: nat, s: string)
    requires LikeMatch(m, s)
    ensures LikeMatch(Percents(a) + (m + Percents(b)), s)
  {
    PercentsEmpty(a);
    PercentsEmpty(b);
    LikeConcat(m, Percents(b), s, []);
    assert s + [] == s;
    LikeConcat(Percents(a), m + Percents(b), [], s);
    assert [] + s == s;
  }

  lemma {:induction false} FirstLiteral(l: string)
    requires l != [] && !IsWild(l[0])
    ensures Literals(l) != []
  {
  }

  function Apart(x: char, y: char): (c: char)
    ensures c != x && c != y && !IsWild(c)
  {
    if x != 'a' && y != 'a' then 'a' else if x != 'b' && y != 'b' then 'b' else 'c'
  }

  lemma {:induction false} PulledApart(l: string, r: string, c: char)
    requires l != [] && r != [] && c != l[|l| - 1] && c != r[0]
    ensures !Contains(l + ([c] + r), l + r)
  {
    var s, needle := l + ([c] + r), l + r;
    forall i | 0 <= i <= |s| - |needle| ensures !OccursAt(s, needle, i) {
      assert s[|l|] == c;
      if i == 0 {
        assert s[i..i + |needle|][|l|] == c && needle[|l|] == r[0];
      } else {
        assert s[i..i + |needle|][|l| - 1] == c && needle[|l| - 1] == l[|l| - 1];
      }
    }
  }

  /** For every pattern outside the supported shapes some string is answered wrongly. */
  lemma {:induction false} ShortcutWrong(p: string) returns (s: string)
    requires p == [] || HasWild(Trim(p))
    ensures Shortcut(p, s) != LikeMatch(p, s)
  {
    var m := Trim(p);
    if p == [] {
      s := "a";
    } else if Literals(m) == [] {
      s := [];
      var a, b := TrimShape(p);
      TrimmedCounts(p);
      NeedsLength(p, []);
    } else if StartsWild(p) == EndsWild(p) && '_' in m {
      s := Literals(m);
      assert OccursAt(s, s, 0);
      TrimmedCounts(p);
      CountsLiterals(m);
      NeedsLength(p, s);
    } else if StartsWild(p) == EndsWild(p) {
      s := InnerPercentFails(p);
    } else {
      s := Filled(p, 'a');
      FilledMatches(p, 'a');
      FilledDiffers(p);
    }
  }

  lemma {:induction false} FilledDiffers(p: string)
    requires Trim(p) != [] && HasWild(Trim(p))
    ensures !StartsWild(p) ==> !(Trim(p) <= Filled(p, 'a'))
    ensures !EndsWild(p) ==> !EndsWith(Filled(p, 'a'), Trim(p))
  {
    var a, b := TrimShape(p);
    FilledParts(p, a, Trim(p), b);
  }

  lemma FilledParts(p: string, a: nat, m: string, b: nat)
    requires p == Percents(a) + (m + Percents(b)) && HasWild(m)
    ensures a == 0 ==> !(m <= Filled(p, 'a'))
    ensures b == 0 ==> !EndsWith(Filled(p, 'a'), m)
  {
    var s := Filled(p, 'a');
    var i :| 0 <= i < |m| && IsWild(m[i]);
    if a == 0 {
      assert p[i] == m[i] && s[i] == 'a';
    }
    if b == 0 {
      assert p[a + i] == m[i] && s[a + i] == 'a';
      assert |p| == a + |m|;
      assert s[|s| - |m|..][i] == 'a';
    }
  }

  /** The shortcut is LIKE on every string iff the pattern is non-empty and only its ends are wild. */
  lemma {:induction false} ShortcutExactIff(p: string)
    ensures (forall s: string :: Shortcut(p, s) <==> LikeMatch(p, s)) <==> p != [] && !HasWild(Trim(p))
  {
    if p != [] && !HasWild(Trim(p)) {
      forall s: string ensures Shortcut(p, s) <==> LikeMatch(p, s) { ShortcutExact(p, s); }
    } else {
      var s := ShortcutWrong(p);
    }
  }

  // ----- LIKE by its parts -----

  /** Some cut of the string lets both halves match. */
  ghost predicate Cuts(p: string, q: string, s: string) {
    exists k :: CutAt(p, q, s, k)
  }

  predicate CutAt(p: string, q: string, s: string, k: int) {
    0 <= k <= |s| && LikeMatch(p, s[..k]) && LikeMatch(q, s[k..])
  }

  lemma {:induction false} CutStep(p: string, q: string, s: string, k: int)
    requires p != [] && s != [] && 1 <= k <= |s|
    ensures p[0] == '%' ==> (CutAt(p, q, s[1..], k - 1) ==> CutAt(p, q, s, k))
    ensures p[0] != '%' && (p[0] == '_' || p[0] == s[0]) ==> (CutAt(p, q, s, k) <==> CutAt(p[1..], q, s[1..], k - 1))
  {
    assert s[..k][1..] == s[1..][..k - 1] && s[k..] == s[1..][k - 1..] && s[..k][0] == s[0];
  }

  /** A pattern made of two parts matches iff the string can be cut so that each part matches its piece. */
  lemma {:induction false} LikeCuts(p: string, q: string, s: string)
    ensures LikeMatch(p + q, s) <==> Cuts(p, q, s)
    decreases |p| + |s|
  {
    if p == [] {
      assert p + q == q && s[..0] == [] && s[0..] == s;
      if LikeMatch(q, s) { assert CutAt(p, q, s, 0); }
    } else if p[0] == '%' {
      LikePercentThen(p, q, s);
    } else {
      LikeCharThen(p, q, s);
    }
  }

  lemma {:induction false} LikePercentThen(p: string, q: string, s: string)
    requires p != [] && p[0] == '%'
    ensures LikeMatch(p + q, s) <==> Cuts(p, q, s)
    decreases |p| + |s|, 0
  {
    assert (p + q)[1..] == p[1..] + q;
    LikeCuts(p[1..], q, s);
    if s != [] { LikeCuts(p, q, s[1..]); }
    if Cuts(p[1..], q, s) {
      var k :| CutAt(p[1..], q, s, k);
      assert CutAt(p, q, s, k);
    }
    if s != [] && Cuts(p, q, s[1..]) {
      var k :| CutAt(p, q, s[1..], k);
      CutStep(p, q, s, k + 1);
    }
    if Cuts(p, q, s) {
      var k :| CutAt(p, q, s, k);
      if LikeMatch(p[1..], s[..k]) {
        assert CutAt(p[1..], q, s, k);
      } else {
        assert s[..k][1..] == s[1..][..k - 1] && s[k..] == s[1..][k - 1..];
        assert CutAt(p, q, s[1..], k - 1);
      }
    }
  }

  lemma {:induction false} LikeCharThen(p: string, q: string, s: string)
    requires p != [] && p[0] != '%'
    ensures LikeMatch(p + q, s) <==> Cuts(p, q, s)
    decreases |p| + |s|, 0
  {
    assert (p + q)[1..] == p[1..] + q;
    if s != [] && (p[0] == '_' || p[0] == s[0]) {
      LikeCuts(p[1..], q, s[1..]);
      if Cuts(p[1..], q, s[1..]) {
        var k :| CutAt(p[1..], q, s[1..], k);
        CutStep(p, q, s, k + 1);
      }
      if Cuts(p, q, s) {
        var k :| CutAt(p, q, s, k);
        assert k >= 1;
        CutStep(p, q, s, k);
      }
    } else {
      forall k ensures !CutAt(p, q, s, k) { }
    }
  }

  /** The parts: `%` matches every string, `_` every single character, any other character itself. */
  lemma {:induction false} LikeParts(c: char, s: string)
    ensures LikeMatch([], s) <==> s == []
    ensures LikeMatch([c], s) <==> c == '%' || (|s| == 1 && (c == '_' || s[0] == c))
    decreases |s|
  {
    assert [c][1..] == [];
    if s != [] { LikeParts(c, s[1..]); }
  }
}
