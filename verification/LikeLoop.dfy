/**
 The interpreter's LIKE: one pass over the string that remembers only the last `%` and goes back to
 it on a mismatch. It compares characters before it looks for wildcards, so a `%` in the string can
 be taken for the one in the pattern.
*/
module LikeLoop {
  import opened Basics
  import opened Like

  /** Where the pass stands; `star` is the position of the last `%` and of the string when it was met. */
  datatype Cursor = Cursor(si: nat, pi: nat, star: Option<(nat, nat)>)

  predicate Within(s: string, p: string, c: Cursor) {
    && c.si <= |s| && c.pi <= |p|
    && (c.star.Some? ==> c.star.value.0 < c.pi && c.star.value.1 <= c.si)
  }

  predicate Fits(a: char, b: char) {
    a == '_' || a == b
  }

  /** One turn of the loop; None where it gives up. */
  function Advance(s: string, p: string, c: Cursor): (r: Option<Cursor>)
    requires Within(s, p, c) && c.si < |s|
    ensures r.Some? ==> Within(s, p, r.value)
  {
    if c.pi < |p| && Fits(p[c.pi], s[c.si]) then Some(Cursor(c.si + 1, c.pi + 1, c.star))
    else if c.pi < |p| && p[c.pi] == '%' then Some(Cursor(c.si, c.pi + 1, Some((c.pi, c.si))))
    else if c.star.Some? then
      var (sp, ss) := c.star.value;
      Some(Cursor(ss + 1, sp + 1, Some((sp, ss + 1))))
    else None
  }

  predicate AllPercent(p: string) {
    forall i :: 0 <= i < |p| ==> p[i] == '%'
  }

  /** The `%` the loop has passed, as a number that only grows. */
  function StarAt(c: Cursor): int {
    if c.star.Some? then c.star.value.0 else -1
  }

  function StarFrom(c: Cursor): int {
    if c.star.Some? then c.star.value.1 else 0
  }

  /** The answer of the loop from a cursor on. */
  predicate Walk(s: string, p: string, c: Cursor)
    requires Within(s, p, c)
    decreases |p| - StarAt(c), |s| - StarFrom(c), |p| - c.pi
  {
    if c.si == |s| then AllPercent(p[c.pi..])
    else
      match Advance(s, p, c)
      case None => false
      case Some(next) => Walk(s, p, next)
  }

  const START := Cursor(0, 0, None)

  method MatchLike(s: string, p: string) returns (r: bool)
    ensures r == Walk(s, p, START)
    ensures '%' !in s ==> (r <==> LikeMatch(p, s))
  {
    var si, pi, starS, starP := 0, 0, 0, -1;
    ghost var c := START;
    while si < |s|
      invariant Within(s, p, c) && c.si == si && c.pi == pi && StarAt(c) == starP && (starP >= 0 ==> StarFrom(c) == starS)
      invariant Walk(s, p, c) == Walk(s, p, START)
      decreases |p| - StarAt(c), |s| - StarFrom(c), |p| - c.pi
    {
      if pi < |p| && (p[pi] == '_' || p[pi] == s[si]) {
        c := Cursor(si + 1, pi + 1, c.star);
        si, pi := si + 1, pi + 1;
      } else if pi < |p| && p[pi] == '%' {
        c := Cursor(si, pi + 1, Some((pi, si)));
        starP, starS := pi, si;
        pi := pi + 1;
      } else if starP >= 0 {
        c := Cursor(starS + 1, starP + 1, Some((starP, starS + 1)));
        pi := starP + 1;
        starS := starS + 1;
        si := starS;
      } else {
        if '%' !in s { LoopIsLike(s, p); }
        return false;
      }
    }
    ghost var rest := p[pi..];
    while pi < |p| && p[pi] == '%'
      invariant c.pi <= pi <= |p|
      invariant AllPercent(p[pi..]) == AllPercent(rest)
    {
      assert p[pi..][1..] == p[pi + 1..];
      assert AllPercent(p[pi..]) <==> AllPercent(p[pi + 1..]) by { PercentFirst(p[pi..]); }
      pi := pi + 1;
    }
    r := pi == |p|;
    if pi < |p| { assert p[pi..][0] == p[pi]; }
    if '%' !in s { LoopIsLike(s, p); }
  }

  lemma PercentFirst(p: string)
    requires p != [] && p[0] == '%'
    ensures AllPercent(p) <==> AllPercent(p[1..])
  {
    if AllPercent(p[1..]) {
      forall i | 0 <= i < |p| ensures p[i] == '%' { if i > 0 { assert p[1..][i - 1] == '%'; } }
    }
  }

  // ----- words without `%` -----

  /** `n` characters of the pattern from `i` on, none of them `%`, fit the string from `a` on. */
  predicate WordFits(p: string, i: nat, s: string, a: nat, n: nat) {
    && i + n <= |p| && a + n <= |s|
    && forall j :: i <= j < i + n ==> p[j] != '%' && Fits(p[j], s[a + (j - i)])
  }

  /** A word that fits can be dropped on both sides. */
  lemma {:induction false} WordDrops(p: string, i: nat, s: string, a: nat, n: nat)
    requires WordFits(p, i, s, a, n)
    ensures LikeMatch(p[i..], s[a..]) <==> LikeMatch(p[i + n..], s[a + n..])
    decreases n
  {
    if n > 0 {
      assert p[i..][0] == p[i] && s[a..][0] == s[a];
      assert p[i..][1..] == p[i + 1..] && s[a..][1..] == s[a + 1..];
      WordDrops(p, i + 1, s, a + 1, n - 1);
    }
  }

  /** A word takes exactly as many characters as it has. */
  lemma {:induction false} WordLength(w: string, t: string)
    requires '%' !in w && LikeMatch(w, t)
    ensures |t| == |w|
    decreases |w|
  {
    if w != [] {
      assert w[0] in w;
      WordLength(w[1..], t[1..]);
    }
  }

  lemma HeadAndRest(p: string, i: nat)
    requires i < |p|
    ensures p[i..] == [p[i]] + p[i + 1..] && p[i..][1..] == p[i + 1..]
  {
  }

  lemma PercentSuffix(q: string, s: string)
    ensures LikeMatch(['%'] + q, s) <==> MatchesSuffix(q, s)
  {
    assert Percents(1) == ['%'] by { assert Percents(0) == []; }
    LeadingPercents(1, q, s);
  }

  // ----- what the cursor stands for -----

  /** Since the last `%` the word of the pattern fits the string. */
  predicate Tracks(s: string, p: string, c: Cursor)
    requires Within(s, p, c)
  {
    c.star.Some? ==>
      var (sp, ss) := c.star.value;
      c.si - ss == c.pi - sp - 1 && WordFits(p, sp + 1, s, ss, c.si - ss)
  }

  /** What remains to be decided: the rest matches the rest, or the pattern after the last `%` some suffix. */
  ghost predicate Pending(s: string, p: string, c: Cursor)
    requires Within(s, p, c)
  {
    match c.star
    case None => LikeMatch(p[c.pi..], s[c.si..])
    case Some((sp, ss)) => MatchesSuffix(p[sp + 1..], s[ss..])
  }

  /** The suffixes of `s` from `a` on, counted in `s`. */
  lemma SuffixFrom(q: string, s: string, a: nat)
    requires a <= |s|
    ensures MatchesSuffix(q, s[a..]) <==> exists k :: a <= k <= |s| && LikeMatch(q, s[k..])
  {
    if MatchesSuffix(q, s[a..]) {
      var k :| 0 <= k <= |s[a..]| && LikeMatch(q, s[a..][k..]);
      assert s[a..][k..] == s[a + k..];
    }
    if k :| a <= k <= |s| && LikeMatch(q, s[k..]) {
      assert s[a..][k - a..] == s[k..];
    }
  }

  /** Followed by `%`, a word and a rest match iff the word takes its length and the rest some later suffix. */
  lemma WordThenPercent(w: string, rest: string, t: string)
    requires '%' !in w
    ensures LikeMatch(w + (['%'] + rest), t) ==> |w| <= |t| && MatchesSuffix(rest, t[|w|..])
  {
    if LikeMatch(w + (['%'] + rest), t) {
      LikeCuts(w, ['%'] + rest, t);
      var m :| CutAt(w, ['%'] + rest, t, m);
      WordLength(w, t[..m]);
      PercentSuffix(rest, t[m..]);
    }
  }

  lemma SuffixFromLater(q: string, s: string, a: nat, b: nat)
    requires a <= b <= |s| && MatchesSuffix(q, s[b..])
    ensures MatchesSuffix(q, s[a..])
  {
    SuffixFrom(q, s, a);
    SuffixFrom(q, s, b);
  }

  lemma WordSlice(p: string, i: nat, n: nat)
    requires i + n <= |p| && forall j :: i <= j < i + n ==> p[j] != '%'
    ensures '%' !in p[i..i + n] && p[i..] == p[i..i + n] + p[i + n..]
  {
  }

  lemma LaterWord(s: string, p: string, i: nat, n: nat, k: nat, ss: nat)
    requires i + n < |p| && p[i + n] == '%' && (forall j :: i <= j < i + n ==> p[j] != '%')
    requires ss <= k <= |s| && ss + n <= |s| && LikeMatch(p[i..], s[k..])
    ensures MatchesSuffix(p[i + n + 1..], s[ss + n..])
  {
    var w, rest := p[i..i + n], p[i + n + 1..];
    WordSlice(p, i, n);
    HeadAndRest(p, i + n);
    WordThenPercent(w, rest, s[k..]);
    assert s[k..][n..] == s[k + n..];
    SuffixFromLater(rest, s, ss + n, k + n);
  }

  /** After a word and another `%` only the suffixes behind the word count: the first match of the word is as good as any. */
  lemma StarAgain(s: string, p: string, i: nat, ss: nat, n: nat)
    requires WordFits(p, i, s, ss, n) && i + n < |p| && p[i + n] == '%'
    ensures MatchesSuffix(p[i..], s[ss..]) <==> MatchesSuffix(p[i + n + 1..], s[ss + n..])
  {
    var q, rest := p[i..], p[i + n + 1..];
    SuffixFrom(q, s, ss);
    if MatchesSuffix(q, s[ss..]) {
      var k :| ss <= k <= |s| && LikeMatch(q, s[k..]);
      LaterWord(s, p, i, n, k, ss);
    }
    if MatchesSuffix(rest, s[ss + n..]) {
      HeadAndRest(p, i + n);
      PercentSuffix(rest, s[ss + n..]);
      WordDrops(p, i, s, ss, n);
      assert LikeMatch(q, s[ss..]);
    }
  }

  // ----- the loop is LIKE -----

  lemma {:induction false} TailMeans(p: string)
    ensures AllPercent(p) <==> LikeMatch(p, [])
    decreases |p|
  {
    if p != [] {
      TailMeans(p[1..]);
      if p[0] == '%' { PercentFirst(p); }
    }
  }

  lemma EndMeans(s: string, p: string, c: Cursor)
    requires Within(s, p, c) && Tracks(s, p, c) && c.si == |s|
    ensures AllPercent(p[c.pi..]) <==> Pending(s, p, c)
  {
    TailMeans(p[c.pi..]);
    assert s[|s|..] == [];
    if c.star.Some? {
      var (sp, ss) := c.star.value;
      var n := c.si - ss;
      WordDrops(p, sp + 1, s, ss, n);
      OnlyHere(p, sp + 1, n, s, ss);
    }
  }

  /** At the end of the string a word that has just fitted fits nowhere later. */
  lemma OnlyHere(p: string, i: nat, n: nat, s: string, ss: nat)
    requires i + n <= |p| && ss + n == |s| && forall j :: i <= j < i + n ==> p[j] != '%'
    ensures MatchesSuffix(p[i..], s[ss..]) <==> LikeMatch(p[i..], s[ss..])
  {
    SuffixFrom(p[i..], s, ss);
    forall k | ss < k <= |s| ensures !LikeMatch(p[i..], s[k..]) { TooShort(p, i, n, s[k..]); }
  }

  lemma TooShort(p: string, i: nat, n: nat, t: string)
    requires i + n <= |p| && |t| < n && forall j :: i <= j < i + n ==> p[j] != '%'
    ensures !LikeMatch(p[i..], t)
  {
    if LikeMatch(p[i..], t) {
      var w := p[i..i + n];
      WordSlice(p, i, n);
      LikeCuts(w, p[i + n..], t);
      var m :| CutAt(w, p[i + n..], t, m);
      WordLength(w, t[..m]);
    }
  }

  lemma StarMeans(s: string, p: string, c: Cursor)
    requires Within(s, p, c) && Tracks(s, p, c) && c.pi < |p| && p[c.pi] == '%'
    ensures Pending(s, p, c) <==> MatchesSuffix(p[c.pi + 1..], s[c.si..])
  {
    if c.star.Some? {
      var (sp, ss) := c.star.value;
      StarAgain(s, p, sp + 1, ss, c.si - ss);
    } else {
      HeadAndRest(p, c.pi);
      PercentSuffix(p[c.pi + 1..], s[c.si..]);
    }
  }

  lemma BackMeans(s: string, p: string, c: Cursor)
    requires Within(s, p, c) && Tracks(s, p, c) && c.si < |s| && c.star.Some? && !LikeMatch(p[c.pi..], s[c.si..])
    ensures Pending(s, p, c) <==> MatchesSuffix(p[c.star.value.0 + 1..], s[c.star.value.1 + 1..])
  {
    var (sp, ss) := c.star.value;
    WordDrops(p, sp + 1, s, ss, c.si - ss);
    HeadAndRest(s, ss);
    SuffixStep(p[sp + 1..], s[ss..]);
  }

  lemma FitMeans(s: string, p: string, c: Cursor)
    requires '%' !in s && Within(s, p, c) && Tracks(s, p, c) && c.si < |s| && c.pi < |p| && Fits(p[c.pi], s[c.si])
    ensures
      var next := Cursor(c.si + 1, c.pi + 1, c.star);
      Within(s, p, next) && Tracks(s, p, next) && (Pending(s, p, next) <==> Pending(s, p, c))
  {
    assert s[c.si] in s;
    assert p[c.pi..][0] == p[c.pi] && s[c.si..][0] == s[c.si];
    assert p[c.pi..][1..] == p[c.pi + 1..] && s[c.si..][1..] == s[c.si + 1..];
  }

  lemma MismatchMeans(s: string, p: string, c: Cursor)
    requires Within(s, p, c) && c.si < |s| && (c.pi < |p| ==> !Fits(p[c.pi], s[c.si]) && p[c.pi] != '%')
    ensures !LikeMatch(p[c.pi..], s[c.si..])
  {
    if c.pi < |p| { assert p[c.pi..][0] == p[c.pi] && s[c.si..][0] == s[c.si]; }
  }

  lemma AdvanceMeans(s: string, p: string, c: Cursor)
    requires '%' !in s && Within(s, p, c) && Tracks(s, p, c) && c.si < |s|
    ensures
      var next := Advance(s, p, c);
      if next.None? then !Pending(s, p, c) else Tracks(s, p, next.value) && (Pending(s, p, next.value) <==> Pending(s, p, c))
  {
    if c.pi < |p| && Fits(p[c.pi], s[c.si]) {
      FitMeans(s, p, c);
    } else if c.pi < |p| && p[c.pi] == '%' {
      StarMeans(s, p, c);
    } else {
      MismatchMeans(s, p, c);
      if c.star.Some? { BackMeans(s, p, c); }
    }
  }

  lemma {:induction false} WalkMeans(s: string, p: string, c: Cursor)
    requires '%' !in s && Within(s, p, c) && Tracks(s, p, c)
    ensures Walk(s, p, c) <==> Pending(s, p, c)
    decreases |p| - StarAt(c), |s| - StarFrom(c), |p| - c.pi
  {
    if c.si == |s| {
      EndMeans(s, p, c);
    } else {
      AdvanceMeans(s, p, c);
      var next := Advance(s, p, c);
      if next.Some? { WalkMeans(s, p, next.value); }
    }
  }

  /** On strings without `%` the loop decides LIKE, for every pattern. */
  lemma LoopIsLike(s: string, p: string)
    requires '%' !in s
    ensures Walk(s, p, START) <==> LikeMatch(p, s)
  {
    WalkMeans(s, p, START);
    assert p[0..] == p && s[0..] == s;
  }

  // ----- and on no other strings -----

  function Blanks(n: nat): (p: string)
    ensures |p| == n && forall k :: 0 <= k < n ==> p[k] == '_'
  {
    seq(n, _ => '_')
  }

  lemma {:induction false} WalkBlanks(s: string, p: string, c: Cursor, n: nat)
    requires Within(s, p, c) && c.si + n <= |s| && c.pi + n <= |p| && forall j :: c.pi <= j < c.pi + n ==> p[j] == '_'
    ensures Within(s, p, Cursor(c.si + n, c.pi + n, c.star))
    ensures Walk(s, p, c) == Walk(s, p, Cursor(c.si + n, c.pi + n, c.star))
    decreases n
  {
    if n > 0 {
      WalkBlanks(s, p, Cursor(c.si + 1, c.pi + 1, c.star), n - 1);
    }
  }

  /** One `_` for every character and a `%` before position `k`. */
  predicate IsTrap(p: string, s: string, k: nat) {
    k < |s| && |p| == |s| + 1 && p[k] == '%' && forall j :: 0 <= j < |p| && j != k ==> p[j] == '_'
  }

  lemma TrapRest(p: string, s: string, k: nat)
    requires IsTrap(p, s, k)
    ensures LikeMatch(p[k + 1..], s[k..])
  {
    WordDrops(p, k + 1, s, k, |s| - k);
    assert p[|p|..] == [] && s[|s|..] == [];
  }

  /** The pattern matches the string. */
  lemma TrapMatches(p: string, s: string, k: nat)
    requires IsTrap(p, s, k)
    ensures LikeMatch(p, s)
  {
    TrapRest(p, s, k);
    HeadAndRest(p, k);
    assert s[k..][0..] == s[k..];
    PercentSuffix(p[k + 1..], s[k..]);
    WordDrops(p, 0, s, 0, k);
    assert p[0..] == p && s[0..] == s;
  }

  /** With a `%` at that position of the string the loop says no. */
  lemma TrapCatches(p: string, s: string, k: nat)
    requires IsTrap(p, s, k) && s[k] == '%'
    ensures !Walk(s, p, START)
  {
    WalkBlanks(s, p, START, k);
    var c := Cursor(k, k, None);
    assert Advance(s, p, c) == Some(Cursor(k + 1, k + 1, None));
    WalkBlanks(s, p, Cursor(k + 1, k + 1, None), |s| - k - 1);
    assert p[|s|..][0] == '_';
  }

  /** The loop decides LIKE on a string, for every pattern, iff the string holds no `%`. */
  lemma LoopExactIff(s: string)
    ensures '%' !in s <==> forall p: string :: Walk(s, p, START) <==> LikeMatch(p, s)
  {
    if '%' !in s {
      forall p: string ensures Walk(s, p, START) <==> LikeMatch(p, s) { LoopIsLike(s, p); }
    } else {
      var k :| 0 <= k < |s| && s[k] == '%';
      var p := Blanks(k) + ['%'] + Blanks(|s| - k);
      assert IsTrap(p, s, k);
      TrapMatches(p, s, k);
      TrapCatches(p, s, k);
    }
  }
}
