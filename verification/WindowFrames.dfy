/** Window frame clauses: printing and parsing. */
module WindowFrames {
  import opened Basics
  import opened Text

  datatype FrameType = Rows | Range

  datatype FrameBound =
    | UnboundedPreceding
    | Preceding(n: u64)
    | CurrentRow
    | Following(n: u64)
    | UnboundedFollowing

  datatype WindowFrame = WindowFrame(frameType: FrameType, start: FrameBound, end: FrameBound)

  function PrintBound(b: FrameBound): string {
    match b
    case UnboundedPreceding => "UNBOUNDED PRECEDING"
    case Preceding(n) => Decimal(n) + " " + "PRECEDING"
    case CurrentRow => "CURRENT ROW"
    case Following(n) => Decimal(n) + " " + "FOLLOWING"
    case UnboundedFollowing => "UNBOUNDED FOLLOWING"
  }

  function PrintType(t: FrameType): string {
    match t
    case Rows => "ROWS"
    case Range => "RANGE"
  }

  function PrintFrame(f: WindowFrame): string {
    PrintType(f.frameType) + " " + "BETWEEN" + " " + PrintBound(f.start) + " AND " + PrintBound(f.end)
  }

  function ParseBound(text: string): Option<FrameBound> {
    var s := Upper(Trim(text));
    if s == "UNBOUNDED PRECEDING" then Some(UnboundedPreceding)
    else if s == "UNBOUNDED FOLLOWING" then Some(UnboundedFollowing)
    else if s == "CURRENT ROW" then Some(CurrentRow)
    else
      var parts := SplitWhitespace(s);
      if |parts| == 2 then
        match ParseU64(parts[0])
        case None => None
        case Some(n) =>
          if parts[1] == "PRECEDING" then Some(Preceding(n))
          else if parts[1] == "FOLLOWING" then Some(Following(n))
          else None
      else None
  }

  function ParseFrame(text: string): Option<WindowFrame> {
    ParseTrimmed(Trim(Upper(text)))
  }

  function ParseTrimmed(trimmed: string): Option<WindowFrame> {
    if !("ROWS" <= trimmed) && !("RANGE" <= trimmed) then None
    else
      var frameType := if "ROWS" <= trimmed then Rows else Range;
      match Find(trimmed, "BETWEEN")
      case None => None
      case Some(between) =>
        match ParseRange(trimmed[between + 7..])
        case None => None
        case Some((start, end)) => Some(WindowFrame(frameType, start, end))
  }

  /** `<bound> AND <bound>` */
  function ParseRange(text: string): Option<(FrameBound, FrameBound)> {
    var after := Trim(text);
    match Find(after, " AND ")
    case None => None
    case Some(and) =>
      match (ParseBound(Trim(after[..and])), ParseBound(Trim(after[and + 5..])))
      case (Some(start), Some(end)) => Some((start, end))
      case _ => None
  }

  // ----- what printed bounds look like -----

  /** Upper-case, tight, and no blank inside is followed by an `A`. */
  ghost predicate BoundText(s: string) {
    && Tight(s) && NoLower(s)
    && forall i :: 0 <= i < |s| - 1 && s[i] == ' ' ==> s[i + 1] != 'A'
  }

  lemma NumberBoundText(n: u64, word: string)
    requires word == "PRECEDING" || word == "FOLLOWING"
    ensures BoundText(Decimal(n) + " " + word)
  {
    var d := Decimal(n);
    var s := d + " " + word;
    assert IsDigit(d[0]) && s[0] == d[0];
    assert s[|s| - 1] == word[|word| - 1];
    assert word[0] != 'A' && NoLower(word);
    forall i | 0 <= i < |s| ensures !('a' <= s[i] <= 'z') && (i < |s| - 1 && s[i] == ' ' ==> s[i + 1] != 'A') {
      if i < |d| { assert IsDigit(s[i]); }
      if i == |d| { assert s[i + 1] == word[0]; }
      if i > |d| { assert s[i] == word[i - |d| - 1] && word[i - |d| - 1] != ' '; }
    }
  }

  lemma PrintedBound(b: FrameBound)
    ensures BoundText(PrintBound(b))
  {
    match b
    case UnboundedPreceding => FixedPreceding();
    case Preceding(n) => NumberBoundText(n, "PRECEDING");
    case CurrentRow => FixedCurrent();
    case Following(n) => NumberBoundText(n, "FOLLOWING");
    case UnboundedFollowing => FixedFollowing();
  }

  lemma FixedPreceding()
    ensures BoundText("UNBOUNDED PRECEDING")
  {
  }

  lemma FixedFollowing()
    ensures BoundText("UNBOUNDED FOLLOWING")
  {
  }

  lemma FixedCurrent()
    ensures BoundText("CURRENT ROW")
  {
  }

  // ----- bounds round-trip -----

  lemma DigitFirst(s: string)
    requires s != [] && IsDigit(s[0])
    ensures s != "UNBOUNDED PRECEDING" && s != "UNBOUNDED FOLLOWING" && s != "CURRENT ROW"
  {
  }

  lemma CanonicalText(s: string)
    requires BoundText(s)
    ensures Upper(Trim(s)) == s && Trim(s) == s
  {
    TrimTight(s);
    UpperNoLower(s);
  }

  lemma NumberWords(n: u64, word: string)
    requires IsWord(word)
    ensures SplitWhitespace(Decimal(n) + " " + word) == [Decimal(n), word]
  {
    var d := Decimal(n);
    forall i | 0 <= i < |d| ensures !IsSpace(d[i]) { assert IsDigit(d[i]); }
    SplitTwo(d, word);
  }

  lemma NumberBound(n: u64, word: string)
    requires word == "PRECEDING" || word == "FOLLOWING"
    ensures ParseBound(Decimal(n) + " " + word) == Some(if word == "PRECEDING" then Preceding(n) else Following(n))
  {
    var s := Decimal(n) + " " + word;
    NumberBoundText(n, word);
    CanonicalText(s);
    assert IsDigit(s[0]) by { assert s[0] == Decimal(n)[0]; }
    DigitFirst(s);
    NumberWords(n, word);
    ParseDecimal(n);
    TwoWordBound(s, Decimal(n), word, n);
  }

  lemma TwoWordBound(s: string, d: string, word: string, n: u64)
    requires Upper(Trim(s)) == s && Trim(s) == s
    requires s != "UNBOUNDED PRECEDING" && s != "UNBOUNDED FOLLOWING" && s != "CURRENT ROW"
    requires SplitWhitespace(s) == [d, word] && ParseU64(d) == Some(n)
    requires word == "PRECEDING" || word == "FOLLOWING"
    ensures ParseBound(s) == Some(if word == "PRECEDING" then Preceding(n) else Following(n))
  {
  }

  lemma BoundRoundTrip(b: FrameBound)
    ensures ParseBound(PrintBound(b)) == Some(b)
  {
    PrintedBound(b);
    CanonicalText(PrintBound(b));
    match b
    case Preceding(n) => NumberBound(n, "PRECEDING");
    case Following(n) => NumberBound(n, "FOLLOWING");
    case UnboundedPreceding =>
    case CurrentRow =>
    case UnboundedFollowing =>
  }

  // ----- frames round-trip -----

  lemma NoAndInside(a: string, b: string)
    requires BoundText(a) && Tight(b)
    ensures NotInside(a, " AND ", b)
  {
    var t := " AND ";
    var s := a + t + b;
    forall i | 0 <= i < |a| ensures StartsElsewhere(a, t, b, i) {
      assert s[i..][0] == a[i];
      assert t[0] == ' ' && t[1] == 'A';
      if a[i] == ' ' {
        assert s[i..][1] == a[i + 1];
      }
    }
  }

  lemma NoBetweenInside(t: FrameType, rest: string)
    ensures NotInside(PrintType(t) + " ", "BETWEEN", rest)
  {
    var a := PrintType(t) + " ";
    forall i | 0 <= i < |a| ensures StartsElsewhere(a, "BETWEEN", rest, i) {
      assert (a + "BETWEEN" + rest)[i..][0] == a[i] != 'B';
    }
  }

  /** The part after BETWEEN. */
  lemma RangeText(a: string, b: string)
    requires BoundText(a) && BoundText(b)
    ensures Tight(a + " AND " + b) && NoLower(a + " AND " + b)
  {
    var s := a + " AND " + b;
    assert s[0] == a[0] && s[|s| - 1] == b[|b| - 1];
    forall i | 0 <= i < |s| ensures !('a' <= s[i] <= 'z') {
      if i < |a| { assert s[i] == a[i]; } else if i >= |a| + 5 { assert s[i] == b[i - |a| - 5]; }
    }
  }

  lemma HeadText(t: FrameType)
    ensures NoLower(PrintType(t) + " ") && (PrintType(t) + " ")[0] == 'R'
  {
  }

  lemma WholeText(head: string, rest: string)
    requires NoLower(head) && NoLower(rest) && head != [] && !IsSpace(head[0]) && Tight(rest)
    ensures
      var s := head + "BETWEEN" + (" " + rest);
      Tight(s) && NoLower(s) && s[|head| + 7..] == " " + rest
  {
    var s := head + "BETWEEN" + (" " + rest);
    assert s[0] == head[0] && s[|s| - 1] == rest[|rest| - 1];
    assert NoLower("BETWEEN");
    forall i | 0 <= i < |s| ensures !('a' <= s[i] <= 'z') {
      if i < |head| { assert s[i] == head[i]; }
      else if i < |head| + 7 { assert s[i] == "BETWEEN"[i - |head|]; }
      else if i > |head| + 7 { assert s[i] == rest[i - |head| - 8]; }
    }
  }

  lemma TypePrefix(t: FrameType, tail: string)
    ensures
      var s := PrintType(t) + " " + tail;
      TypeStarts(t, s)
  {
    var s := PrintType(t) + " " + tail;
    if t == Range { assert s[1] == 'A'; }
  }

  lemma ParseRangeParts(a: string, b: string)
    requires BoundText(a) && BoundText(b) && ParseBound(a).Some? && ParseBound(b).Some?
    ensures ParseRange(" " + (a + " AND " + b)) == Some((ParseBound(a).value, ParseBound(b).value))
  {
    var after := a + " AND " + b;
    RangeText(a, b);
    TrimTight(after);
    AndFound(a, b);
    TrimTight(a);
    TrimTight(b);
    RangeAt(" " + after, after, |a|, a, b);
  }

  lemma AndFound(a: string, b: string)
    requires BoundText(a) && Tight(b)
    ensures
      var after := a + " AND " + b;
      Find(after, " AND ") == Some(|a|) && after[..|a|] == a && after[|a| + 5..] == b
  {
    NoAndInside(a, b);
    FindFirst(a, " AND ", b);
  }

  lemma RangeAt(text: string, after: string, k: nat, a: string, b: string)
    requires Trim(text) == after && Find(after, " AND ") == Some(k) && k + 5 <= |after|
    requires Trim(after[..k]) == a && Trim(after[k + 5..]) == b && ParseBound(a).Some? && ParseBound(b).Some?
    ensures ParseRange(text) == Some((ParseBound(a).value, ParseBound(b).value))
  {
  }

  /** Parsing a frame made of two canonical bound texts parses the two bounds. */
  lemma ParseParts(t: FrameType, a: string, b: string)
    requires BoundText(a) && BoundText(b) && ParseBound(a).Some? && ParseBound(b).Some?
    ensures ParseFrame((PrintType(t) + " ") + "BETWEEN" + (" " + (a + " AND " + b)))
      == Some(WindowFrame(t, ParseBound(a).value, ParseBound(b).value))
  {
    RangeText(a, b);
    ParseRangeParts(a, b);
    ParseAfter(t, a + " AND " + b);
  }

  lemma ParseAfter(t: FrameType, after: string)
    requires Tight(after) && NoLower(after) && ParseRange(" " + after).Some?
    ensures ParseFrame((PrintType(t) + " ") + "BETWEEN" + (" " + after))
      == Some(WindowFrame(t, ParseRange(" " + after).value.0, ParseRange(" " + after).value.1))
  {
    var head := PrintType(t) + " ";
    var s := head + "BETWEEN" + (" " + after);
    HeadText(t);
    WholeText(head, after);
    BetweenFound(t, " " + after);
    CanonicalFrame(t, s, |head|, " " + after);
  }

  lemma CanonicalFrame(t: FrameType, s: string, k: nat, rest: string)
    requires Tight(s) && NoLower(s) && TypeStarts(t, s)
    requires Find(s, "BETWEEN") == Some(k) && s[k + 7..] == rest && ParseRange(rest).Some?
    ensures ParseFrame(s) == Some(WindowFrame(t, ParseRange(rest).value.0, ParseRange(rest).value.1))
  {
    UpperTight(s);
    TrimmedAfter(t, s, k, rest);
  }

  predicate TypeStarts(t: FrameType, s: string) {
    if t == Rows then "ROWS" <= s else "RANGE" <= s && !("ROWS" <= s)
  }

  lemma UpperTight(s: string)
    requires Tight(s) && NoLower(s)
    ensures ParseFrame(s) == ParseTrimmed(s)
  {
    UpperNoLower(s);
    TrimTight(s);
  }

  lemma BetweenFound(t: FrameType, rest: string)
    ensures
      var s := (PrintType(t) + " ") + "BETWEEN" + rest;
      && TypeStarts(t, s)
      && Find(s, "BETWEEN") == Some(|PrintType(t)| + 1)
  {
    var head := PrintType(t) + " ";
    TypePrefix(t, "BETWEEN" + rest);
    assert head + "BETWEEN" + rest == head + ("BETWEEN" + rest);
    NoBetweenInside(t, rest);
    FindFirst(head, "BETWEEN", rest);
  }

  lemma TrimmedAfter(t: FrameType, s: string, k: nat, rest: string)
    requires TypeStarts(t, s)
    requires Find(s, "BETWEEN") == Some(k) && s[k + 7..] == rest && ParseRange(rest).Some?
    ensures ParseTrimmed(s) == Some(WindowFrame(t, ParseRange(rest).value.0, ParseRange(rest).value.1))
  {
  }

  /** Printing any frame and parsing the text gives the frame back, whatever the offsets. */
  lemma FrameRoundTrip(f: WindowFrame)
    ensures ParseFrame(PrintFrame(f)) == Some(f)
  {
    var a, b := PrintBound(f.start), PrintBound(f.end);
    PrintedBound(f.start);
    PrintedBound(f.end);
    BoundRoundTrip(f.start);
    BoundRoundTrip(f.end);
    ParseParts(f.frameType, a, b);
    Reassociate(PrintType(f.frameType) + " ", a, b);
  }

  lemma Reassociate(head: string, a: string, b: string)
    ensures head + "BETWEEN" + " " + a + " AND " + b == head + "BETWEEN" + (" " + (a + " AND " + b))
  {
  }

  /** Whatever text parses, printing the result and parsing again changes nothing. */
  lemma ParsedTextReparses(text: string)
    requires ParseFrame(text).Some?
    ensures ParseFrame(PrintFrame(ParseFrame(text).value)) == ParseFrame(text)
  {
    FrameRoundTrip(ParseFrame(text).value);
  }

  /** Bounds as they are written. */
  lemma WrittenBounds(n: u64)
    ensures ParseBound("UNBOUNDED PRECEDING") == Some(UnboundedPreceding)
    ensures ParseBound("UNBOUNDED FOLLOWING") == Some(UnboundedFollowing)
    ensures ParseBound("CURRENT ROW") == Some(CurrentRow)
    ensures ParseBound(Decimal(n) + " " + "PRECEDING") == Some(Preceding(n))
    ensures ParseBound(Decimal(n) + " " + "FOLLOWING") == Some(Following(n))
  {
    BoundRoundTrip(UnboundedPreceding);
    BoundRoundTrip(UnboundedFollowing);
    BoundRoundTrip(CurrentRow);
    BoundRoundTrip(Preceding(n));
    BoundRoundTrip(Following(n));
  }
}
