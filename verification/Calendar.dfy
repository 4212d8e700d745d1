/** The day number of a proleptic Gregorian date and the encoded-date order. */
module Calendar {
  import opened Basics

  datatype Date = Date(year: int, month: int, day: int)

  // ----- the calendar -----

  /** Appendix C of RFC 3339. */
  predicate IsLeap(y: int) {
    y % 4 == 0 && (y % 100 != 0 || y % 400 == 0)
  }

  function DaysInMonth(y: int, m: int): (n: int)
    requires 1 <= m <= 12
    ensures 28 <= n <= 31
  {
    if m == 2 then (if IsLeap(y) then 29 else 28)
    else if m == 4 || m == 6 || m == 9 || m == 11 then 30
    else 31
  }

  predicate IsDate(d: Date) {
    1 <= d.month <= 12 && 1 <= d.day <= DaysInMonth(d.year, d.month)
  }

  function NextDay(d: Date): (n: Date)
    requires IsDate(d)
    ensures IsDate(n)
  {
    if d.day < DaysInMonth(d.year, d.month) then Date(d.year, d.month, d.day + 1)
    else if d.month < 12 then Date(d.year, d.month + 1, 1)
    else Date(d.year + 1, 1, 1)
  }

  predicate Earlier(a: Date, b: Date) {
    a.year < b.year || (a.year == b.year && (a.month < b.month || (a.month == b.month && a.day < b.day)))
  }

  // ----- the code -----

  /** Rust's `/` on signed integers: truncation toward zero. */
  function TruncDiv(a: int, b: int): int
    requires b > 0
  {
    if a >= 0 then a / b else -((-a) / b)
  }

  function ShiftedYear(d: Date): int {
    if d.month <= 2 then d.year - 1 else d.year
  }

  function Era(d: Date): int {
    var y := ShiftedYear(d);
    TruncDiv(if y >= 0 then y else y - 399, 400)
  }

  function YearOfEra(d: Date): int {
    ShiftedYear(d) - Era(d) * 400
  }

  function DayOfYear(d: Date): int {
    (153 * (if d.month > 2 then d.month - 3 else d.month + 9) + 2) / 5 + d.day - 1
  }

  function DayOfEra(d: Date): int {
    YearOfEra(d) * 365 + YearOfEra(d) / 4 - YearOfEra(d) / 100 + DayOfYear(d)
  }

  function DaysFromCivil(d: Date): int {
    Era(d) * 146097 + DayOfEra(d) - 719468
  }

  // ----- correctness -----

  /** The truncating division with its correction is the floor, also for negative years. */
  lemma EraIsFloor(d: Date)
    ensures Era(d) * 400 <= ShiftedYear(d) < (Era(d) + 1) * 400
    ensures 0 <= YearOfEra(d) <= 399
  {
  }

  /** Days before 1 March of a year, counted from 1 March of year 0. */
  function MarchDays(y: int): int {
    365 * y + y / 4 - y / 100 + y / 400
  }

  lemma SplitYear(y: int, e: int, r: int)
    requires y == 400 * e + r && 0 <= r <= 399
    ensures e * 146097 + r * 365 + r / 4 - r / 100 == MarchDays(y)
  {
    assert y / 4 == 100 * e + r / 4;
    assert y / 100 == 4 * e + r / 100;
    assert y / 400 == e;
  }

  /** The day number is the March-based year count plus the day of that year. */
  lemma CivilIsMarch(d: Date)
    ensures DaysFromCivil(d) == MarchDays(ShiftedYear(d)) + DayOfYear(d) - 719468
  {
    EraIsFloor(d);
    SplitYear(ShiftedYear(d), Era(d), YearOfEra(d));
  }

  lemma QuotientStep(y: int, k: int)
    requires k == 4 || k == 100 || k == 400
    ensures y / k == (y - 1) / k + (if y % k == 0 then 1 else 0)
  {
  }

  lemma Divides4(y: int)
    requires y % 100 == 0
    ensures y % 4 == 0
  {
    assert y == 4 * (25 * (y / 100));
  }

  lemma Divides100(y: int)
    requires y % 400 == 0
    ensures y % 100 == 0
  {
    assert y == 100 * (4 * (y / 400));
  }

  /** A March-based year is a leap year when the February at its end belongs to a leap year. */
  lemma MarchYearLength(y: int)
    ensures MarchDays(y) == MarchDays(y - 1) + (if IsLeap(y) then 366 else 365)
  {
    QuotientStep(y, 4);
    QuotientStep(y, 100);
    QuotientStep(y, 400);
    if y % 400 == 0 { Divides100(y); }
    if y % 100 == 0 { Divides4(y); }
    LeapCount(y / 4 - (y - 1) / 4, y / 100 - (y - 1) / 100, y / 400 - (y - 1) / 400, y % 4 == 0, y % 100 == 0, y % 400 == 0);
  }

  /** Inclusion and exclusion over the three divisors. */
  lemma LeapCount(q4: int, q100: int, q400: int, d4: bool, d100: bool, d400: bool)
    requires q4 == (if d4 then 1 else 0) && q100 == (if d100 then 1 else 0) && q400 == (if d400 then 1 else 0)
    requires (d400 ==> d100) && (d100 ==> d4)
    ensures q4 - q100 + q400 == if d4 && (!d100 || d400) then 1 else 0
  {
  }

  lemma {:induction false} MarchDaysGrow(x: int, y: int)
    requires x < y
    ensures MarchDays(y) >= MarchDays(x) + (if IsLeap(x + 1) then 366 else 365)
    decreases y - x
  {
    MarchYearLength(x + 1);
    if x + 1 < y { MarchDaysGrow(x + 1, y); }
  }

  /** Months counted from March. */
  function MarchMonth(m: int): int {
    if m > 2 then m - 3 else m + 9
  }

  /** The first day of a month in a year that begins in March. */
  function MonthStart(mm: int): int {
    (153 * mm + 2) / 5
  }

  lemma MonthStarts()
    ensures MonthStart(0) == 0 && MonthStart(1) == 31 && MonthStart(2) == 61 && MonthStart(3) == 92
    ensures MonthStart(4) == 122 && MonthStart(5) == 153 && MonthStart(6) == 184 && MonthStart(7) == 214
    ensures MonthStart(8) == 245 && MonthStart(9) == 275 && MonthStart(10) == 306 && MonthStart(11) == 337
  {
  }

  lemma DayOfYearIs(d: Date)
    ensures DayOfYear(d) == MonthStart(MarchMonth(d.month)) + d.day - 1
  {
  }

  /** Each month but February ends where the next one starts. */
  lemma MonthLength(y: int, m: int)
    requires 1 <= m <= 12
    ensures m != 2 ==> MonthStart(MarchMonth(m)) + DaysInMonth(y, m) == MonthStart(MarchMonth(m) + 1)
    ensures m == 2 ==> MonthStart(MarchMonth(m)) + DaysInMonth(y, m) == (if IsLeap(y) then 366 else 365)
  {
    MonthStarts();
  }

  lemma MarchStep(d: Date)
    requires IsDate(d)
    ensures MarchDays(ShiftedYear(NextDay(d))) + MonthStart(MarchMonth(NextDay(d).month)) + NextDay(d).day ==
            MarchDays(ShiftedYear(d)) + MonthStart(MarchMonth(d.month)) + d.day + 1
  {
    if d.day == DaysInMonth(d.year, d.month) {
      MonthLength(d.year, d.month);
      if d.month == 2 {
        MarchYearLength(d.year);
        MonthStarts();
      } else if d.month == 12 {
        assert NextDay(d) == Date(d.year + 1, 1, 1);
      } else {
        assert NextDay(d) == Date(d.year, d.month + 1, 1);
        assert MarchMonth(d.month + 1) == MarchMonth(d.month) + 1;
      }
    }
  }

  /** The day number of every calendar day is one more than that of the day before. */
  lemma NextDayIsOneMore(d: Date)
    requires IsDate(d)
    ensures DaysFromCivil(NextDay(d)) == DaysFromCivil(d) + 1
  {
    CivilIsMarch(d);
    CivilIsMarch(NextDay(d));
    DayOfYearIs(d);
    DayOfYearIs(NextDay(d));
    MarchStep(d);
  }

  const EPOCH := Date(1970, 1, 1)

  lemma EpochIsZero()
    ensures DaysFromCivil(EPOCH) == 0
  {
  }

  function PreviousDay(d: Date): (p: Date)
    requires IsDate(d)
    ensures IsDate(p) && NextDay(p) == d
  {
    if d.day > 1 then Date(d.year, d.month, d.day - 1)
    else if d.month > 1 then Date(d.year, d.month - 1, DaysInMonth(d.year, d.month - 1))
    else Date(d.year - 1, 12, 31)
  }

  lemma PreviousDayIsOneLess(d: Date)
    requires IsDate(d)
    ensures DaysFromCivil(PreviousDay(d)) == DaysFromCivil(d) - 1
  {
    NextDayIsOneMore(PreviousDay(d));
  }

  /** The calendar day `n` days after 1970-01-01, or before it for negative `n`, found by walking day by day. */
  function Walk(n: int): (d: Date)
    ensures IsDate(d)
    decreases if n < 0 then -n else n
  {
    if n == 0 then EPOCH
    else if n > 0 then NextDay(Walk(n - 1))
    else PreviousDay(Walk(n + 1))
  }

  lemma {:induction false} WalkForward(n: nat)
    ensures DaysFromCivil(Walk(n)) == n
  {
    if n == 0 {
      EpochIsZero();
    } else {
      WalkForward(n - 1);
      NextDayIsOneMore(Walk(n - 1));
    }
  }

  lemma {:induction false} WalkBackward(n: int)
    requires n <= 0
    ensures DaysFromCivil(Walk(n)) == n
    decreases -n
  {
    if n == 0 {
      EpochIsZero();
    } else {
      WalkBackward(n + 1);
      PreviousDayIsOneLess(Walk(n + 1));
    }
  }

  /** The day number is the day-by-day count, in both directions. */
  lemma WalkCounts(n: int)
    ensures DaysFromCivil(Walk(n)) == n
  {
    if n >= 0 { WalkForward(n); } else { WalkBackward(n); }
  }

  /** Walking as many days as the day number says leads back to the date, for every date. */
  lemma WalkReaches(d: Date)
    requires IsDate(d)
    ensures Walk(DaysFromCivil(d)) == d
  {
    WalkCounts(DaysFromCivil(d));
    DaysOrderDates(Walk(DaysFromCivil(d)), d);
  }

  lemma DayOfYearRange(d: Date)
    requires IsDate(d)
    ensures 0 <= DayOfYear(d) <= (if IsLeap(ShiftedYear(d) + 1) then 365 else 364)
    ensures MonthStart(MarchMonth(d.month)) <= DayOfYear(d)
    ensures d.month != 2 ==> DayOfYear(d) < MonthStart(MarchMonth(d.month) + 1)
  {
    DayOfYearIs(d);
    MonthLength(d.year, d.month);
    MonthStarts();
  }

  lemma MonthStartGrows(x: int, y: int)
    requires x <= y
    ensures MonthStart(x) <= MonthStart(y)
  {
  }

  /** Within a year and across years the day number grows with the date. */
  lemma DaysIncrease(a: Date, b: Date)
    requires IsDate(a) && IsDate(b) && Earlier(a, b)
    ensures DaysFromCivil(a) < DaysFromCivil(b)
  {
    CivilIsMarch(a);
    CivilIsMarch(b);
    DayOfYearRange(a);
    DayOfYearRange(b);
    if ShiftedYear(a) < ShiftedYear(b) {
      MarchDaysGrow(ShiftedYear(a), ShiftedYear(b));
    } else {
      SameMarchYear(a, b);
    }
  }

  lemma SameMarchYear(a: Date, b: Date)
    requires IsDate(a) && IsDate(b) && Earlier(a, b) && ShiftedYear(a) >= ShiftedYear(b)
    ensures ShiftedYear(a) == ShiftedYear(b) && DayOfYear(a) < DayOfYear(b)
  {
    DayOfYearIs(a);
    DayOfYearIs(b);
    if a.month != b.month {
      DayOfYearRange(a);
      DayOfYearRange(b);
      MonthStartGrows(MarchMonth(a.month) + 1, MarchMonth(b.month));
    }
  }

  /** Day numbers order and identify dates. */
  lemma DaysOrderDates(a: Date, b: Date)
    requires IsDate(a) && IsDate(b)
    ensures DaysFromCivil(a) < DaysFromCivil(b) <==> Earlier(a, b)
    ensures DaysFromCivil(a) == DaysFromCivil(b) <==> a == b
  {
    if Earlier(a, b) { DaysIncrease(a, b); }
    if Earlier(b, a) { DaysIncrease(b, a); }
  }

  // ----- machine arithmetic -----

  predicate FitsI32(n: int) {
    -0x8000_0000 <= n < 0x8000_0000
  }

  predicate FitsU32(n: int) {
    0 <= n < 0x1_0000_0000
  }

  /** Every intermediate value of the computation fits its machine type. */
  predicate NoOverflow(d: Date) {
    && FitsI32(ShiftedYear(d))
    && (ShiftedYear(d) < 0 ==> FitsI32(ShiftedYear(d) - 399))
    && FitsI32(Era(d) * 400) && FitsI32(YearOfEra(d)) && FitsU32(YearOfEra(d))
    && FitsU32(DayOfYear(d)) && FitsU32(YearOfEra(d) * 365) && FitsU32(DayOfEra(d)) && FitsI32(DayOfEra(d))
    && FitsI32(Era(d) * 146097) && FitsI32(Era(d) * 146097 + DayOfEra(d))
    && FitsI32(DaysFromCivil(d))
  }

  lemma DayOfEraRange(d: Date)
    requires IsDate(d)
    ensures 0 <= DayOfYear(d) <= 365 && 0 <= DayOfEra(d) <= 146096
  {
    EraIsFloor(d);
    DayOfYearRange(d);
    var r := YearOfEra(d);
    if DayOfYear(d) == 365 {
      LeapResidue(ShiftedYear(d) + 1, Era(d), r + 1);
    }
    YearOfEraDays(r, DayOfYear(d));
  }

  lemma LeapResidue(y: int, e: int, r: int)
    requires y == 400 * e + r
    ensures IsLeap(y) <==> IsLeap(r)
  {
    Residue4(y, 100 * e, r);
    Residue100(y, 4 * e, r);
    Residue400(y, e, r);
  }

  lemma Residue4(y: int, q: int, r: int)
    requires y == 4 * q + r
    ensures y % 4 == r % 4
  {
  }

  lemma Residue100(y: int, q: int, r: int)
    requires y == 100 * q + r
    ensures y % 100 == r % 100
  {
  }

  lemma Residue400(y: int, q: int, r: int)
    requires y == 400 * q + r
    ensures y % 400 == r % 400
  {
  }

  lemma YearOfEraDays(r: int, doy: int)
    requires 0 <= r <= 399 && 0 <= doy <= 365 && (doy == 365 ==> IsLeap(r + 1))
    ensures 0 <= r * 365 + r / 4 - r / 100 + doy <= 146096
  {
  }

  /**
   The computation stays within 32 bits iff the day number lies in a range that loses the last
   719468 days of i32: the epoch shift is subtracted last.
  */
  lemma NoOverflowIff(d: Date)
    requires IsDate(d)
    ensures NoOverflow(d) <==> -0x8000_0000 <= DaysFromCivil(d) < 0x8000_0000 - 719468
  {
    DayOfEraRange(d);
    EraIsFloor(d);
  }

  // ----- encoded dates -----

  type byte = b: int | 0 <= b < 256

  predicate IsDigit(b: byte) {
    48 <= b <= 57
  }

  function Digit(b: byte): int {
    var n: int := b;
    n - 48
  }

  function Digits2(s: seq<byte>, i: nat): int
    requires i + 2 <= |s|
  {
    Digit(s[i]) * 10 + Digit(s[i + 1])
  }

  function DateOf(s: seq<byte>): Date
    requires |s| >= 10
  {
    Date(Digit(s[0]) * 1000 + Digit(s[1]) * 100 + Digit(s[2]) * 10 + Digit(s[3]), Digits2(s, 5), Digits2(s, 8))
  }

  predicate DigitsInPlace(s: seq<byte>)
    requires |s| >= 10
  {
    && IsDigit(s[0]) && IsDigit(s[1]) && IsDigit(s[2]) && IsDigit(s[3])
    && IsDigit(s[5]) && IsDigit(s[6]) && IsDigit(s[8]) && IsDigit(s[9])
  }

  /** A negative day number becomes a huge u64: the cast extends the sign. */
  function ParseDateToDays(s: seq<byte>): int {
    if |s| < 10 || !DigitsInPlace(s) then 0
    else
      var days := DaysFromCivil(DateOf(s));
      if days >= 0 then days else days + TWO_64
  }

  /** `full-date` of section 5.6 of RFC 3339. */
  predicate IsFullDate(s: seq<byte>) {
    && |s| == 10 && DigitsInPlace(s) && s[4] == 45 && s[7] == 45
    && IsDate(DateOf(s))
  }

  ghost predicate LexLess(s: seq<byte>, t: seq<byte>) {
    exists k :: LexLessAt(s, t, k)
  }

  predicate LexLessAt(s: seq<byte>, t: seq<byte>, k: int) {
    0 <= k < |s| && k < |t| && (forall i :: 0 <= i < k ==> s[i] == t[i]) && s[k] < t[k]
  }

  lemma FirstDifference(s: seq<byte>, t: seq<byte>, k: nat)
    requires |s| == |t| && k < |s| && (forall i :: 0 <= i < k ==> s[i] == t[i]) && s[k] != t[k]
    ensures LexLess(s, t) <==> s[k] < t[k]
  {
    if s[k] < t[k] { assert LexLessAt(s, t, k); }
  }

  /** Lexicographic order of full-dates is calendar order. */
  lemma StringsOrderDates(s: seq<byte>, t: seq<byte>)
    requires IsFullDate(s) && IsFullDate(t)
    ensures LexLess(s, t) <==> Earlier(DateOf(s), DateOf(t))
    ensures DateOf(s) == DateOf(t) ==> s == t
  {
    if s == t {
      forall k ensures !LexLessAt(s, t, k) { }
    } else {
      var k := DifferAt(s, t, 0);
      FirstDifference(s, t, k);
      assert k != 4 && k != 7;
    }
  }

  lemma {:induction false} DifferAt(s: seq<byte>, t: seq<byte>, i: nat) returns (k: nat)
    requires |s| == |t| && s != t && i <= |s| && forall j :: 0 <= j < i ==> s[j] == t[j]
    ensures k < |s| && s[k] != t[k] && forall j :: 0 <= j < k ==> s[j] == t[j]
    decreases |s| - i
  {
    if i < |s| && s[i] != t[i] { k := i; } else { k := DifferAt(s, t, i + 1); }
  }

  lemma FirstAndLast()
    ensures DaysFromCivil(Date(0, 1, 1)) == -719528 && DaysFromCivil(Date(9999, 12, 31)) == 2932896
  {
  }

  lemma FullDateRange(s: seq<byte>)
    requires IsFullDate(s)
    ensures 0 <= DateOf(s).year <= 9999
    ensures -719528 <= DaysFromCivil(DateOf(s)) <= 2932896
    ensures NoOverflow(DateOf(s))
    ensures DaysFromCivil(DateOf(s)) < 0 <==> Earlier(DateOf(s), EPOCH)
  {
    var d := DateOf(s);
    var first, last := Date(0, 1, 1), Date(9999, 12, 31);
    EpochIsZero();
    DaysOrderDates(d, EPOCH);
    FirstAndLast();
    if d != first { DaysIncrease(first, d); }
    if d != last { DaysIncrease(d, last); }
    NoOverflowIff(d);
  }

  /**
   For every two full-dates the unsigned order of their encodings is the calendar order, which is
   the order of the strings, iff both lie on the same side of 1970-01-01.
  */
  lemma EncodedDatesOrder(s: seq<byte>, t: seq<byte>)
    requires IsFullDate(s) && IsFullDate(t)
    ensures LexLess(s, t) <==> Earlier(DateOf(s), DateOf(t))
    ensures (ParseDateToDays(s) < ParseDateToDays(t) <==> Earlier(DateOf(s), DateOf(t)))
      <==> (Earlier(DateOf(s), EPOCH) <==> Earlier(DateOf(t), EPOCH))
    ensures ParseDateToDays(s) == ParseDateToDays(t) <==> s == t
  {
    StringsOrderDates(s, t);
    FullDateRange(s);
    FullDateRange(t);
    DaysOrderDates(DateOf(s), DateOf(t));
  }

  lemma ParsedDays(s: seq<byte>)
    requires IsFullDate(s)
    ensures ParseDateToDays(s) == DaysFromCivil(DateOf(s)) + if Earlier(DateOf(s), EPOCH) then TWO_64 else 0
  {
    FullDateRange(s);
  }

  lemma WalkIsDays(d: Date, n: int)
    requires IsDate(d)
    ensures Walk(n) == d <==> n == DaysFromCivil(d)
  {
    WalkReaches(d);
    WalkCounts(n);
  }

  /**
   The encoding of a full-date counts days: from 1970 on it is the one number of days after which
   the walk from 1970-01-01 reaches the date, before 1970 the negative count shifted up by 2^64.
  */
  lemma ParsedDateCounts(s: seq<byte>, n: int)
    requires IsFullDate(s)
    ensures Walk(n) == DateOf(s) <==> ParseDateToDays(s) == if Earlier(DateOf(s), EPOCH) then n + TWO_64 else n
  {
    ParsedDays(s);
    WalkIsDays(DateOf(s), n);
  }

  function DigitByte(n: int): byte {
    48 + n % 10
  }

  /** A date of a four-digit year as text. */
  function FullDate(d: Date): (s: seq<byte>)
    requires IsDate(d) && 0 <= d.year <= 9999
    ensures |s| == 10
  {
    [DigitByte(d.year / 1000), DigitByte(d.year / 100), DigitByte(d.year / 10), DigitByte(d.year), 45,
     DigitByte(d.month / 10), DigitByte(d.month), 45, DigitByte(d.day / 10), DigitByte(d.day)]
  }

  lemma DigitRead(n: int)
    ensures IsDigit(DigitByte(n)) && Digit(DigitByte(n)) == n % 10
  {
  }

  lemma TwoDigits(n: int)
    requires 0 <= n <= 99
    ensures Digit(DigitByte(n / 10)) * 10 + Digit(DigitByte(n)) == n
  {
    DigitRead(n / 10);
    DigitRead(n);
  }

  lemma FourDigits(n: int)
    requires 0 <= n <= 9999
    ensures Digit(DigitByte(n / 1000)) * 1000 + Digit(DigitByte(n / 100)) * 100 + Digit(DigitByte(n / 10)) * 10 + Digit(DigitByte(n)) == n
  {
    DigitRead(n / 1000);
    DigitRead(n / 100);
    DigitRead(n / 10);
    DigitRead(n);
    ThousandsAndRest(n);
  }

  lemma ThousandsAndRest(n: int)
    requires 0 <= n <= 9999
    ensures n / 1000 % 10 * 1000 + n / 100 % 10 * 100 + n / 10 % 10 * 10 + n % 10 == n
  {
    var h, r := n / 100, n % 100;
    assert n / 1000 == h / 10 && n / 10 % 10 == r / 10 && n % 10 == r % 10;
  }

  lemma MonthAndDay(d: Date)
    requires IsDate(d)
    ensures 1 <= d.month <= 12 && 1 <= d.day <= 31
  {
  }

  /** Printing a date and reading it back gives the date. */
  lemma DateRoundTrip(d: Date)
    requires IsDate(d) && 0 <= d.year <= 9999
    ensures IsFullDate(FullDate(d)) && DateOf(FullDate(d)) == d
  {
    var s := FullDate(d);
    MonthAndDay(d);
    FourDigits(d.year);
    TwoDigits(d.month);
    TwoDigits(d.day);
    assert DateOf(s) == d;
    assert DigitsInPlace(s);
  }

  /** Reading back the day reached after `n` days gives `n`, for every day from 1970-01-01 to 9999-12-31. */
  lemma WalkRoundTrip(n: nat)
    requires Walk(n).year <= 9999
    ensures Walk(n).year >= 0 && ParseDateToDays(FullDate(Walk(n))) == n
  {
    var d := Walk(n);
    WalkCounts(n);
    EpochIsZero();
    DaysOrderDates(d, EPOCH);
    DateRoundTrip(d);
    ParsedDateCounts(FullDate(d), n);
  }
}
