/** Contract timestamps: a fixed-width UTC form that must survive an exact calendar round trip.
    Instants are milliseconds since the start of year 1. */
module Timestamps {
  import opened Sequences
  import opened Ordering

  const DAY_MS := 86_400_000

  /** The fixed form, YYYY-MM-DDTHH:MM:SS.mmmZ; 'd' stands for a digit. */
  function TemplateAt(i: int): char {
    if i == 4 || i == 7 then '-' else if i == 10 then 'T' else if i == 13 || i == 16 then ':'
    else if i == 19 then '.' else if i == 23 then 'Z' else 'd'
  }

  predicate Matches(s: string) {
    |s| == 24 && forall i :: 0 <= i < 24 ==> if TemplateAt(i) == 'd' then '0' <= s[i] <= '9' else s[i] == TemplateAt(i)
  }

  /** The value of a run of digits. */
  function Number(s: string): int {
    if s == [] then 0 else 10 * Number(s[..|s| - 1]) + (s[|s| - 1] as int - '0' as int)
  }

  predicate LeapYear(y: int) { y % 4 == 0 && (y % 100 != 0 || y % 400 == 0) }

  function DaysInMonth(y: int, m: int): int {
    if m == 2 then (if LeapYear(y) then 29 else 28)
    else if m == 4 || m == 6 || m == 9 || m == 11 then 30 else 31
  }

  function DaysBeforeMonth(y: int, m: int): int
    decreases m
  {
    if m <= 1 then 0 else DaysBeforeMonth(y, m - 1) + DaysInMonth(y, m - 1)
  }

  function DaysBeforeYear(y: int): int { 365 * (y - 1) + (y - 1) / 4 - (y - 1) / 100 + (y - 1) / 400 }

  datatype Fields = Fields(year: int, month: int, day: int, hour: int, minute: int, second: int, milli: int) {
    predicate Valid() {
      && 1000 <= year <= 9999 && 1 <= month <= 12 && 1 <= day <= DaysInMonth(year, month)
      && 0 <= hour < 24 && 0 <= minute < 60 && 0 <= second < 60 && 0 <= milli < 1000
    }

    function DayNumber(): int { DaysBeforeYear(year) + DaysBeforeMonth(year, month) + day - 1 }

    function MilliOfDay(): int { ((hour * 60 + minute) * 60 + second) * 1000 + milli }
  }

  function FieldsOf(s: string): Fields
    requires |s| == 24
  {
    Fields(Number(s[0..4]), Number(s[5..7]), Number(s[8..10]),
           Number(s[11..13]), Number(s[14..16]), Number(s[17..19]), Number(s[20..23]))
  }

  /** The instant a timestamp names, or None where the evaluator raises `timestamp_invalid`. */
  function Parse(s: string): Option<int> {
    if Matches(s) && FieldsOf(s).Valid()
    then Some(FieldsOf(s).DayNumber() * DAY_MS + FieldsOf(s).MilliOfDay())
    else None
  }

  // ----- Calendar arithmetic is strictly monotone

  lemma {:induction false} MonthsWithinYear(y: int, m: int)
    requires 1 <= m <= 12
    decreases 12 - m
    ensures DaysBeforeMonth(y, m) + DaysInMonth(y, m) <= (if LeapYear(y) then 366 else 365)
  {
    if m == 12 {
      YearLength(y);
    } else {
      MonthsWithinYear(y, m + 1);
    }
  }

  lemma YearLength(y: int)
    ensures DaysBeforeMonth(y, 12) == if LeapYear(y) then 335 else 334
  { }

  lemma {:induction false} MonthsIncrease(y: int, m: int, n: int)
    requires 1 <= m < n <= 12
    ensures DaysBeforeMonth(y, m) + DaysInMonth(y, m) <= DaysBeforeMonth(y, n)
    decreases n
  {
    if m + 1 < n { MonthsIncrease(y, m, n - 1); }
  }

  lemma NextYear(y: int)
    ensures DaysBeforeYear(y + 1) == DaysBeforeYear(y) + (if LeapYear(y) then 366 else 365)
  {
    StepOfQuotient(y, 4);
    StepOfQuotient(y, 100);
    StepOfQuotient(y, 400);
    MultipleOfMultiple(y, 4, 25);
    MultipleOfMultiple(y, 100, 4);
  }

  lemma MultipleOfMultiple(y: int, k: int, n: int)
    requires k > 0 && n > 0
    ensures k * n > 0 && (y % (k * n) == 0 ==> y % k == 0)
  {
    MulAtLeast(k, n);
    if y % (k * n) == 0 {
      var q := y / (k * n);
      Associate(k, n, q);
      Quotient(y, k, n * q, 0);
    }
  }

  lemma Associate(a: int, b: int, c: int)
    ensures (a * b) * c == a * (b * c)
  { }

  lemma StepOfQuotient(y: int, k: int)
    requires k > 0
    ensures y / k == (y - 1) / k + (if y % k == 0 then 1 else 0)
  {
    var q, r := (y - 1) / k, (y - 1) % k;
    assert y - 1 == k * q + r;
    if r == k - 1 {
      assert y == k * (q + 1);
      Quotient(y, k, q + 1, 0);
    } else {
      assert y == k * q + (r + 1);
      Quotient(y, k, q, r + 1);
    }
  }

  lemma Quotient(n: int, k: int, q: int, r: int)
    requires k > 0 && n == k * q + r && 0 <= r < k
    ensures n / k == q && n % k == r
  {
    var q', r' := n / k, n % k;
    assert n == k * q' + r';
    assert k * (q - q') == r' - r;
    if q < q' {
      assert k * (q' - q) >= k by { assert q' - q >= 1; MulAtLeast(k, q' - q); }
    } else if q > q' {
      MulAtLeast(k, q - q');
    }
  }

  lemma MulAtLeast(k: int, n: int)
    requires k > 0 && n >= 1
    ensures k * n >= k
  { }

  lemma {:induction false} YearsIncrease(y: int, z: int)
    requires y < z
    ensures DaysBeforeYear(y) + (if LeapYear(y) then 366 else 365) <= DaysBeforeYear(z)
    decreases z - y
  {
    NextYear(y);
    if y + 1 < z { YearsIncrease(y + 1, z); }
  }

  /** Dates in calendar order have strictly increasing day numbers. */
  lemma DatesIncrease(a: Fields, b: Fields)
    requires a.Valid() && b.Valid()
    requires a.year < b.year || (a.year == b.year && (a.month < b.month || (a.month == b.month && a.day < b.day)))
    ensures a.DayNumber() < b.DayNumber()
  {
    MonthsWithinYear(a.year, a.month);
    BeforeMonthNonNegative(b.year, b.month);
    if a.year < b.year {
      YearsIncrease(a.year, b.year);
    } else if a.month < b.month {
      MonthsIncrease(a.year, a.month, b.month);
    }
  }

  lemma {:induction false} BeforeMonthNonNegative(y: int, m: int)
    ensures DaysBeforeMonth(y, m) >= 0
    decreases m
  {
    if m > 1 { BeforeMonthNonNegative(y, m - 1); }
  }

  // ----- The fixed form orders as the fields do

  predicate Digits(s: string) { forall i :: 0 <= i < |s| ==> '0' <= s[i] <= '9' }

  lemma {:induction false} NumberIncreases(s: string, t: string, k: nat)
    requires Digits(s) && Digits(t) && |s| == |t| && k < |s|
    requires s[..k] == t[..k] && s[k] < t[k]
    ensures Number(s) < Number(t)
  {
    var n := |s|;
    if k == n - 1 {
      assert s[..n - 1] == t[..n - 1];
    } else {
      assert s[..n - 1][..k] == s[..k] && t[..n - 1][..k] == t[..k];
      NumberIncreases(s[..n - 1], t[..n - 1], k);
    }
  }

  lemma {:induction false} CodePointsAt(s: string)
    ensures |CodePoints(s)| == |s| && forall i :: 0 <= i < |s| ==> CodePoints(s)[i] == s[i] as int
  {
    if s != [] { CodePointsAt(s[1..]); }
  }

  lemma SliceOfPrefix(s: string, k: nat, lo: nat, hi: nat)
    requires lo <= hi <= k <= |s|
    ensures s[lo..hi] == s[..k][lo..hi]
  { }

  lemma PrefixOfSlice(s: string, k: nat, lo: nat, hi: nat)
    requires lo <= k < hi <= |s|
    ensures s[lo..hi][..k - lo] == s[..k][lo..] && s[lo..hi][k - lo] == s[k]
  { }

  /** Either a slice is shared, or it holds the first difference and its number is smaller. */
  lemma SliceOrder(s: string, t: string, k: nat, lo: nat, hi: nat)
    requires |s| == |t| == 24 && lo < hi <= 24 && k < 24
    requires s[..k] == t[..k] && s[k] < t[k]
    requires Digits(s[lo..hi]) && Digits(t[lo..hi])
    ensures hi <= k ==> s[lo..hi] == t[lo..hi]
    ensures lo <= k < hi ==> Number(s[lo..hi]) < Number(t[lo..hi])
  {
    if hi <= k {
      SliceOfPrefix(s, k, lo, hi);
      SliceOfPrefix(t, k, lo, hi);
    } else if lo <= k {
      PrefixOfSlice(s, k, lo, hi);
      PrefixOfSlice(t, k, lo, hi);
      NumberIncreases(s[lo..hi], t[lo..hi], k - lo);
    }
  }

  lemma AllFieldDigits(s: string)
    requires Matches(s)
    ensures Digits(s[0..4]) && Digits(s[5..7]) && Digits(s[8..10]) && Digits(s[11..13])
    ensures Digits(s[14..16]) && Digits(s[17..19]) && Digits(s[20..23])
  { }

  lemma ParsedSmaller(s: string, t: string, k: nat)
    requires Parse(s).Some? && Parse(t).Some?
    requires k < 24 && s[..k] == t[..k] && s[k] < t[k]
    ensures Parse(s).value < Parse(t).value
    ensures k < 10 ==> FieldsOf(s).DayNumber() < FieldsOf(t).DayNumber()
    ensures k >= 10 ==> FieldsOf(s).DayNumber() == FieldsOf(t).DayNumber()
  {
    AllFieldDigits(s); AllFieldDigits(t);
    assert TemplateAt(k) == 'd';
    SliceOrder(s, t, k, 0, 4); SliceOrder(s, t, k, 5, 7); SliceOrder(s, t, k, 8, 10);
    SliceOrder(s, t, k, 11, 13); SliceOrder(s, t, k, 14, 16); SliceOrder(s, t, k, 17, 19);
    SliceOrder(s, t, k, 20, 23);
    var a, b := FieldsOf(s), FieldsOf(t);
    TimeOfDayBounds(a); TimeOfDayBounds(b);
    if k < 10 { DatesIncrease(a, b); }
  }

  lemma TimeOfDayBounds(f: Fields)
    requires f.Valid()
    ensures 0 <= f.MilliOfDay() < DAY_MS
  { }

  lemma {:induction false} AsciiUnits(s: string)
    requires forall i :: 0 <= i < |s| ==> s[i] as int < 0x1_0000
    ensures Utf16Key(s) == CodePoints(s)
  {
    if s != [] { AsciiUnits(s[1..]); }
  }

  lemma ParsedIsAscii(s: string)
    requires Parse(s).Some?
    ensures Utf16Key(s) == CodePoints(s)
  {
    forall i | 0 <= i < |s| ensures s[i] as int < 0x1_0000 {
      assert TemplateAt(i) as int < 0x1_0000;
    }
    AsciiUnits(s);
  }

  /** String order is time order: on accepted timestamps both string comparisons the evaluator
      uses, by UTF-16 key and by code point, order exactly as the instants do. */
  lemma StringOrderIsTimeOrder(s: string, t: string)
    requires Parse(s).Some? && Parse(t).Some?
    ensures Compare(Utf16Key(s), Utf16Key(t)) < 0 <==> Parse(s).value < Parse(t).value
    ensures TextAtMost(s, t) <==> Parse(s).value <= Parse(t).value
    ensures s == t <==> Parse(s).value == Parse(t).value
  {
    ParsedIsAscii(s); ParsedIsAscii(t);
    CodePointsAt(s); CodePointsAt(t);
    var a, b := CodePoints(s), CodePoints(t);
    CompareFlips(a, b);
    if Compare(a, b) < 0 {
      var k := FirstDifference(a, b);
      SamePrefix(s, t, k);
      ParsedSmaller(s, t, k);
    } else if Compare(b, a) < 0 {
      var k := FirstDifference(b, a);
      SamePrefix(t, s, k);
      ParsedSmaller(t, s, k);
    } else {
      CodePointsInjective(s, t);
    }
  }

  lemma CodePointsInjective(s: string, t: string)
    ensures CodePoints(s) == CodePoints(t) <==> s == t
  {
    CodePointsAt(s); CodePointsAt(t);
    if CodePoints(s) == CodePoints(t) {
      forall i | 0 <= i < |s| ensures s[i] == t[i] {
        assert s[i] as int == CodePoints(s)[i] == t[i] as int;
      }
    }
  }

  lemma SamePrefix(s: string, t: string, k: nat)
    requires |s| == |t| && k < |s| && |CodePoints(s)| == |s| && |CodePoints(t)| == |t|
    requires CodePoints(s)[..k] == CodePoints(t)[..k]
    ensures s[..k] == t[..k]
  {
    CodePointsAt(s); CodePointsAt(t);
    forall i | 0 <= i < k ensures s[i] == t[i] {
      assert CodePoints(s)[..k][i] == CodePoints(t)[..k][i];
    }
  }

  // ----- Dates

  const MIDNIGHT := "T00:00:00.000Z"

  /** Some accepted timestamp falls on the date. */
  predicate Datable(date: string) { |date| == 10 && Parse(date + MIDNIGHT).Some? }

  lemma PrefixCodePoints(s: string, k: nat)
    requires k <= |s|
    ensures |CodePoints(s)| == |s| && CodePoints(s[..k]) == CodePoints(s)[..k]
  {
    CodePointsAt(s);
    CodePointsAt(s[..k]);
  }

  lemma AppendCodePoints(s: string, t: string)
    ensures CodePoints(s + t) == CodePoints(s) + CodePoints(t)
  {
    CodePointsAt(s);
    CodePointsAt(t);
    CodePointsAt(s + t);
  }

  /** Dates, compared as strings, follow the instants. */
  lemma DatesFollowInstants(s: string, t: string)
    requires Parse(s).Some? && Parse(t).Some? && Parse(s).value <= Parse(t).value
    ensures TextAtMost(s[..10], t[..10])
  {
    StringOrderIsTimeOrder(s, t);
    PrefixCodePoints(s, 10);
    PrefixCodePoints(t, 10);
    ComparePrefix(CodePoints(s), CodePoints(t), 10);
  }

  /** And the midnights of dates follow the dates. */
  lemma MidnightsFollowDates(d: string, e: string)
    requires Datable(d) && Datable(e) && TextAtMost(d, e)
    ensures Parse(d + MIDNIGHT).value <= Parse(e + MIDNIGHT).value
  {
    AppendCodePoints(d, MIDNIGHT);
    AppendCodePoints(e, MIDNIGHT);
    CodePointsAt(d);
    CodePointsAt(e);
    CompareAppend(CodePoints(d), CodePoints(e), CodePoints(MIDNIGHT));
    StringOrderIsTimeOrder(d + MIDNIGHT, e + MIDNIGHT);
  }

  lemma {:induction false} Zeros(s: string)
    requires forall i :: 0 <= i < |s| ==> s[i] == '0'
    ensures Number(s) == 0
  {
    if s != [] { Zeros(s[..|s| - 1]); }
  }

  lemma MidnightMatches(s: string)
    requires Matches(s)
    ensures Matches(s[..10] + MIDNIGHT)
  { }

  lemma MidnightFields(s: string)
    requires |s| == 24
    ensures var f := FieldsOf(s); FieldsOf(s[..10] + MIDNIGHT) == Fields(f.year, f.month, f.day, 0, 0, 0, 0)
  {
    var t := s[..10] + MIDNIGHT;
    assert t[0..4] == s[0..4] && t[5..7] == s[5..7] && t[8..10] == s[8..10];
    MidnightDigits(t);
    ZerosBetween(t, 11, 13);
    ZerosBetween(t, 14, 16);
    ZerosBetween(t, 17, 19);
    ZerosBetween(t, 20, 23);
  }

  lemma MidnightDigits(t: string)
    requires |t| == 24 && t[10..] == MIDNIGHT
    ensures t[11] == t[12] == t[14] == t[15] == t[17] == t[18] == t[20] == t[21] == t[22] == '0'
  {
    assert t[11] == t[10..][1] && t[12] == t[10..][2] && t[14] == t[10..][4] && t[15] == t[10..][5];
    assert t[17] == t[10..][7] && t[18] == t[10..][8];
    assert t[20] == t[10..][10] && t[21] == t[10..][11] && t[22] == t[10..][12];
  }

  lemma ZerosBetween(t: string, lo: nat, hi: nat)
    requires lo <= hi <= |t| && forall i :: lo <= i < hi ==> t[i] == '0'
    ensures Number(t[lo..hi]) == 0
  {
    Zeros(t[lo..hi]);
  }

  /** Every accepted timestamp falls on a date that has a midnight. */
  lemma DateOfTimestamp(s: string)
    requires Parse(s).Some?
    ensures Datable(s[..10])
  {
    MidnightMatches(s);
    MidnightFields(s);
  }

  /** The ten-character date prefix is the UTC day: metrics that group by `occurred_at[:10]`
      group by elapsed UTC day. */
  lemma DatePrefixIsDay(s: string, t: string)
    requires Parse(s).Some? && Parse(t).Some?
    ensures s[..10] == t[..10] <==> Parse(s).value / DAY_MS == Parse(t).value / DAY_MS
  {
    DayOf(s); DayOf(t);
    if s != t {
      CodePointsAt(s); CodePointsAt(t);
      var a, b := CodePoints(s), CodePoints(t);
      CompareFlips(a, b);
      CodePointsInjective(s, t);
      if Compare(a, b) < 0 {
        var k := FirstDifference(a, b);
        SamePrefix(s, t, k);
        ParsedSmaller(s, t, k);
        PrefixSplit(s, t, k);
      } else {
        var k := FirstDifference(b, a);
        SamePrefix(t, s, k);
        ParsedSmaller(t, s, k);
        PrefixSplit(t, s, k);
      }
    }
  }

  lemma PrefixSplit(s: string, t: string, k: nat)
    requires |s| == |t| == 24 && k < 24 && s[..k] == t[..k] && s[k] != t[k]
    ensures s[..10] == t[..10] <==> k >= 10
  { }

  lemma DayOf(s: string)
    requires Parse(s).Some?
    ensures Parse(s).value / DAY_MS == FieldsOf(s).DayNumber()
  {
    TimeOfDayBounds(FieldsOf(s));
    Quotient(Parse(s).value, DAY_MS, FieldsOf(s).DayNumber(), FieldsOf(s).MilliOfDay());
  }

  // ----- Every instant of the years 1000 to 9999 has its text

  lemma YearOf(d: int, lo: int, hi: int) returns (y: int)
    requires lo < hi && DaysBeforeYear(lo) <= d < DaysBeforeYear(hi)
    ensures lo <= y < hi && DaysBeforeYear(y) <= d < DaysBeforeYear(y + 1)
    decreases hi - lo
  {
    if d < DaysBeforeYear(lo + 1) {
      y := lo;
    } else {
      assert lo + 1 < hi;
      y := YearOf(d, lo + 1, hi);
    }
  }

  lemma MonthOf(y: int, d: int, from: int) returns (m: int)
    requires 1 <= from <= 12 && DaysBeforeMonth(y, from) <= d < (if LeapYear(y) then 366 else 365)
    ensures from <= m <= 12 && DaysBeforeMonth(y, m) <= d < DaysBeforeMonth(y, m) + DaysInMonth(y, m)
    decreases 12 - from
  {
    YearLength(y);
    if d < DaysBeforeMonth(y, from) + DaysInMonth(y, from) { m := from; } else { m := MonthOf(y, d, from + 1); }
  }

  lemma DateFor(d: int) returns (y: int, m: int, day: int)
    requires 364_877 <= d < 3_652_059
    ensures 1000 <= y <= 9999 && 1 <= m <= 12 && 1 <= day <= DaysInMonth(y, m)
    ensures d == DaysBeforeYear(y) + DaysBeforeMonth(y, m) + day - 1
  {
    y := YearOf(d, 1000, 10000);
    NextYear(y);
    var rest := d - DaysBeforeYear(y);
    m := MonthOf(y, rest, 1);
    day := rest - DaysBeforeMonth(y, m) + 1;
  }

  lemma Carry(n: nat, k: nat) returns (high: nat, low: nat)
    requires k > 0
    ensures n == high * k + low && low < k
  {
    high, low := n / k, n % k;
  }

  lemma TimeFor(milli: nat) returns (hour: nat, minute: nat, second: nat, rest: nat)
    requires milli < DAY_MS
    ensures hour < 24 && minute < 60 && second < 60 && rest < 1000
    ensures milli == ((hour * 60 + minute) * 60 + second) * 1000 + rest
  {
    var seconds, minutes;
    seconds, rest := Carry(milli, 1000);
    minutes, second := Carry(seconds, 60);
    hour, minute := Carry(minutes, 60);
  }

  /** The fields of an instant, given by its day and the milliseconds since midnight. */
  lemma FieldsFor(d: int, milli: int) returns (f: Fields)
    requires 364_877 <= d < 3_652_059 && 0 <= milli < DAY_MS
    ensures f.Valid() && f.DayNumber() == d && f.MilliOfDay() == milli
  {
    var y, m, day := DateFor(d);
    var hour, minute, second, rest := TimeFor(milli);
    f := Fields(y, m, day, hour, minute, second, rest);
  }

  function Digit(n: int): char
    requires 0 <= n < 10
  {
    ('0' as int + n) as char
  }

  lemma OneMoreDigit(front: string, n: nat)
    requires Digits(front) && n < 10
    ensures Digits(front + [Digit(n)]) && Number(front + [Digit(n)]) == 10 * Number(front) + n
  {
    assert (front + [Digit(n)])[..|front|] == front;
  }

  /** The text is the decimal form of n, of that width. */
  ghost predicate Writes(s: string, n: int, width: nat) { |s| == width && Digits(s) && Number(s) == n }

  lemma Longer(front: string, n: nat, width: nat) returns (s: string)
    requires Writes(front, n / 10, width)
    ensures Writes(s, n, width + 1)
  {
    OneMoreDigit(front, n % 10);
    s := front + [Digit(n % 10)];
  }

  lemma TwoDigits(n: nat) returns (s: string)
    requires n < 100
    ensures Writes(s, n, 2)
  {
    OneMoreDigit("", n / 10);
    assert "" + [Digit(n / 10)] == [Digit(n / 10)];
    s := Longer([Digit(n / 10)], n, 1);
  }

  lemma ThreeDigits(n: nat) returns (s: string)
    requires n < 1000
    ensures Writes(s, n, 3)
  {
    var front := TwoDigits(n / 10);
    s := Longer(front, n, 2);
  }

  lemma FourDigits(n: nat) returns (s: string)
    requires n < 10000
    ensures Writes(s, n, 4)
  {
    var front := ThreeDigits(n / 10);
    s := Longer(front, n, 3);
  }

  /** The digits and the separators of a date are where the template has them. */
  ghost predicate IsDate(t: string) {
    |t| == 10 && Digits(t[0..4]) && Digits(t[5..7]) && Digits(t[8..10]) && t[4] == t[7] == '-'
  }

  ghost predicate IsTime(t: string) {
    && |t| == 12 && Digits(t[0..2]) && Digits(t[3..5]) && Digits(t[6..8]) && Digits(t[9..12])
    && t[2] == t[5] == ':' && t[8] == '.'
  }

  lemma DateIsRead(f: Fields) returns (t: string)
    requires f.Valid()
    ensures IsDate(t) && Number(t[0..4]) == f.year && Number(t[5..7]) == f.month && Number(t[8..10]) == f.day
  {
    var year := FourDigits(f.year);
    var month := TwoDigits(f.month);
    var day := TwoDigits(f.day);
    t := year + "-" + month + "-" + day;
    DateParts(year, month, day);
  }

  lemma DateParts(year: string, month: string, day: string)
    requires |year| == 4 && |month| == |day| == 2
    ensures var t := year + "-" + month + "-" + day;
      && |t| == 10 && t[4] == t[7] == '-' && t[0..4] == year && t[5..7] == month && t[8..10] == day
  { }

  lemma TimeIsRead(f: Fields) returns (t: string)
    requires f.Valid()
    ensures IsTime(t) && Number(t[0..2]) == f.hour && Number(t[3..5]) == f.minute && Number(t[6..8]) == f.second
    ensures Number(t[9..12]) == f.milli
  {
    var hour := TwoDigits(f.hour);
    var minute := TwoDigits(f.minute);
    var second := TwoDigits(f.second);
    var milli := ThreeDigits(f.milli);
    t := hour + ":" + minute + ":" + second + "." + milli;
    TimeParts(hour, minute, second, milli);
  }

  lemma TimeParts(hour: string, minute: string, second: string, milli: string)
    requires |hour| == |minute| == |second| == 2 && |milli| == 3
    ensures var t := hour + ":" + minute + ":" + second + "." + milli;
      && |t| == 12 && t[2] == t[5] == ':' && t[8] == '.'
      && t[0..2] == hour && t[3..5] == minute && t[6..8] == second && t[9..12] == milli
  { }

  lemma DigitAt(s: string, lo: nat, hi: nat, i: nat)
    requires lo <= i < hi <= |s| && Digits(s[lo..hi])
    ensures '0' <= s[i] <= '9'
  {
    assert s[i] == s[lo..hi][i - lo];
  }

  lemma DateMatches(t: string, i: nat)
    requires IsDate(t) && i < 10
    ensures if TemplateAt(i) == 'd' then '0' <= t[i] <= '9' else t[i] == TemplateAt(i)
  {
    if i < 4 { DigitAt(t, 0, 4, i); }
    else if 5 <= i < 7 { DigitAt(t, 5, 7, i); } else if 8 <= i { DigitAt(t, 8, 10, i); }
  }

  lemma TimeMatches(t: string, i: nat)
    requires IsTime(t) && i < 12
    ensures if TemplateAt(i + 11) == 'd' then '0' <= t[i] <= '9' else t[i] == TemplateAt(i + 11)
  {
    if i < 2 { DigitAt(t, 0, 2, i); } else if 3 <= i < 5 { DigitAt(t, 3, 5, i); }
    else if 6 <= i < 8 { DigitAt(t, 6, 8, i); } else if 9 <= i { DigitAt(t, 9, 12, i); }
  }

  lemma Joined(date: string, time: string) returns (s: string)
    requires IsDate(date) && IsTime(time)
    ensures Matches(s) && s[0..10] == date && s[11..23] == time
  {
    s := date + "T" + time + "Z";
    forall i | 0 <= i < 24
      ensures if TemplateAt(i) == 'd' then '0' <= s[i] <= '9' else s[i] == TemplateAt(i)
    {
      if i < 10 { DateMatches(date, i); } else if 11 <= i < 23 { TimeMatches(time, i - 11); }
    }
  }

  lemma PartsOf(s: string, date: string, time: string)
    requires |s| == 24 && s[0..10] == date && s[11..23] == time
    ensures s[0..4] == date[0..4] && s[5..7] == date[5..7] && s[8..10] == date[8..10]
    ensures s[11..13] == time[0..2] && s[14..16] == time[3..5] && s[17..19] == time[6..8] && s[20..23] == time[9..12]
  {
    SliceOfSlice(s, 0, 10, 0, 4); SliceOfSlice(s, 0, 10, 5, 7); SliceOfSlice(s, 0, 10, 8, 10);
    SliceOfSlice(s, 11, 23, 0, 2); SliceOfSlice(s, 11, 23, 3, 5); SliceOfSlice(s, 11, 23, 6, 8);
    SliceOfSlice(s, 11, 23, 9, 12);
  }

  lemma SliceOfSlice(s: string, lo: nat, hi: nat, a: nat, b: nat)
    requires lo <= hi <= |s| && a <= b <= hi - lo
    ensures s[lo + a..lo + b] == s[lo..hi][a..b]
  {
    forall i | 0 <= i < b - a ensures s[lo + a..lo + b][i] == s[lo..hi][a..b][i] { }
  }

  lemma TextIsRead(f: Fields) returns (s: string)
    requires f.Valid()
    ensures Matches(s) && FieldsOf(s) == f
  {
    var date := DateIsRead(f);
    var time := TimeIsRead(f);
    s := Joined(date, time);
    PartsOf(s, date, time);
  }

  lemma TextFor(d: int, milli: int) returns (s: string)
    requires 364_877 <= d < 3_652_059 && 0 <= milli < DAY_MS
    ensures Parse(s) == Some(d * DAY_MS + milli)
  {
    var f := FieldsFor(d, milli);
    s := TextIsRead(f);
  }

  lemma DayBounds(n: int, d: int, milli: int)
    requires n == d * DAY_MS + milli && 0 <= milli < DAY_MS
    ensures 364_877 * DAY_MS <= n < 3_652_059 * DAY_MS <==> 364_877 <= d < 3_652_059
  { }

  /** The accepted timestamps name every millisecond of the years 1000 to 9999, and no other instant. */
  lemma TimestampsNameInstants(n: int)
    ensures (exists s :: Parse(s) == Some(n)) <==> 364_877 * DAY_MS <= n < 3_652_059 * DAY_MS
  {
    if 364_877 * DAY_MS <= n < 3_652_059 * DAY_MS {
      var d, milli := Carry(n, DAY_MS);
      DayBounds(n, d, milli);
      var s := TextFor(d, milli);
    }
    if s :| Parse(s) == Some(n) {
      NamedWithin(FieldsOf(s));
      DayBounds(n, FieldsOf(s).DayNumber(), FieldsOf(s).MilliOfDay());
    }
  }

  lemma NamedWithin(f: Fields)
    requires f.Valid()
    ensures 364_877 <= f.DayNumber() < 3_652_059 && 0 <= f.MilliOfDay() < DAY_MS
  {
    BeforeMonthNonNegative(f.year, f.month);
    MonthsWithinYear(f.year, f.month);
    if f.year > 1000 { YearsIncrease(1000, f.year); }
    YearsIncrease(f.year, 10000);
  }

  /** How they are written: year, month and day, hour, minute, second and millisecond, each in digits. */
  lemma TimestampsAreWritten(s: string)
    requires Parse(s).Some?
    ensures |s| == 24 && s == s[0..10] + "T" + s[11..23] + "Z"
    ensures s[0..10] == s[0..4] + "-" + s[5..7] + "-" + s[8..10]
    ensures s[11..23] == s[11..13] + ":" + s[14..16] + ":" + s[17..19] + "." + s[20..23]
    ensures Digits(s[0..4]) && Digits(s[5..7]) && Digits(s[8..10]) && Digits(s[11..13])
    ensures Digits(s[14..16]) && Digits(s[17..19]) && Digits(s[20..23])
  {
    AllFieldDigits(s);
    assert s[10] == 'T' && s[23] == 'Z' && s[4] == s[7] == '-' && s[13] == s[16] == ':' && s[19] == '.';
  }
}
