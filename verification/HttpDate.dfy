// HTTP dates (hemi_fixtures.go:77-336): the parser of the three formats of section 5.6.7 of RFC 9110, the
// writer, and the clock that keeps the current date packed in one word.

module HttpDate {
  import opened Bytes

  // ----- The calendar -----

  datatype Instant = Instant(year: nat, month: nat, day: nat, hour: nat, minute: nat, second: nat)

  predicate Leap(year: nat) {
    year % 4 == 0 && (year % 100 != 0 || year % 400 == 0)
  }

  function YearDays(year: nat): nat {
    if Leap(year) then 366 else 365
  }

  function MonthDays(year: nat, month: nat): nat
    requires 1 <= month <= 12
  {
    if month == 2 then (if Leap(year) then 29 else 28)
    else if month == 4 || month == 6 || month == 9 || month == 11 then 30
    else 31
  }

  /** The days before a year, counted year by year. */
  function DaysToYear(year: nat): nat {
    if year == 0 then 0 else DaysToYear(year - 1) + YearDays(year - 1)
  }

  /** The days of a year before a month, counted month by month. */
  function DaysToMonth(year: nat, month: nat): nat
    requires 1 <= month <= 12
  {
    if month == 1 then 0 else DaysToMonth(year, month - 1) + MonthDays(year, month - 1)
  }

  /** The seconds since 1970, by counting days. */
  function Seconds(t: Instant): int
    requires 1 <= t.month <= 12
  {
    var days := DaysToYear(t.year) + DaysToMonth(t.year, t.month) + t.day - 1 - DaysToYear(1970);
    days * 86400 + t.hour * 3600 + t.minute * 60 + t.second
  }

  /** What a date says of the time of day and of its month; the parser takes a day 0 too. */
  predicate Plausible(t: Instant) {
    && t.year <= 9999 && 1 <= t.month <= 12 && t.day <= MonthDays(t.year, t.month)
    && t.hour <= 23 && t.minute <= 59 && t.second <= 59
  }

  predicate Valid(t: Instant) {
    Plausible(t) && t.day >= 1
  }

  /** Leap years are counted in one step. */
  lemma {:induction false} DaysToYearIs(year: nat)
    ensures DaysToYear(year) ==
      if year == 0 then 0 else (year - 1) / 4 - (year - 1) / 100 + (year - 1) / 400 + 1 + year * 365
  {
    if year > 1 {
      DaysToYearIs(year - 1);
      LeapCounts(year - 1);
    }
  }

  lemma LeapCounts(y: nat)
    requires y > 0
    ensures y / 4 - y / 100 + y / 400 == (y - 1) / 4 - (y - 1) / 100 + (y - 1) / 400 + if Leap(y) then 1 else 0
  {
    assert y / 4 == (y - 1) / 4 + if y % 4 == 0 then 1 else 0;
    assert y / 100 == (y - 1) / 100 + if y % 100 == 0 then 1 else 0;
    assert y / 400 == (y - 1) / 400 + if y % 400 == 0 then 1 else 0;
    assert y % 100 == 0 ==> y % 4 == 0;
    assert y % 400 == 0 ==> y % 100 == 0;
  }

  lemma DaysToMonthIs(year: nat, month: nat)
    requires 1 <= month <= 12
    ensures DaysToMonth(year, month) == [0, 31, 59, 90, 120, 151, 181, 212, 243, 273, 304, 334][month - 1] +
      if Leap(year) && month > 2 then 1 else 0
  {
    var m1, m2, m3 := DaysToMonth(year, 1), DaysToMonth(year, 2), DaysToMonth(year, 3);
    assert m1 == 0 && m2 == 31 && m3 == m2 + MonthDays(year, 2);
    var m4, m5, m6 := DaysToMonth(year, 4), DaysToMonth(year, 5), DaysToMonth(year, 6);
    assert m4 == m3 + 31 && m5 == m4 + 30 && m6 == m5 + 31;
    var m7, m8, m9 := DaysToMonth(year, 7), DaysToMonth(year, 8), DaysToMonth(year, 9);
    assert m7 == m6 + 30 && m8 == m7 + 31 && m9 == m8 + 31;
    var m10, m11, m12 := DaysToMonth(year, 10), DaysToMonth(year, 11), DaysToMonth(year, 12);
    assert m10 == m9 + 30 && m11 == m10 + 31 && m12 == m11 + 30;
  }

  lemma {:induction false} YearsGrow(y: nat, z: nat)
    requires y < z
    ensures DaysToYear(y) + YearDays(y) <= DaysToYear(z)
    decreases z
  {
    if y + 1 < z {
      YearsGrow(y, z - 1);
    }
  }

  lemma {:induction false} MonthsGrow(year: nat, m: nat, n: nat)
    requires 1 <= m < n <= 12
    ensures DaysToMonth(year, m) + MonthDays(year, m) <= DaysToMonth(year, n)
    decreases n
  {
    if m + 1 < n {
      MonthsGrow(year, m, n - 1);
    }
  }

  lemma MonthInYear(year: nat, m: nat)
    requires 1 <= m <= 12
    ensures DaysToMonth(year, m) + MonthDays(year, m) <= YearDays(year)
  {
    DaysToMonthIs(year, 12);
    if m < 12 {
      MonthsGrow(year, m, 12);
    }
  }

  /** Comes before, by comparing year, month, day and time of day. */
  predicate Before(a: Instant, b: Instant) {
    || a.year < b.year
    || (a.year == b.year && a.month < b.month)
    || (a.year == b.year && a.month == b.month && a.day < b.day)
    || (a.year == b.year && a.month == b.month && a.day == b.day &&
         a.hour * 3600 + a.minute * 60 + a.second < b.hour * 3600 + b.minute * 60 + b.second)
  }

  /** Seconds keep the order of dates, so no two dates have the same number. */
  lemma SecondsInOrder(a: Instant, b: Instant)
    requires Valid(a) && Valid(b) && Before(a, b)
    ensures Seconds(a) < Seconds(b)
  {
    if a.year < b.year {
      YearsGrow(a.year, b.year);
      MonthInYear(a.year, a.month);
    } else if a.month < b.month {
      MonthsGrow(a.year, a.month, b.month);
    }
    hide DaysToYear, DaysToMonth, MonthDays, YearDays;
  }

  // ----- The texts of a date -----

  /** The digit of n that stands for that power of ten. */
  function Digit(n: nat, power: nat): (d: byte)
    requires power > 0
    ensures 48 <= d <= 57
  {
    48 + n / power % 10
  }

  function MonthName(month: nat): (t: seq<byte>)
    requires 1 <= month <= 12
    ensures |t| == 3
  {
    MONTH_NAMES[month - 1]
  }

  /** Jan, Feb, Mar, Apr, May, Jun, Jul, Aug, Sep, Oct, Nov, Dec */
  const MONTH_NAMES: seq<seq<byte>> := [
    [74, 97, 110], [70, 101, 98], [77, 97, 114], [65, 112, 114], [77, 97, 121], [74, 117, 110],
    [74, 117, 108], [65, 117, 103], [83, 101, 112], [79, 99, 116], [78, 111, 118], [68, 101, 99]]

  function Clock(t: Instant): (c: seq<byte>)
    ensures |c| == 8
  {
    [Digit(t.hour, 10), Digit(t.hour, 1), COLON, Digit(t.minute, 10), Digit(t.minute, 1), COLON,
     Digit(t.second, 10), Digit(t.second, 1)]
  }

  function Day(day: nat): seq<byte> {
    [Digit(day, 10), Digit(day, 1)]
  }

  function Year(year: nat): seq<byte> {
    [Digit(year, 1000), Digit(year, 100), Digit(year, 10), Digit(year, 1)]
  }

  datatype Format = Fixed | Rfc850 | Asctime

  /** The day names that stand before the rest of a date; they are not looked at. */
  predicate NameFits(f: Format, name: seq<byte>) {
    match f
    case Fixed => |name| == 5
    case Rfc850 => 7 <= |name| <= 10 && SP !in name
    case Asctime => |name| == 4
  }

  predicate YearFits(f: Format, year: nat) {
    if f.Rfc850? then 1970 <= year <= 2069 else year <= 9999
  }

  const DASH: byte := 45

  const GMT: seq<byte> := [SP, 71, 77, 84]

  /** The text of an instant; in the last format a day below 10 may have a space for its first digit. */
  function DateText(f: Format, name: seq<byte>, t: Instant, spaced: bool): seq<byte>
    requires Plausible(t)
  {
    match f
    case Fixed => name + Day(t.day) + [SP] + MonthName(t.month) + [SP] + Year(t.year) + [SP] + Clock(t) + GMT
    case Rfc850 =>
      name + [SP] + Day(t.day) + [DASH] + MonthName(t.month) + [DASH] + [Digit(t.year, 10), Digit(t.year, 1)] + [SP] +
        Clock(t) + GMT
    case Asctime =>
      name + MonthName(t.month) + [SP] +
      (if spaced && t.day < 10 then [SP, 48 + t.day] else Day(t.day)) + [SP] + Clock(t) + [SP] + Year(t.year)
  }

  // ----- Reading a date -----

  predicate IsDigit(b: byte) { 48 <= b <= 57 }

  predicate IsTwo(a: byte, b: byte) { IsDigit(a) && IsDigit(b) }

  function TwoOf(a: byte, b: byte): (n: nat)
    requires IsTwo(a, b)
    ensures n < 100
  {
    (a - 48) * 10 + (b - 48)
  }

  /** The number of a month name, or 0. */
  function MonthNo(name: seq<byte>): (m: nat)
    ensures m <= 12
    ensures m >= 1 ==> name == MonthName(m)
  {
    MonthFrom(name, 1)
  }

  function MonthFrom(name: seq<byte>, m: nat): (n: nat)
    requires 1 <= m <= 13
    ensures n <= 12 && (n >= 1 ==> m <= n && name == MonthName(n))
    ensures n == 0 ==> forall k | m <= k <= 12 :: name != MonthName(k)
    decreases 13 - m
  {
    if m == 13 then 0 else if name == MonthName(m) then m else MonthFrom(name, m + 1)
  }

  /** Where the parts of a date stand: day, month, year, its digits, and hour. */
  datatype Layout = Layout(day: nat, month: nat, year: nat, yearDigits: nat, hour: nat, dash: byte) | NoLayout

  function LayoutOf(date: seq<byte>): (l: Layout)
    ensures l.Layout? ==>
      l.hour + 8 + (if |date| == 24 then 0 else 3) < |date| && l.day + 3 <= |date| && l.month + 4 <= |date|
    ensures l.Layout? ==> l.year + l.yearDigits <= |date|
    ensures l.Layout? ==> l.hour >= 1 && (l.yearDigits == 2 || l.yearDigits == 4)
  {
    if |date| == 29 then Layout(5, 8, 12, 4, 17, SP)
    else if 30 <= |date| <= 33 then
      var k := FirstSpace(date, 0);
      if |date| - k == 23 then Layout(k + 1, k + 4, k + 8, 2, k + 11, DASH) else NoLayout
    else if |date| == 24 then Layout(8, 4, 20, 4, 11, SP)
    else NoLayout
  }

  function FirstSpace(date: seq<byte>, k: nat): (n: nat)
    requires k <= |date|
    ensures k <= n <= |date| && (n < |date| ==> date[n] == SP) && forall j | k <= j < n :: date[j] != SP
    decreases |date| - k
  {
    if k == |date| || date[k] == SP then k else FirstSpace(date, k + 1)
  }

  datatype Reading = Instantly(t: Instant) | Unreadable

  /** Every part is there, and what stands between them and behind them. */
  predicate WellFormed(date: seq<byte>, l: Layout)
    requires l.Layout? && l == LayoutOf(date)
  {
    var h := l.hour;
    && IsTwo(FirstOfDay(date, l), date[l.day + 1]) && MonthNo(date[l.month..l.month + 3]) != 0
    && IsTwo(date[l.year], date[l.year + 1]) && (l.yearDigits == 4 ==> IsTwo(date[l.year + 2], date[l.year + 3]))
    && IsTwo(date[h], date[h + 1]) && IsTwo(date[h + 3], date[h + 4]) && IsTwo(date[h + 6], date[h + 7])
    && (|date| != 24 ==> date[l.day + 2] == l.dash && date[h + 9] == 71 && date[h + 10] == 77 && date[h + 11] == 84)
    && date[l.month + 3] == l.dash && date[h - 1] == SP
    && date[h + 2] == COLON && date[h + 5] == COLON && date[h + 8] == SP
  }

  /** In the shortest format a space may stand for the first digit of the day. */
  function FirstOfDay(date: seq<byte>, l: Layout): byte
    requires l.Layout? && l == LayoutOf(date)
  {
    if |date| == 24 && date[l.day] == SP then 48 else date[l.day]
  }

  function YearOf(date: seq<byte>, l: Layout): nat
    requires l.Layout? && l == LayoutOf(date) && WellFormed(date, l)
  {
    var century := TwoOf(date[l.year], date[l.year + 1]);
    if l.yearDigits == 4 then century * 100 + TwoOf(date[l.year + 2], date[l.year + 3])
    else if century < 70 then 2000 + century else 1900 + century
  }

  function InstantOf(date: seq<byte>, l: Layout): Instant
    requires l.Layout? && l == LayoutOf(date) && WellFormed(date, l)
  {
    var h := l.hour;
    Instant(YearOf(date, l), MonthNo(date[l.month..l.month + 3]), TwoOf(FirstOfDay(date, l), date[l.day + 1]),
            TwoOf(date[h], date[h + 1]), TwoOf(date[h + 3], date[h + 4]), TwoOf(date[h + 6], date[h + 7]))
  }

  function Read(date: seq<byte>): Reading {
    var l := LayoutOf(date);
    if l.Layout? && WellFormed(date, l) && Plausible(InstantOf(date, l)) then Instantly(InstantOf(date, l))
    else Unreadable
  }

  lemma MonthRead(m: nat)
    requires 1 <= m <= 12
    ensures MonthNo(MonthName(m)) == m
  {
    NamesDiffer(m);
    MonthFound(MonthName(m), m, 1);
  }

  lemma {:induction false} MonthFound(name: seq<byte>, m: nat, k: nat)
    requires 1 <= k <= m <= 12 && name == MonthName(m) && forall j | 1 <= j < m :: MonthName(j) != name
    ensures MonthFrom(name, k) == m
    decreases m - k
  {
    if k < m {
      MonthFound(name, m, k + 1);
    }
  }

  /** The letters of a month, as a number. */
  function Letters(m: nat): nat
    requires 1 <= m <= 12
  {
    MonthName(m)[0] as int * 0x1_0000 + MonthName(m)[1] as int * 0x100 + MonthName(m)[2] as int
  }

  lemma NamesDiffer(m: nat)
    requires 1 <= m <= 12
    ensures forall j | 1 <= j < m :: MonthName(j) != MonthName(m)
  {
    forall j | 1 <= j < m
      ensures Letters(j) != Letters(m)
    {
    }
  }

  lemma {:induction false} SpaceFound(date: seq<byte>, k: nat, n: nat)
    requires k <= n < |date| && date[n] == SP && forall j | k <= j < n :: date[j] != SP
    ensures FirstSpace(date, k) == n
    decreases n - k
  {
    if k < n {
      SpaceFound(date, k + 1, n);
    }
  }

  lemma TwoDigits(n: nat)
    requires n < 100
    ensures TwoOf(Digit(n, 10), Digit(n, 1)) == n
  {
  }

  lemma LastTwo(n: nat)
    ensures TwoOf(Digit(n, 10), Digit(n, 1)) == n % 100
  {
    var q := n / 10;
    Hundreds(n, q / 10, q % 10 * 10 + n % 10);
  }

  lemma Hundreds(n: nat, a: nat, m: nat)
    requires n == a * 100 + m && m < 100
    ensures n % 100 == m
  {
  }

  lemma FourDigits(n: nat)
    requires n < 10000
    ensures TwoOf(Digit(n, 1000), Digit(n, 100)) * 100 + TwoOf(Digit(n, 10), Digit(n, 1)) == n
  {
    var q := n / 100;
    assert Digit(n, 1000) == Digit(q, 10) by {
      assert n / 1000 == q / 10;
    }
    assert Digit(n, 100) == Digit(q, 1);
    TwoDigits(q);
    LastTwo(n);
    hide Digit, TwoOf;
    assert n == q * 100 + n % 100;
  }

  lemma TimeRead(t: Instant)
    requires Plausible(t)
    ensures TwoOf(Digit(t.day, 10), Digit(t.day, 1)) == t.day && TwoOf(Digit(t.hour, 10), Digit(t.hour, 1)) == t.hour
    ensures TwoOf(Digit(t.minute, 10), Digit(t.minute, 1)) == t.minute
    ensures TwoOf(Digit(t.second, 10), Digit(t.second, 1)) == t.second
    ensures TwoOf(Digit(t.year, 1000), Digit(t.year, 100)) * 100 + TwoOf(Digit(t.year, 10), Digit(t.year, 1)) == t.year
    ensures TwoOf(Digit(t.year, 10), Digit(t.year, 1)) == t.year % 100
    ensures t.day < 10 ==> 48 + t.day == Digit(t.day, 1) && Digit(t.day, 10) == 48
  {
    hide Digit, TwoOf;
    TwoDigits(t.day);
    TwoDigits(t.hour);
    TwoDigits(t.minute);
    TwoDigits(t.second);
    FourDigits(t.year);
    LastTwo(t.year);
    OneDigit(t.day);
  }

  lemma OneDigit(n: nat)
    requires n < 100
    ensures n < 10 ==> 48 + n == Digit(n, 1) && Digit(n, 10) == 48
  {
  }

  lemma FixedRead(name: seq<byte>, t: Instant)
    requires NameFits(Fixed, name) && Plausible(t)
    ensures Read(DateText(Fixed, name, t, false)) == Instantly(t)
  {
    hide MonthName, Digit, TwoOf, MonthNo;
    TimeRead(t);
    MonthRead(t.month);
    var date := DateText(Fixed, name, t, false);
    assert date[8..11] == MonthName(t.month);
  }

  lemma AsctimeRead(name: seq<byte>, t: Instant, spaced: bool)
    requires NameFits(Asctime, name) && Plausible(t)
    ensures Read(DateText(Asctime, name, t, spaced)) == Instantly(t)
  {
    hide MonthName, Digit, TwoOf, MonthNo;
    TimeRead(t);
    MonthRead(t.month);
    var date := DateText(Asctime, name, t, spaced);
    assert date[4..7] == MonthName(t.month);
  }

  /** What stands behind the day name in the second format. */
  ghost predicate Rfc850Rest(v: seq<byte>, t: Instant)
    requires Plausible(t)
  {
    && |v| == 23 && v[0] == SP && v[1..3] == Day(t.day) && v[3] == DASH && v[4..7] == MonthName(t.month)
    && v[7] == DASH && v[8..10] == [Digit(t.year, 10), Digit(t.year, 1)] && v[10] == SP && v[11..19] == Clock(t) &&
         v[19..] == GMT
  }

  lemma Rfc850Read(name: seq<byte>, t: Instant)
    requires NameFits(Rfc850, name) && Plausible(t) && 1970 <= t.year <= 2069
    ensures Read(DateText(Rfc850, name, t, false)) == Instantly(t)
  {
    hide Plausible, Read, Rfc850Rest, DateText;
    var date, n := DateText(Rfc850, name, t, false), |name|;
    Rfc850Text(name, t);
    assert forall j | 0 <= j < n :: date[j] == name[j];
    SpaceFound(date, 0, n);
    RestRead(date, n, t);
  }

  lemma Rfc850Text(name: seq<byte>, t: Instant)
    requires Plausible(t)
    ensures
      var date := DateText(Rfc850, name, t, false);
      && |date| == |name| + 23 && date[..|name|] == name && Rfc850Rest(date[|name|..], t) && date[|name|] == SP
  {
    hide MonthName, Digit;
    var rest := [SP] + Day(t.day) + [DASH] + MonthName(t.month) + [DASH] + [Digit(t.year, 10), Digit(t.year, 1)] +
      [SP] + Clock(t) + GMT;
    Joined(name, [SP], Day(t.day), [DASH], MonthName(t.month), [DASH], [Digit(t.year, 10), Digit(t.year, 1)], [SP],
      Clock(t), GMT);
    assert DateText(Rfc850, name, t, false) == name + rest;
    assert (name + rest)[|name|..] == rest;
    assert rest[4..7] == MonthName(t.month) && rest[11..19] == Clock(t);
  }

  lemma RestRead(date: seq<byte>, n: nat, t: Instant)
    requires Plausible(t) && 1970 <= t.year <= 2069 && 7 <= n <= 10 && |date| == n + 23
    requires FirstSpace(date, 0) == n && Rfc850Rest(date[n..], t)
    ensures Read(date) == Instantly(t)
  {
    hide MonthName, Digit, TwoOf, MonthNo;
    TimeRead(t);
    MonthRead(t.month);
    var v := date[n..];
    assert forall j | 0 <= j < 23 :: date[n + j] == v[j];
    assert date[n + 4..n + 7] == v[4..7];
    PartsOfRest(v, t);
  }

  lemma PartsOfRest(v: seq<byte>, t: Instant)
    requires Plausible(t) && Rfc850Rest(v, t)
    ensures v[1] == Digit(t.day, 10) && v[2] == Digit(t.day, 1) && v[8] == Digit(t.year, 10) && v[9] == Digit(t.year, 1)
    ensures v[11] == Digit(t.hour, 10) && v[12] == Digit(t.hour, 1) && v[13] == COLON
    ensures v[14] == Digit(t.minute, 10) && v[15] == Digit(t.minute, 1) && v[16] == COLON
    ensures v[17] == Digit(t.second, 10) && v[18] == Digit(t.second, 1)
    ensures v[19] == SP && v[20] == 71 && v[21] == 77 && v[22] == 84
  {
    hide MonthName, Digit;
    assert v[1] == v[1..3][0] && v[2] == v[1..3][1] && v[8] == v[8..10][0] && v[9] == v[8..10][1];
    assert forall j | 0 <= j < 8 :: v[11 + j] == v[11..19][j];
    assert forall j | 0 <= j < 4 :: v[19 + j] == v[19..][j];
  }

  /** All three formats of an instant are read as that instant. */
  lemma TextRead(f: Format, name: seq<byte>, t: Instant, spaced: bool)
    requires NameFits(f, name) && Plausible(t) && YearFits(f, t.year)
    ensures Read(DateText(f, name, t, spaced)) == Instantly(t)
  {
    hide Read;
    match f {
      case Fixed => FixedRead(name, t);
      case Rfc850 => Rfc850Read(name, t);
      case Asctime => AsctimeRead(name, t, spaced);
    }
  }

  // ----- Only dates are read -----

  lemma DigitsBack(a: byte, b: byte)
    requires IsTwo(a, b)
    ensures TwoOf(a, b) < 100 && a == Digit(TwoOf(a, b), 10) && b == Digit(TwoOf(a, b), 1)
  {
    var x, y := a - 48, b - 48;
    assert (x * 10 + y) / 10 == x && (x * 10 + y) % 10 == y;
  }

  lemma CenturyBack(a: byte, b: byte, c: byte, d: byte)
    requires IsTwo(a, b) && IsTwo(c, d)
    ensures
      var y := TwoOf(a, b) * 100 + TwoOf(c, d);
      Year(y) == [a, b, c, d]
  {
    hide Digit, TwoOf;
    var q, r := TwoOf(a, b), TwoOf(c, d);
    DigitsBack(a, b);
    DigitsBack(c, d);
    YearSplit(q, r);
    TwoBack(q * 100 + r, r);
  }

  lemma YearSplit(q: nat, r: nat)
    requires q < 100 && r < 100
    ensures Digit(q * 100 + r, 1000) == Digit(q, 10) && Digit(q * 100 + r, 100) == Digit(q, 1)
    ensures (q * 100 + r) % 100 == r
  {
    var y := q * 100 + r;
    assert y / 100 == q;
    assert y / 1000 == y / 100 / 10;
  }

  lemma TwoBack(y: nat, r: nat)
    requires r < 100 && y % 100 == r
    ensures Digit(y, 10) == Digit(r, 10) && Digit(y, 1) == Digit(r, 1)
  {
    var q := y / 100;
    DivMod(y, q * 10 + r / 10, r % 10);
    DivMod(y / 10, q, r / 10);
  }

  lemma DivMod(n: nat, a: nat, m: nat)
    requires n == a * 10 + m && m < 10
    ensures n / 10 == a && n % 10 == m
  {
  }

  lemma FixedBack(date: seq<byte>)
    requires |date| == 29 && Read(date).Instantly?
    ensures date == DateText(Fixed, date[..5], Read(date).t, false)
  {
    hide Digit, TwoOf, MonthName, MonthNo;
    var t := Read(date).t;
    DigitsBack(date[5], date[6]);
    CenturyBack(date[12], date[13], date[14], date[15]);
    DigitsBack(date[17], date[18]);
    DigitsBack(date[20], date[21]);
    DigitsBack(date[23], date[24]);
    assert date[8..11] == MonthName(t.month);
    assert date ==
      date[..5] + date[5..7] + [date[7]] + date[8..11] + [date[11]] + date[12..16] + [date[16]] + date[17..25] +
        date[25..29];
  }

  lemma AsctimeBack(date: seq<byte>)
    requires |date| == 24 && Read(date).Instantly?
    ensures date == DateText(Asctime, date[..4], Read(date).t, date[8] == SP)
  {
    hide Digit, TwoOf, MonthName, MonthNo, AsctimeRest;
    AsctimeParts(date);
    AsctimeJoined(date, Read(date).t);
  }

  ghost predicate AsctimeRest(v: seq<byte>, t: Instant)
    requires Plausible(t)
  {
    && |v| == 24 && v[4..7] == MonthName(t.month) && v[7] == SP && v[10] == SP && v[11..19] == Clock(t) && v[19] == SP
    && v[20..24] == Year(t.year) && v[8..10] == if v[8] == SP && t.day < 10 then [SP, 48 + t.day] else Day(t.day)
  }

  lemma AsctimeParts(date: seq<byte>)
    requires |date| == 24 && Read(date).Instantly?
    ensures AsctimeRest(date, Read(date).t)
  {
    hide Digit, TwoOf, MonthName, MonthNo;
    var first := FirstOfDay(date, LayoutOf(date));
    DigitsBack(first, date[9]);
    SpacedDay(first, date[9]);
    CenturyBack(date[20], date[21], date[22], date[23]);
    DigitsBack(date[11], date[12]);
    DigitsBack(date[14], date[15]);
    DigitsBack(date[17], date[18]);
  }

  lemma AsctimeJoined(v: seq<byte>, t: Instant)
    requires Plausible(t) && AsctimeRest(v, t)
    ensures v == DateText(Asctime, v[..4], t, v[8] == SP)
  {
    hide Digit, MonthName;
    assert v == v[..4] + v[4..7] + [v[7]] + v[8..10] + [v[10]] + v[11..19] + [v[19]] + v[20..24];
  }

  lemma SpacedDay(a: byte, b: byte)
    requires IsTwo(a, b)
    ensures a == 48 ==> TwoOf(a, b) < 10 && b == 48 + TwoOf(a, b)
  {
  }

  lemma Rfc850Back(date: seq<byte>)
    requires 30 <= |date| <= 33 && Read(date).Instantly?
    ensures
      var k := FirstSpace(date, 0);
      NameFits(Rfc850, date[..k]) && YearFits(Rfc850, Read(date).t.year) &&
        date == DateText(Rfc850, date[..k], Read(date).t, false)
  {
    hide Digit, TwoOf, MonthName, MonthNo, WellFormed, Rfc850Rest;
    var t, k := Read(date).t, FirstSpace(date, 0);
    Rfc850Parts(date);
    YearBack(date);
    NameBefore(date, k);
    assert Plausible(t) && 7 <= k <= 10;
    hide Read, LayoutOf, Plausible, FirstSpace;
    RestJoined(date[k..], t);
    TakeDrop(date, k);
    Joined(date[..k], [SP], Day(t.day), [DASH], MonthName(t.month), [DASH], [Digit(t.year, 10), Digit(t.year, 1)], [SP],
      Clock(t), GMT);
  }

  lemma NameBefore(date: seq<byte>, k: nat)
    requires k == FirstSpace(date, 0)
    ensures SP !in date[..k]
  {
  }

  lemma YearBack(date: seq<byte>)
    requires 30 <= |date| <= 33 && Read(date).Instantly?
    ensures 1970 <= Read(date).t.year <= 2069
  {
    hide TwoOf, Digit, MonthNo, WellFormed, Plausible;
    var l := LayoutOf(date);
    assert Read(date).t == InstantOf(date, l);
    assert l.yearDigits == 2;
  }

  lemma Rfc850Parts(date: seq<byte>)
    requires 30 <= |date| <= 33 && Read(date).Instantly?
    ensures Rfc850Rest(date[FirstSpace(date, 0)..], Read(date).t)
  {
    hide Digit, TwoOf, MonthName, MonthNo;
    var t, k := Read(date).t, FirstSpace(date, 0);
    var v := date[k..];
    assert forall j | 0 <= j < 23 :: v[j] == date[k + j];
    assert v[4..7] == date[k + 4..k + 7];
    DigitsBack(v[1], v[2]);
    DigitsBack(v[8], v[9]);
    Centuries(t.year, TwoOf(v[8], v[9]));
    TwoBack(t.year, TwoOf(v[8], v[9]));
    DigitsBack(v[11], v[12]);
    DigitsBack(v[14], v[15]);
    DigitsBack(v[17], v[18]);
  }

  lemma Centuries(year: nat, yy: nat)
    requires yy < 100 && year == if yy < 70 then 2000 + yy else 1900 + yy
    ensures year % 100 == yy
  {
  }

  lemma RestJoined(v: seq<byte>, t: Instant)
    requires Plausible(t) && Rfc850Rest(v, t)
    ensures v ==
      [SP] + Day(t.day) + [DASH] + MonthName(t.month) + [DASH] + [Digit(t.year, 10), Digit(t.year, 1)] + [SP] +
        Clock(t) + GMT
  {
    hide Digit, MonthName;
    assert v == v[..1] + v[1..3] + v[3..4] + v[4..7] + v[7..8] + v[8..10] + v[10..11] + v[11..19] + v[19..];
  }

  lemma Joined(n: seq<byte>, a: seq<byte>, b: seq<byte>, c: seq<byte>, d: seq<byte>, e: seq<byte>, f: seq<byte>,
               g: seq<byte>, h: seq<byte>, i: seq<byte>)
    ensures n + (a + b + c + d + e + f + g + h + i) == n + a + b + c + d + e + f + g + h + i
  {
  }

  /** Whatever is accepted is the text of a plausible instant, in one of the three formats; day names are
      not looked at, and the day may be 0. */
  lemma OnlyDatesAreRead(date: seq<byte>) returns (f: Format, name: seq<byte>, spaced: bool)
    requires Read(date).Instantly?
    ensures NameFits(f, name) && YearFits(f, Read(date).t.year) && date == DateText(f, name, Read(date).t, spaced)
  {
    if |date| == 29 {
      FixedBack(date);
      return Fixed, date[..5], false;
    } else if |date| == 24 {
      AsctimeBack(date);
      return Asctime, date[..4], date[8] == SP;
    } else {
      Rfc850Back(date);
      return Rfc850, date[..FirstSpace(date, 0)], false;
    }
  }

  // ----- The parser -----

  /** An entry of the perfect hash table of months. */
  datatype Entry = Entry(hash: nat, month: nat, days: nat, past: nat)

  const MONTHS: seq<Entry> := [
    Entry(285, 8, 31, 212), Entry(296, 9, 30, 243), Entry(268, 12, 31, 334), Entry(288, 3, 31, 59),
    Entry(301, 6, 30, 151), Entry(295, 5, 31, 120), Entry(307, 11, 30, 304), Entry(299, 7, 31, 181),
    Entry(294, 10, 31, 273), Entry(291, 4, 30, 90), Entry(269, 2, 28, 31), Entry(281, 1, 31, 0)]

  /** The month whose name is at hand, if its hash and its letters are in the table; three NUL bytes divide
      by zero. */
  method FindMonth(name: seq<byte>) returns (found: bool, m: Entry, panicked: bool)
    requires |name| == 3
    ensures panicked == (name == [0, 0, 0])
    ensures found == (MonthNo(name) != 0)
    ensures found ==> m.month == MonthNo(name)
    ensures found ==>
      m.days == (if m.month == 2 then 28 else MonthDays(1, m.month)) && m.past == DaysToMonth(1, m.month)
  {
    hide MonthNo, MonthName, DaysToMonth, MonthDays;
    var hash: nat := name[0] as int + name[1] as int + name[2] as int;
    panicked := hash == 0;
    if panicked {
      NoSuchMonth(name);
      return false, MONTHS[0], true;
    }
    m := MONTHS[5509728 / hash % 12];
    EntryIs(5509728 / hash % 12);
    found := m.hash == hash && name == MonthName(m.month);
    if found {
      MonthRead(m.month);
    } else if MonthNo(name) != 0 {
      HashFinds(MonthNo(name));
    }
  }

  lemma NoSuchMonth(name: seq<byte>)
    requires |name| == 3 && name[0] == name[1] == name[2] == 0
    ensures MonthNo(name) == 0 && name == [0, 0, 0]
  {
  }

  lemma EntryIs(k: nat)
    requires k < 12
    ensures
      var m := MONTHS[k];
      1 <= m.month <= 12 && m.days == (if m.month == 2 then 28 else MonthDays(1, m.month)) &&
        m.past == DaysToMonth(1, m.month)
  {
    DaysToMonthIs(1, MONTHS[k].month);
  }

  /** The table has every month where its hash leads. */
  lemma HashFinds(month: nat)
    requires 1 <= month <= 12
    ensures
      var name := MonthName(month);
      var hash := name[0] as int + name[1] as int + name[2] as int;
      hash > 0 && MONTHS[5509728 / hash % 12].hash == hash && MONTHS[5509728 / hash % 12].month == month
  {
    HashOf(month);
    hide MonthName;
    if month <= 4 {
      assert 5509728 / 281 % 12 == 11 && 5509728 / 269 % 12 == 10 && 5509728 / 288 % 12 == 3 && 5509728 / 291 % 12 == 9;
    } else if month <= 8 {
      assert 5509728 / 295 % 12 == 5 && 5509728 / 301 % 12 == 4 && 5509728 / 299 % 12 == 7 && 5509728 / 285 % 12 == 0;
    } else {
      assert 5509728 / 296 % 12 == 1 && 5509728 / 294 % 12 == 8 && 5509728 / 307 % 12 == 6 && 5509728 / 268 % 12 == 2;
    }
  }

  const HASHES: seq<nat> := [281, 269, 288, 291, 295, 301, 299, 285, 296, 294, 307, 268]

  lemma HashOf(month: nat)
    requires 1 <= month <= 12
    ensures
      var name := MonthName(month);
      name[0] as int + name[1] as int + name[2] as int == HASHES[month - 1]
  {
  }

  method ReadTwo(date: seq<byte>, fore: nat) returns (n: nat, ok: bool)
    requires fore + 2 <= |date|
    ensures ok == IsTwo(date[fore], date[fore + 1])
    ensures ok ==> n == TwoOf(date[fore], date[fore + 1])
  {
    var b0, b1 := date[fore], date[fore + 1];
    ok := 48 <= b0 <= 57 && 48 <= b1 <= 57;
    n := if ok then (b0 - 48) * 10 + (b1 - 48) else 0;
  }

  method ReadFour(date: seq<byte>, fore: nat) returns (n: nat, ok: bool)
    requires fore + 4 <= |date|
    ensures ok == (IsTwo(date[fore], date[fore + 1]) && IsTwo(date[fore + 2], date[fore + 3]))
    ensures ok ==> n == TwoOf(date[fore], date[fore + 1]) * 100 + TwoOf(date[fore + 2], date[fore + 3])
  {
    var century, years, ok1;
    century, ok := ReadTwo(date, fore);
    years, ok1 := ReadTwo(date, fore + 2);
    ok := ok && ok1;
    n := century * 100 + years;
  }

  /** What format a date has, by its length, and where its parts begin. */
  method FindLayout(date: seq<byte>) returns (l: Layout)
    ensures l == LayoutOf(date)
  {
    if |date| == 29 {
      return Layout(5, 8, 12, 4, 17, SP);
    } else if 30 <= |date| <= 33 {
      var fore: nat := 0;
      while fore < |date| && date[fore] != SP
        invariant fore <= |date| && FirstSpace(date, fore) == FirstSpace(date, 0)
      {
        fore := fore + 1;
      }
      if |date| - fore != 23 {
        return NoLayout;
      }
      return Layout(fore + 1, fore + 4, fore + 8, 2, fore + 11, DASH);
    } else if |date| == 24 {
      return Layout(8, 4, 20, 4, 11, SP);
    } else {
      return NoLayout;
    }
  }

  /** The day, with a space for its first digit in the shortest format. */
  method ReadDay(date: seq<byte>, l: Layout) returns (day: nat, ok: bool)
    requires l.Layout? && l == LayoutOf(date)
    ensures ok == IsTwo(FirstOfDay(date, l), date[l.day + 1])
    ensures ok ==> day == TwoOf(FirstOfDay(date, l), date[l.day + 1])
  {
    var b0, b1 := date[l.day], date[l.day + 1];
    if |date| == 24 && b0 == SP {
      b0 := 48;
    }
    ok := 48 <= b0 <= 57 && 48 <= b1 <= 57;
    day := if ok then (b0 - 48) * 10 + (b1 - 48) else 0;
  }

  method ReadYear(date: seq<byte>, l: Layout) returns (year: nat, ok: bool)
    requires l.Layout? && l == LayoutOf(date)
    ensures ok ==
      (IsTwo(date[l.year], date[l.year + 1]) && (l.yearDigits == 4 ==> IsTwo(date[l.year + 2], date[l.year + 3])))
    ensures ok && l.yearDigits == 4 ==>
      year == TwoOf(date[l.year], date[l.year + 1]) * 100 + TwoOf(date[l.year + 2], date[l.year + 3])
    ensures ok && l.yearDigits == 2 ==>
      var yy := TwoOf(date[l.year], date[l.year + 1]);
      year == if yy < 70 then 2000 + yy else 1900 + yy
  {
    if l.yearDigits == 4 {
      year, ok := ReadFour(date, l.year);
    } else {
      year, ok := ReadTwo(date, l.year);
      year := year + if year < 70 then 2000 else 1900;
    }
  }

  /** The parser gets as far as the month, and finds three NUL bytes there. */
  predicate DividesByZero(date: seq<byte>) {
    var l := LayoutOf(date);
    && l.Layout? && date[l.month..l.month + 3] == [0, 0, 0]
    && (|date| != 24 ==> IsTwo(date[l.day], date[l.day + 1]) && date[l.day + 2] == l.dash)
  }

  /** clockParseHTTPDate: the seconds since 1970 of a date in any of the three formats. */
  method Parse(date: seq<byte>) returns (time: int, ok: bool, panicked: bool)
    ensures panicked == DividesByZero(date)
    ensures ok == Read(date).Instantly?
    ensures time == if ok then Seconds(Read(date).t) else 0
  {
    hide LayoutOf, TwoOf, MonthNo, FirstOfDay, IsTwo, MonthDays, Seconds;
    var l := FindLayout(date);
    if l.NoLayout? {
      return 0, false, false;
    }
    if |date| != 24 {
      var _, okFirst := ReadTwo(date, l.day);
      FirstIs(date, l);
      if !okFirst || date[l.day + 2] != l.dash {
        return 0, false, false;
      }
    }
    var okMonth, m;
    okMonth, m, panicked := FindMonth(date[l.month..l.month + 3]);
    if panicked {
      return 0, false, true;
    }
    time, ok := ParseRest(date, l, okMonth, m);
  }

  lemma FirstIs(date: seq<byte>, l: Layout)
    requires l.Layout? && l == LayoutOf(date)
    ensures |date| != 24 ==> FirstOfDay(date, l) == date[l.day]
  {
  }

  /** The parts of a date, when its month has been looked up. */
  method ParseRest(date: seq<byte>, l: Layout, okMonth: bool, m: Entry) returns (time: int, ok: bool)
    requires l.Layout? && l == LayoutOf(date) && okMonth == (MonthNo(date[l.month..l.month + 3]) != 0)
    requires okMonth ==> m.month == MonthNo(date[l.month..l.month + 3])
    requires okMonth ==>
      m.days == (if m.month == 2 then 28 else MonthDays(1, m.month)) && m.past == DaysToMonth(1, m.month)
    ensures ok == Read(date).Instantly?
    ensures time == if ok then Seconds(Read(date).t) else 0
  {
    hide LayoutOf, TwoOf, MonthNo, FirstOfDay, IsTwo, MonthDays, Seconds;
    var day, okDay := ReadDay(date, l);
    var year, okYear := ReadYear(date, l);
    var hour, okHour := ReadTwo(date, l.hour);
    var minute, okMinute := ReadTwo(date, l.hour + 3);
    var second, okSecond := ReadTwo(date, l.hour + 6);
    if !(okDay && okMonth && okYear && okHour && okMinute && okSecond) {
      return 0, false;
    }
    if date[l.month + 3] != l.dash || (|date| != 24 && date[l.day + 2] != l.dash) {
      return 0, false;
    }
    var h := l.hour;
    if date[h + 8] != SP || date[h + 5] != COLON || date[h + 2] != COLON || date[h - 1] != SP {
      return 0, false;
    }
    if |date| != 24 && (date[h + 9] != 71 || date[h + 10] != 77 || date[h + 11] != 84) {
      return 0, false;
    }
    assert WellFormed(date, l);
    ghost var t := InstantOf(date, l);
    assert t == Instant(year, m.month, day, hour, minute, second);
    DaysChecked(t, m.days);
    if hour > 23 || minute > 59 || second > 59 {
      return 0, false;
    }
    if day == 29 && m.month == 2 {
      if !Leap(year) {
        return 0, false;
      }
    } else if day > m.days {
      return 0, false;
    }
    time := CountSeconds(year, m, day, hour, minute, second);
    ok := true;
  }

  lemma DaysChecked(t: Instant, days: nat)
    requires 1 <= t.month <= 12 && days == if t.month == 2 then 28 else MonthDays(1, t.month)
    ensures t.day <= MonthDays(t.year, t.month) <==> if t.day == 29 && t.month == 2 then Leap(t.year) else t.day <= days
  {
  }

  /** The days of whole years are counted in one step, those of whole months looked up. */
  method CountSeconds(year: nat, m: Entry, day: nat, hour: nat, minute: nat, second: nat) returns (time: int)
    requires 1 <= m.month <= 12 && m.past == DaysToMonth(1, m.month)
    ensures time == Seconds(Instant(year, m.month, day, hour, minute, second))
  {
    hide DaysToYear, DaysToMonth;
    DaysToYearIs(year);
    DaysToYearIs(1970);
    DaysToMonthIs(year, m.month);
    DaysToMonthIs(1, m.month);
    var days: int := m.past;
    if year > 0 {
      var y := year - 1;
      days := days + (y / 4 - y / 100 + y / 400 + 1);
      days := days + (y + 1) * 365;
    }
    if Leap(year) && m.month > 2 {
      days := days + 1;
    }
    days := days + (day - 1);
    days := days - 719528;
    time := days * 86400 + (hour * 3600 + minute * 60 + second);
  }

  // ----- The writer -----

  /** Sun, Mon, Tue, Wed, Thu, Fri, Sat */
  const DAY_NAMES: seq<seq<byte>> := [
    [83, 117, 110], [77, 111, 110], [84, 117, 101], [87, 101, 100], [84, 104, 117], [70, 114, 105], [83, 97, 116]]

  const COMMA: byte := 44

  function DayName(weekday: nat): (name: seq<byte>)
    requires weekday < 7
    ensures |name| == 5
  {
    [DAY_NAMES[weekday][0], DAY_NAMES[weekday][1], DAY_NAMES[weekday][2], COMMA, SP]
  }

  /** clockWriteHTTPDate */
  method Write(dst: array<byte>, at: nat, t: Instant, weekday: nat)
    requires Valid(t) && weekday < 7 && at + 29 <= dst.Length
    modifies dst
    ensures dst[..] == Pasted(old(dst[..]), at, DateText(Fixed, DayName(weekday), t, false))
  {
    var year := t.year;
    var digits := [t.day / 10, t.day % 10, year / 1000, year / 100 % 10, year / 10 % 10, year % 10,
                   t.hour / 10, t.hour % 10, t.minute / 10, t.minute % 10, t.second / 10, t.second % 10];
    DigitsOfDate(t);
    LineIs(DayName(weekday), t);
    CopyInto(dst, at, DateLine(DayName(weekday), MonthName(t.month), digits));
  }

  /** The digits of a date, in the order they are written. */
  function DateDigits(t: Instant): seq<nat> {
    [t.day / 10, t.day % 10, t.year / 1000, t.year / 100 % 10, t.year / 10 % 10, t.year % 10,
     t.hour / 10, t.hour % 10, t.minute / 10, t.minute % 10, t.second / 10, t.second % 10]
  }

  lemma DigitsOfDate(t: Instant)
    requires Plausible(t)
    ensures forall k | 0 <= k < 12 :: DateDigits(t)[k] < 10
  {
  }

  /** The bytes of a date, one by one. */
  function DateLine(name: seq<byte>, month: seq<byte>, d: seq<nat>): (s: seq<byte>)
    requires |name| == 5 && |month| == 3 && |d| == 12 && forall k | 0 <= k < 12 :: d[k] < 10
    ensures |s| == 29
  {
    name + [48 + d[0], 48 + d[1], SP] + month +
    [SP, 48 + d[2], 48 + d[3], 48 + d[4], 48 + d[5], SP, 48 + d[6], 48 + d[7], COLON,
     48 + d[8], 48 + d[9], COLON, 48 + d[10], 48 + d[11], SP, 71, 77, 84]
  }

  lemma LineIs(name: seq<byte>, t: Instant)
    requires |name| == 5 && Plausible(t)
    ensures forall k | 0 <= k < 12 :: DateDigits(t)[k] < 10
    ensures DateLine(name, MonthName(t.month), DateDigits(t)) == DateText(Fixed, name, t, false)
  {
    DigitsOfDate(t);
    DigitIs(t);
    hide MonthName, Digit, DateDigits;
  }

  lemma DigitIs(t: Instant)
    requires Plausible(t)
    ensures
      var d := DateDigits(t);
      && 48 + d[0] == Digit(t.day, 10) && 48 + d[1] == Digit(t.day, 1)
      && 48 + d[2] == Digit(t.year, 1000) && 48 + d[3] == Digit(t.year, 100) && 48 + d[4] == Digit(t.year, 10) &&
           48 + d[5] == Digit(t.year, 1)
      && 48 + d[6] == Digit(t.hour, 10) && 48 + d[7] == Digit(t.hour, 1) && 48 + d[8] == Digit(t.minute, 10)
      && 48 + d[9] == Digit(t.minute, 1) && 48 + d[10] == Digit(t.second, 10) && 48 + d[11] == Digit(t.second, 1)
  {
  }

  /** What a server writes is read back as the same moment, whichever day name stands before it. */
  lemma WrittenIsRead(t: Instant, weekday: nat)
    requires Valid(t) && weekday < 7
    ensures Read(DateText(Fixed, DayName(weekday), t, false)) == Instantly(t)
  {
    TextRead(Fixed, DayName(weekday), t, false);
  }

  /** A day 0 is read, although there is no such day. */
  lemma DayZeroIsRead(name: seq<byte>)
    requires NameFits(Fixed, name)
    ensures
      var t := Instant(1994, 11, 0, 8, 49, 37);
      !Valid(t) && Read(DateText(Fixed, name, t, false)) == Instantly(t)
  {
    TextRead(Fixed, name, Instant(1994, 11, 0, 8, 49, 37), false);
  }

  /** The three texts of a moment between 1970 and 2069 are read as the same number of seconds. */
  lemma FormatsAgree(t: Instant, name0: seq<byte>, name1: seq<byte>, name2: seq<byte>, spaced: bool)
    requires Plausible(t) && 1970 <= t.year <= 2069
    requires NameFits(Fixed, name0) && NameFits(Rfc850, name1) && NameFits(Asctime, name2)
    ensures Read(DateText(Fixed, name0, t, false)) == Read(DateText(Rfc850, name1, t, false)) ==
      Read(DateText(Asctime, name2, t, spaced))
  {
    TextRead(Fixed, name0, t, false);
    TextRead(Rfc850, name1, t, false);
    TextRead(Asctime, name2, t, spaced);
  }

  // ----- The clock -----

  /** Numbers below 16, packed four bits each, the first one lowest. */
  function Pack(nibbles: seq<nat>): nat {
    if nibbles == [] then 0 else nibbles[0] + 16 * Pack(nibbles[1..])
  }

  /** date >> (4 * k) & 0xf, which shifts the sign in. */
  function Nibble(date: int, k: nat): nat
    decreases k
  {
    if k == 0 then date % 16 else Nibble(date / 16, k - 1)
  }

  function Pow16(n: nat): nat {
    if n == 0 then 1 else 16 * Pow16(n - 1)
  }

  /** A word of 64 bits as an int64: seconds that end in 8 or 9 make it negative. */
  function Signed(word: nat): (date: int64)
    requires word < 0x1_0000_0000_0000_0000
  {
    if word < 0x8000_0000_0000_0000 then word else word - 0x1_0000_0000_0000_0000
  }

  lemma {:induction false} Unpacked(nibbles: seq<nat>, k: nat)
    requires k < |nibbles| && forall j | 0 <= j < |nibbles| :: nibbles[j] < 16
    ensures Nibble(Pack(nibbles), k) == nibbles[k]
  {
    var rest := Pack(nibbles[1..]);
    assert (nibbles[0] + 16 * rest) % 16 == nibbles[0] && (nibbles[0] + 16 * rest) / 16 == rest;
    if k > 0 {
      Unpacked(nibbles[1..], k - 1);
    }
  }

  lemma {:induction false} PackFits(nibbles: seq<nat>)
    requires forall j | 0 <= j < |nibbles| :: nibbles[j] < 16
    ensures Pack(nibbles) < Pow16(|nibbles|)
  {
    if nibbles != [] {
      PackFits(nibbles[1..]);
    }
  }

  /** The sign does not show in the lower digits. */
  lemma {:induction false} SignShiftedIn(date: int, n: nat, k: nat)
    requires k < n
    ensures Nibble(date - Pow16(n), k) == Nibble(date, k)
    decreases k
  {
    var m := Pow16(n - 1);
    Sixteenth(date, m);
    if k > 0 {
      SignShiftedIn(date / 16, n - 1, k - 1);
    }
  }

  lemma Sixteenth(date: int, m: nat)
    ensures (date - 16 * m) % 16 == date % 16 && (date - 16 * m) / 16 == date / 16 - m
  {
    var q, r := date / 16, date % 16;
    assert date - 16 * m == 16 * (q - m) + r;
  }

  lemma Pow16Of16()
    ensures Pow16(16) == 0x1_0000_0000_0000_0000
  {
    assert Pow16(4) == 0x1_0000;
    assert Pow16(8) == 0x1_0000_0000;
    assert Pow16(12) == 0x1_0000_0000_0000;
  }

  /** What the clock stores: the lowest eight bits are not used. */
  function Packed(t: Instant, weekday: nat): seq<nat>
    requires Valid(t) && weekday < 7
  {
    [0, 0, weekday, t.day / 10, t.day % 10, t.month, t.year / 1000, t.year / 100 % 10, t.year / 10 % 10, t.year % 10,
     t.hour / 10, t.hour % 10, t.minute / 10, t.minute % 10, t.second / 10, t.second % 10]
  }

  class ClockFixture {
    var date: int64

    constructor (t: Instant, weekday: nat)
      requires Valid(t) && weekday < 7
      ensures Pack(Packed(t, weekday)) < 0x1_0000_0000_0000_0000 && date == Signed(Pack(Packed(t, weekday)))
    {
      PackedFits(t, weekday);
      date := Signed(Pack(Packed(t, weekday)));
    }

    /** writeDate: the packed moment is written like the moment itself. */
    method WriteDate(dst: array<byte>, at: nat, ghost t: Instant, ghost weekday: nat)
      requires Valid(t) && weekday < 7 && at + 29 <= dst.Length
      requires Pack(Packed(t, weekday)) < 0x1_0000_0000_0000_0000 && date == Signed(Pack(Packed(t, weekday)))
      modifies dst
      ensures dst[..] == Pasted(old(dst[..]), at, DateText(Fixed, DayName(weekday), t, false))
    {
      hide Nibble, Pack, DateLine, MonthName, Signed;
      AllUnpacked(t, weekday);
      LineIs(DayName(weekday), t);
      var digits := [
        Nibble(date, 3), Nibble(date, 4), Nibble(date, 6), Nibble(date, 7), Nibble(date, 8), Nibble(date, 9),
        Nibble(date, 10), Nibble(date, 11), Nibble(date, 12), Nibble(date, 13), Nibble(date, 14), Nibble(date, 15)];
      assert digits == DateDigits(t);
      CopyInto(dst, at, DateLine(DayName(Nibble(date, 2)), MonthName(Nibble(date, 5)), digits));
    }
  }

  lemma PackedFits(t: Instant, weekday: nat)
    requires Valid(t) && weekday < 7
    ensures |Packed(t, weekday)| == 16 && forall k | 0 <= k < 16 :: Packed(t, weekday)[k] < 16
    ensures Pack(Packed(t, weekday)) < 0x1_0000_0000_0000_0000
  {
    hide Pack;
    Pow16Of16();
    PackFits(Packed(t, weekday));
  }

  lemma AllUnpacked(t: Instant, weekday: nat)
    requires Valid(t) && weekday < 7
    ensures Pack(Packed(t, weekday)) < 0x1_0000_0000_0000_0000
    ensures forall k | 0 <= k < 16 :: Nibble(Signed(Pack(Packed(t, weekday))), k) == Packed(t, weekday)[k] < 16
  {
    hide Pack, Nibble;
    PackedFits(t, weekday);
    Pow16Of16();
    var word := Pack(Packed(t, weekday));
    hide Packed, Pow16;
    forall k | 0 <= k < 16
      ensures Nibble(Signed(word), k) == Packed(t, weekday)[k]
    {
      Unpacked(Packed(t, weekday), k);
      SignShiftedIn(word, 16, k);
    }
  }
}
