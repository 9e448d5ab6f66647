// Dates as they are written in section 5.6.7 of RFC 9110, letter by letter, and the days of the week.

module HttpDateTexts {
  import opened Bytes
  import opened HttpDate

  /** The day of the week, counted from a Sunday; the first day of 1970 was a Thursday. */
  function Weekday(t: Instant): (w: nat)
    requires 1 <= t.month <= 12
    ensures w < 7
  {
    (Seconds(t) / 86400 + 4) % 7
  }

  /** One day later it is the next day of the week, and seven days later the same. */
  lemma WeekdayMoves(t: Instant, u: Instant, days: nat)
    requires 1 <= t.month <= 12 && 1 <= u.month <= 12 && Seconds(u) == Seconds(t) + 86400 * days
    ensures Weekday(u) == (Weekday(t) + days) % 7
  {
    hide Seconds;
    var today := Seconds(t) / 86400;
    DaysLater(Seconds(t), days);
    WeekLater(today + 4, days);
  }

  lemma DaysLater(second: int, days: nat)
    ensures (second + 86400 * days) / 86400 == second / 86400 + days
  {
  }

  lemma WeekLater(day: int, days: nat)
    ensures (day + days) % 7 == (day % 7 + days) % 7
  {
  }

  /** Which letters stand for which day. */
  lemma DayLetters()
    ensures DayName(0) == Text("Sun, ") && DayName(1) == Text("Mon, ") && DayName(2) == Text("Tue, ")
    ensures DayName(3) == Text("Wed, ") && DayName(4) == Text("Thu, ") && DayName(5) == Text("Fri, ")
    ensures DayName(6) == Text("Sat, ")
  {
  }

  /** And for which month. */
  lemma MonthLetters()
    ensures MonthName(1) == Text("Jan") && MonthName(2) == Text("Feb") && MonthName(3) == Text("Mar")
    ensures MonthName(4) == Text("Apr") && MonthName(5) == Text("May") && MonthName(6) == Text("Jun")
    ensures MonthName(7) == Text("Jul") && MonthName(8) == Text("Aug") && MonthName(9) == Text("Sep")
    ensures MonthName(10) == Text("Oct") && MonthName(11) == Text("Nov") && MonthName(12) == Text("Dec")
  {
  }

  predicate Is(t: Instant, year: nat, month: nat, day: nat, clock: nat) {
    && t.year == year && t.month == month && t.day == day
    && t.hour * 10000 + t.minute * 100 + t.second == clock && t.minute < 60 && t.second < 60
  }

  lemma SecondsInOneStep(t: Instant)
    requires t.year > 0 && 1 <= t.month <= 12
    ensures
      var y := t.year - 1;
      var months := [0, 31, 59, 90, 120, 151, 181, 212, 243, 273, 304, 334][t.month - 1];
      var days := y / 4 - y / 100 + y / 400 + 1 + t.year * 365 + months +
        (if Leap(t.year) && t.month > 2 then 1 else 0);
      Seconds(t) == (days + t.day - 1 - 719528) * 86400 + t.hour * 3600 + t.minute * 60 + t.second
  {
    hide DaysToYear, DaysToMonth, Leap;
    DaysToYearIs(t.year);
    DaysToYearIs(1970);
    DaysToMonthIs(t.year, t.month);
  }

  /** The seconds of some known moments: the example of RFC 9110, a leap day, and the first one
      behind the last number of 31 bits. */
  lemma ExampleSecond(t: Instant)
    requires Is(t, 1994, 11, 6, 084937)
    ensures Seconds(t) == 784111777
  {
    hide Seconds;
    SecondsInOneStep(t);
  }

  lemma LeapDaySecond(t: Instant)
    requires Is(t, 2000, 2, 29, 120000)
    ensures Seconds(t) == 951825600
  {
    hide Seconds;
    SecondsInOneStep(t);
  }

  lemma LastSecond(t: Instant)
    requires Is(t, 2038, 1, 19, 031408)
    ensures Seconds(t) == 2147483648
  {
    hide Seconds;
    SecondsInOneStep(t);
  }

  /** The example of RFC 9110 was a Sunday. */
  lemma ExampleDay(t: Instant)
    requires Is(t, 1994, 11, 6, 084937)
    ensures Weekday(t) == 0
  {
    hide Seconds, DaysToYear, DaysToMonth, Leap;
    ExampleSecond(t);
  }

  // The texts of that moment in section 5.6.7 of RFC 9110.

  function FixedExample(): seq<byte> { Text("Sun, 06 Nov 1994 08:49:37 GMT") }

  function Rfc850Example(): seq<byte> { Text("Sunday, 06-Nov-94 08:49:37 GMT") }

  function AsctimeExample(): seq<byte> { Text("Sun Nov  6 08:49:37 1994") }

  lemma ExampleBytes()
    ensures FixedExample() == [83, 117, 110, 44, 32, 48, 54, 32, 78, 111, 118, 32, 49, 57, 57, 52, 32,
                               48, 56, 58, 52, 57, 58, 51, 55, 32, 71, 77, 84]
    ensures Rfc850Example() == [83, 117, 110, 100, 97, 121, 44, 32, 48, 54, 45, 78, 111, 118, 45, 57, 52, 32,
                                48, 56, 58, 52, 57, 58, 51, 55, 32, 71, 77, 84]
    ensures AsctimeExample() == [83, 117, 110, 32, 78, 111, 118, 32, 32, 54, 32,
                                 48, 56, 58, 52, 57, 58, 51, 55, 32, 49, 57, 57, 52]
  {
  }

  lemma ExampleDigits(t: Instant)
    requires Is(t, 1994, 11, 6, 084937)
    ensures Valid(t) && t.day == 6
    ensures Day(t.day) == [48, 54] && Year(t.year) == [49, 57, 57, 52] && MonthName(t.month) == [78, 111, 118]
    ensures Clock(t) == [48, 56, 58, 52, 57, 58, 51, 55] && [Digit(t.year, 10), Digit(t.year, 1)] == [57, 52]
    ensures DayName(0) == [83, 117, 110, 44, 32]
  {
  }

  /** Its three texts are what is written for it, in each of the formats. */
  lemma FixedIsExample(t: Instant)
    requires Is(t, 1994, 11, 6, 084937)
    ensures Valid(t) && DateText(Fixed, DayName(0), t, false) == FixedExample()
  {
    ExampleDigits(t);
    hide DayName, MonthName, Clock, Day, Year, Digit, FixedExample, Is, Plausible;
    ExampleBytes();
  }

  lemma Rfc850IsExample(t: Instant)
    requires Is(t, 1994, 11, 6, 084937)
    ensures Valid(t) && DateText(Rfc850, [83, 117, 110, 100, 97, 121, 44], t, false) == Rfc850Example()
  {
    ExampleDigits(t);
    hide MonthName, Clock, Day, Year, Digit, Rfc850Example, Is, Plausible;
    ExampleBytes();
  }

  lemma AsctimeIsExample(t: Instant)
    requires Is(t, 1994, 11, 6, 084937)
    ensures Valid(t) && DateText(Asctime, [83, 117, 110, 32], t, true) == AsctimeExample()
  {
    ExampleDigits(t);
    hide MonthName, Clock, Day, Year, Digit, AsctimeExample, Is, Plausible;
    ExampleBytes();
  }

  const DAY_STRING: string := "SunMonTueWedThuFriSat"

  /** The name in front of a date is that of its day. */
  lemma DayWritten(t: Instant, k: nat)
    requires Valid(t) && k < 3
    ensures
      var text := DateText(Fixed, DayName(Weekday(t)), t, false);
      text[k] == DAY_STRING[3 * Weekday(t) + k] as int && text[3] == 44 && text[4] == 32
  {
    hide Seconds, Clock, Day, Year, MonthName, Weekday;
    DayString(Weekday(t), k);
  }

  lemma DayString(w: nat, k: nat)
    requires w < 7 && k < 3
    ensures DayName(w)[k] == DAY_STRING[3 * w + k] as int && DayName(w)[3] == 44 && DayName(w)[4] == 32
  {
  }
}
