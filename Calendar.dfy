/**
 * Calendar days as (year, month, day) triples in the proleptic Gregorian calendar, the
 * weekday of a day, stepping to the next day, the `YYYY-MM-DD` key every monthly sheet is
 * built on and the `M/D/YYYY` text that `toLocaleDateString("en-US")` stores in records.
 */
module Calendar {
  import opened Wrappers
  import opened Text

  datatype Date = Date(year: int, month: int, day: int)

  /** A (year, month) pair: the value of an `<input type="month">`, "YYYY-MM". */
  datatype YearMonth = YearMonth(year: int, month: int)

  predicate IsLeapYear(y: int)
  {
    y % 4 == 0 && (y % 100 != 0 || y % 400 == 0)
  }

  /** `new Date(y, m, 0).getDate()`: the number of days of month `m` of year `y`. */
  function DaysInMonth(y: int, m: int): (n: int)
    requires 1 <= m <= 12
    ensures 28 <= n <= 31
    ensures n == 29 <==> m == 2 && IsLeapYear(y)
  {
    if m == 2 then (if IsLeapYear(y) then 29 else 28)
    else if m == 4 || m == 6 || m == 9 || m == 11 then 30
    else 31
  }

  predicate ValidDate(d: Date)
  {
    d.year >= 1 && 1 <= d.month <= 12 && 1 <= d.day <= DaysInMonth(d.year, d.month)
  }

  type CalendarDay = d: Date | ValidDate(d) witness Date(1, 1, 1)

  type Month = ym: YearMonth | ym.year >= 1 && 1 <= ym.month <= 12 witness YearMonth(1, 1)

  function DaysIn(ym: Month): int
  {
    DaysInMonth(ym.year, ym.month)
  }

  /** Day `k` of month `ym`. */
  function DayOf(ym: Month, k: int): (d: CalendarDay)
    requires 1 <= k <= DaysIn(ym)
  {
    Date(ym.year, ym.month, k)
  }

  predicate InMonth(d: Date, ym: Month)
  {
    d.year == ym.year && d.month == ym.month
  }

  // ---------------------------------------------------------------------------
  // Day numbers and weekdays
  // ---------------------------------------------------------------------------

  /** The days of the years before `y`, counted year by year. */
  function DaysBeforeYear(y: int): int
  {
    if y <= 1 then 0 else DaysBeforeYear(y - 1) + if IsLeapYear(y - 1) then 366 else 365
  }

  function DaysBeforeMonth(y: int, m: int): int
    requires 1 <= m <= 12
  {
    if m == 1 then 0 else DaysBeforeMonth(y, m - 1) + DaysInMonth(y, m - 1)
  }

  /** Days since 0001-01-01. */
  function DayNumber(d: CalendarDay): int
  {
    DaysBeforeYear(d.year) + DaysBeforeMonth(d.year, d.month) + d.day - 1
  }

  /** `getDay()`: 0 is Sunday, 6 is Saturday (0001-01-01 was a Monday). */
  function DayOfWeek(d: CalendarDay): (w: int)
    ensures 0 <= w < 7
  {
    (DayNumber(d) + 1) % 7
  }

  /** Saturday or Sunday. */
  predicate IsWeekend(d: CalendarDay)
  {
    DayOfWeek(d) == 0 || DayOfWeek(d) == 6
  }

  /** The months of a year add up to the year's length. */
  lemma YearLength(y: int)
    ensures DaysBeforeMonth(y, 12) + 31 == if IsLeapYear(y) then 366 else 365
  {
    assert DaysBeforeMonth(y, 2) == 31;
    assert DaysBeforeMonth(y, 3) == 31 + DaysInMonth(y, 2);
    assert DaysBeforeMonth(y, 4) == 62 + DaysInMonth(y, 2);
    assert DaysBeforeMonth(y, 5) == 92 + DaysInMonth(y, 2);
    assert DaysBeforeMonth(y, 6) == 123 + DaysInMonth(y, 2);
    assert DaysBeforeMonth(y, 7) == 153 + DaysInMonth(y, 2);
    assert DaysBeforeMonth(y, 8) == 184 + DaysInMonth(y, 2);
    assert DaysBeforeMonth(y, 9) == 215 + DaysInMonth(y, 2);
    assert DaysBeforeMonth(y, 10) == 245 + DaysInMonth(y, 2);
    assert DaysBeforeMonth(y, 11) == 276 + DaysInMonth(y, 2);
    assert DaysBeforeMonth(y, 12) == 306 + DaysInMonth(y, 2);
  }

  /** Going from `x - 1` to `x` crosses a multiple of 4 exactly when `x` is one; likewise for 100 and 400. */
  lemma Step4(x: int)
    ensures x / 4 - (x - 1) / 4 == if x % 4 == 0 then 1 else 0
  {
    var q, r := (x - 1) / 4, (x - 1) % 4;
    if r == 3 { assert x == 4 * (q + 1); } else { assert x == 4 * q + (r + 1); }
  }

  lemma Step100(x: int)
    ensures x / 100 - (x - 1) / 100 == if x % 100 == 0 then 1 else 0
  {
    var q, r := (x - 1) / 100, (x - 1) % 100;
    if r == 99 { assert x == 100 * (q + 1); } else { assert x == 100 * q + (r + 1); }
  }

  lemma Step400(x: int)
    ensures x / 400 - (x - 1) / 400 == if x % 400 == 0 then 1 else 0
  {
    var q, r := (x - 1) / 400, (x - 1) % 400;
    if r == 399 { assert x == 400 * (q + 1); } else { assert x == 400 * q + (r + 1); }
  }

  /** Stepping from year `x - 1` to `x` adds one leap day exactly when `x` is a leap year. */
  lemma LeapStep(x: int)
    requires x >= 1
    ensures x / 4 - (x - 1) / 4 - (x / 100 - (x - 1) / 100) + x / 400 - (x - 1) / 400
      == if IsLeapYear(x) then 1 else 0
  {
    Step4(x);
    Step100(x);
    Step400(x);
  }

  /** The Gregorian closed form: 365 days a year plus one for each leap year before `y`. */
  lemma {:induction false} DaysBeforeYearClosed(y: int)
    requires y >= 1
    ensures DaysBeforeYear(y) == 365 * (y - 1) + (y - 1) / 4 - (y - 1) / 100 + (y - 1) / 400
  {
    if y > 1 {
      DaysBeforeYearClosed(y - 1);
      LeapStep(y - 1);
    }
  }

  /** The day after `d`: `date.setDate(date.getDate() + 1)`. */
  function NextDay(d: CalendarDay): (r: CalendarDay)
    ensures DayNumber(r) == DayNumber(d) + 1
  {
    if d.day < DaysInMonth(d.year, d.month) then
      Date(d.year, d.month, d.day + 1)
    else if d.month < 12 then
      MonthEnd(d);
      Date(d.year, d.month + 1, 1)
    else
      YearEnd(d);
      Date(d.year + 1, 1, 1)
  }

  /** The last day of a month other than December is followed by the first of the next month. */
  lemma MonthEnd(d: CalendarDay)
    requires d.day == DaysInMonth(d.year, d.month) && d.month < 12
    ensures DayNumber(Date(d.year, d.month + 1, 1)) == DayNumber(d) + 1
  {
    assert DaysBeforeMonth(d.year, d.month + 1) == DaysBeforeMonth(d.year, d.month) + DaysInMonth(d.year, d.month);
  }

  /** New Year's Eve is followed by 1 January of the next year. */
  lemma YearEnd(d: CalendarDay)
    requires d.month == 12 && d.day == 31
    ensures DayNumber(Date(d.year + 1, 1, 1)) == DayNumber(d) + 1
  {
    YearLength(d.year);
    assert DaysBeforeYear(d.year + 1) == DaysBeforeYear(d.year) + if IsLeapYear(d.year) then 366 else 365;
  }

  /** Stepping a day from day `k` of a month gives day `k + 1`, or leaves the month after its last day. */
  lemma NextDayInMonth(ym: Month, k: int)
    requires 1 <= k <= DaysIn(ym)
    ensures k < DaysIn(ym) ==> NextDay(DayOf(ym, k)) == DayOf(ym, k + 1)
    ensures k == DaysIn(ym) ==> NextDay(DayOf(ym, k)).month != ym.month
  {
  }

  /** The weekday advances by one from each day to the next. */
  lemma NextWeekday(d: CalendarDay)
    ensures DayOfWeek(NextDay(d)) == (DayOfWeek(d) + 1) % 7
  {
    var n := DayNumber(d) + 1;
    assert DayNumber(NextDay(d)) + 1 == n + 1;
    ModStep(n);
  }

  /** Adding one to a number adds one to its remainder modulo 7, modulo 7. */
  lemma ModStep(n: int)
    ensures (n + 1) % 7 == (n % 7 + 1) % 7
  {
    var q, r := n / 7, n % 7;
    assert n == 7 * q + r && 0 <= r < 7;
    if r == 6 {
      assert n + 1 == 7 * (q + 1) + 0;
    } else {
      assert n + 1 == 7 * q + (r + 1);
    }
  }

  /** `d` moved `n` days forward. */
  function AddDays(d: CalendarDay, n: nat): (r: CalendarDay)
    ensures DayNumber(r) == DayNumber(d) + n
    decreases n
  {
    if n == 0 then d else AddDays(NextDay(d), n - 1)
  }

  /** Within one month, day numbers follow the day of the month. */
  lemma SameMonthOrder(a: CalendarDay, b: CalendarDay)
    requires a.year == b.year && a.month == b.month
    ensures DayNumber(b) - DayNumber(a) == b.day - a.day
  {
  }

  // ---------------------------------------------------------------------------
  // Textual forms
  // ---------------------------------------------------------------------------

  /**
   * `${yyyy}-${mm}-${dd}` with month and day padded to two digits and the year as
   * `String(year)`: the key of `generateCalendarDays`, `toYMD` and the sheet builders.
   */
  function FormatYMD(d: CalendarDay): string
  {
    NatToDecimal(d.year) + "-" + PadStart2(NatToDecimal(d.month)) + "-" + PadStart2(NatToDecimal(d.day))
  }

  /** `toLocaleDateString("en-US")`: "M/D/YYYY" without padding, as records store it. */
  function FormatMDY(d: CalendarDay): string
  {
    NatToDecimal(d.month) + "/" + NatToDecimal(d.day) + "/" + NatToDecimal(d.year)
  }

  /** Reads a "Y-M-D" text of three digit groups back into a triple. */
  function ParseYMD(s: string): Option<Date>
  {
    var parts := Split(s, '-');
    if |parts| == 3 && AllDigits(parts[0]) && AllDigits(parts[1]) && AllDigits(parts[2]) then
      Some(Date(DecimalValue(parts[0]), DecimalValue(parts[1]), DecimalValue(parts[2])))
    else None
  }

  lemma NoDash(s: string)
    requires AllDigits(s)
    ensures '-' !in s && '/' !in s
  {
  }

  /** The three fields of the `YYYY-MM-DD` key are digit strings denoting year, month and day. */
  lemma KeyFields(d: CalendarDay)
    ensures var y, m, dd := NatToDecimal(d.year), PadStart2(NatToDecimal(d.month)), PadStart2(NatToDecimal(d.day));
      AllDigits(y) && AllDigits(m) && AllDigits(dd) && |m| == 2 && |dd| == 2
      && DecimalValue(y) == d.year && DecimalValue(m) == d.month && DecimalValue(dd) == d.day
  {
    NatToDecimalDigits(d.year); NatToDecimalDigits(d.month); NatToDecimalDigits(d.day);
    PadStart2Value(NatToDecimal(d.month));
    PadStart2Value(NatToDecimal(d.day));
  }

  /**
   * The `YYYY-MM-DD` key reads back as the day it was built from, so two days have the
   * same key exactly when they are the same day; its month and day fields are two digits.
   */
  lemma FormatYMDParses(d: CalendarDay)
    ensures ParseYMD(FormatYMD(d)) == Some(d)
    ensures |PadStart2(NatToDecimal(d.month))| == 2 && |PadStart2(NatToDecimal(d.day))| == 2
  {
    var y, m, dd := NatToDecimal(d.year), PadStart2(NatToDecimal(d.month)), PadStart2(NatToDecimal(d.day));
    KeyFields(d);
    NoDash(y); NoDash(m); NoDash(dd);
    var parts := [y, m, dd];
    assert Join(parts, '-') == FormatYMD(d) by {
      assert Join(parts[2..], '-') == dd;
      assert Join(parts[1..], '-') == m + "-" + dd;
    }
    SplitJoin(parts, '-');
  }

  /** Distinct days have distinct keys. */
  lemma FormatYMDInjective(a: CalendarDay, b: CalendarDay)
    requires FormatYMD(a) == FormatYMD(b)
    ensures a == b
  {
    FormatYMDParses(a);
    FormatYMDParses(b);
  }

  /** Friday 7 June 2024, the example day of the sandwich-leave policy. */
  lemma KnownWeekdays(fri: CalendarDay)
    requires fri == Date(2024, 6, 7)
    ensures DayNumber(fri) == 739043 && DayOfWeek(fri) == 5
  {
    DaysBeforeYearClosed(fri.year);
  }

  /** The number of days 1..k of `ym` that are not Saturday or Sunday. */
  function WorkingDaysUpTo(ym: Month, k: int): (n: int)
    requires 0 <= k <= DaysIn(ym)
    ensures 0 <= n <= k
  {
    if k == 0 then 0
    else WorkingDaysUpTo(ym, k - 1) + if IsWeekend(DayOf(ym, k)) then 0 else 1
  }
}
