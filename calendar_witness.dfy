/**
  A concrete converter for a Jalali-shaped calendar in which no year is a leap year: day 0 is
  Farvardin 1 of year 0 and every year has 365 days. It shows that the converter laws of
  `Calendar.Lawful` can all hold together.
*/
module CalendarWitness {
  import opened Wrappers
  import opened Calendar
  import DateUtil

  /** Days in a common year. */
  const YearDays: int := 365

  /** Days of the year before the first day of `month`. */
  function MonthStart(month: int): int {
    if month <= 7 then (month - 1) * 31 else (month - 1) * 30 + 6
  }

  /** The month a zero-based day of a common year falls in. */
  function MonthOfDayOfYear(r: int): (m: int)
    requires 0 <= r < YearDays
    ensures 1 <= m <= 12
    ensures MonthStart(m) <= r < MonthStart(m) + DaysInMonth(m, false)
  {
    if r < 186 then r / 31 + 1 else (r - 186) / 30 + 7
  }

  function NeverLeap(year: int): bool {
    false
  }

  function CommonDateOfDay(n: int): CalendarDate {
    var r := n % YearDays;
    var m := MonthOfDayOfYear(r);
    CalendarDate(n / YearDays, m, r - MonthStart(m) + 1)
  }

  function CommonDayOfDate(d: CalendarDate): int {
    YearDays * d.year + MonthStart(d.month) + d.day - 1
  }

  function CommonConverter(): Converter {
    Converter(NeverLeap, CommonDateOfDay, CommonDayOfDate, 0, 0)
  }

  /** The day of the year of a valid date lies within the year, in the date's month. */
  lemma DayOfYearInMonth(d: CalendarDate)
    requires ValidDate(NeverLeap, d)
    ensures 0 <= MonthStart(d.month) + d.day - 1 < YearDays
    ensures MonthOfDayOfYear(MonthStart(d.month) + d.day - 1) == d.month
  {
  }

  /** The day after a valid date is one day number later. */
  lemma NextDayIsOneLater(d: CalendarDate)
    requires ValidDate(NeverLeap, d)
    ensures CommonDayOfDate(NextDay(NeverLeap, d)) == CommonDayOfDate(d) + 1
  {
  }

  /** The common-year converter obeys every converter law. */
  lemma CommonConverterIsLawful()
    ensures Lawful(CommonConverter())
  {
    var c := CommonConverter();
    forall n: int ensures ValidDate(c.isLeap, c.dateOfDay(n)) && c.dayOfDate(c.dateOfDay(n)) == n {
      var r := n % YearDays;
      assert n == YearDays * (n / YearDays) + r;
    }
    forall d: CalendarDate | ValidDate(c.isLeap, d) ensures c.dateOfDay(c.dayOfDate(d)) == d {
      DayOfYearInMonth(d);
      var r := MonthStart(d.month) + d.day - 1;
      var n := CommonDayOfDate(d);
      assert n / YearDays == d.year && n % YearDays == r;
    }
    forall n: int ensures Consecutive(c, n) {
      var d := c.dateOfDay(n);
      NextDayIsOneLater(d);
      var e := NextDay(c.isLeap, d);
      assert ValidDate(c.isLeap, e);
      assert c.dayOfDate(e) == n + 1;
      assert c.dateOfDay(c.dayOfDate(e)) == e;
    }
  }

  /**
    On this calendar, day 130 is Mordad 7 of year 0 and day 396 is Ordibehesht 1 of year 1: the
    month-range check as written lets the earlier date through against the later minimum.
  */
  lemma MonthRangeQuirkExample()
    ensures CommonDateOfDay(130) == CalendarDate(0, 5, 7)
    ensures CommonDateOfDay(396) == CalendarDate(1, 2, 1)
    ensures DateUtil.IsMonthWithinRange(CommonConverter(), 130 * DayMs, Some(396 * DayMs), None)
    ensures !DateUtil.IsMonthWithinRangeLexicographic(CommonConverter(), 130 * DayMs, Some(396 * DayMs), None)
  {
    var c := CommonConverter();
    assert DayNumber(c.zone, 130 * DayMs) == 130;
    assert DayNumber(c.zone, 396 * DayMs) == 396;
  }
}
