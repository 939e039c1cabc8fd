/**
  Fields of the Persian (Jalali) calendar and the converter that ties them to instants.

  The conversion itself (Gregorian to Jalali, the leap-year rule, start and end of a month)
  belongs to the persianDate library, which is not part of this model. It is represented by a
  `Converter` value: a record of functions passed to every operation, together with `Lawful`,
  the laws such a converter is assumed to satisfy.
*/
module Calendar {

  /** Milliseconds in one day. */
  const DayMs: int := 86_400_000

  /** A Jalali date as persianDate reports it: month 1..12, day 1..length of the month. */
  datatype CalendarDate = CalendarDate(year: int, month: int, day: int)

  /**
    The Jalali month-length table: Farvardin to Shahrivar have 31 days, Mehr to Bahman 30,
    and Esfand 29, or 30 in a leap year.
  */
  function DaysInMonth(month: int, leap: bool): (n: int)
    ensures 29 <= n <= 31
    ensures 1 <= month <= 6 ==> n == 31
    ensures 7 <= month <= 11 ==> n == 30
    ensures month == 12 ==> (n == 30 <==> leap)
  {
    if month <= 6 then 31 else if month <= 11 then 30 else if leap then 30 else 29
  }

  /** A date that exists in the calendar whose leap years are `isLeap`. */
  predicate ValidDate(isLeap: int -> bool, d: CalendarDate) {
    1 <= d.month <= 12 && 1 <= d.day <= DaysInMonth(d.month, isLeap(d.year))
  }

  /** The number of months from month 1 of year 0 to `d`'s month; orders (year, month) pairs. */
  function MonthIndex(d: CalendarDate): int {
    12 * d.year + (d.month - 1)
  }

  /**
    The date persianDate builds from a year, a month number that may lie outside 1..12, and a
    day: surplus or missing months roll over into the following or the preceding years.
  */
  function Normalize(year: int, month: int, day: int): (d: CalendarDate)
    ensures 1 <= d.month <= 12 && d.day == day
    ensures MonthIndex(d) == 12 * year + (month - 1)
    ensures 1 <= month <= 12 ==> d == CalendarDate(year, month, day)
  {
    CalendarDate(year + (month - 1) / 12, (month - 1) % 12 + 1, day)
  }

  /** The calendar date that follows `d`. */
  function NextDay(isLeap: int -> bool, d: CalendarDate): CalendarDate {
    if d.day < DaysInMonth(d.month, isLeap(d.year)) then CalendarDate(d.year, d.month, d.day + 1)
    else if d.month < 12 then CalendarDate(d.year, d.month + 1, 1)
    else CalendarDate(d.year + 1, 1, 1)
  }

  /**
    The calendar conversion the datepicker delegates to persianDate. Days are numbered
    consecutively; `dateOfDay` and `dayOfDate` convert between day numbers and calendar dates.
    `zone` is the fixed offset, in milliseconds, of local time from the epoch's time scale, and
    `weekdayOfDayZero` the day-of-week number of day 0.
  */
  datatype Converter = Converter(
    isLeap: int -> bool,
    dateOfDay: int -> CalendarDate,
    dayOfDate: CalendarDate -> int,
    zone: int,
    weekdayOfDayZero: int)

  /** Day `n + 1` is the calendar date after day `n`. */
  ghost predicate Consecutive(c: Converter, n: int) {
    c.dateOfDay(n + 1) == NextDay(c.isLeap, c.dateOfDay(n))
  }

  /**
    The laws a converter is assumed to obey: every day has a valid date, day numbers and valid
    dates correspond one to one, and consecutive days carry consecutive dates.
  */
  ghost predicate Lawful(c: Converter) {
    && (forall n: int :: ValidDate(c.isLeap, c.dateOfDay(n)))
    && (forall n: int :: c.dayOfDate(c.dateOfDay(n)) == n)
    && (forall d: CalendarDate :: ValidDate(c.isLeap, d) ==> c.dateOfDay(c.dayOfDate(d)) == d)
    && (forall n: int :: Consecutive(c, n))
  }

  // ----- Instants: integer milliseconds since the epoch -----

  /** The local day an instant falls on. */
  function DayNumber(zone: int, t: int): int {
    (t + zone) / DayMs
  }

  /** Milliseconds since local midnight. */
  function TimeOfDay(zone: int, t: int): (ms: int)
    ensures 0 <= ms < DayMs
  {
    (t + zone) % DayMs
  }

  /** The instant of the local midnight that starts `t`'s day (what `setHours(0, 0, 0, 0)` does). */
  function Midnight(zone: int, t: int): int {
    t - TimeOfDay(zone, t)
  }

  /** The calendar fields of an instant (`persianDate(t).year()`, `.month()`, `.date()`). */
  function DateOf(c: Converter, t: int): CalendarDate {
    c.dateOfDay(DayNumber(c.zone, t))
  }

  /** The local midnight that starts a date (`persianDate([year, month, day]).toDate()`). */
  function InstantOf(c: Converter, d: CalendarDate): int {
    c.dayOfDate(d) * DayMs - c.zone
  }

  /** The day-of-week number of an instant (`persianDate(t).day()`). */
  function Weekday(c: Converter, t: int): (w: int)
    ensures 0 <= w < 7
  {
    (DayNumber(c.zone, t) + c.weekdayOfDayZero) % 7
  }

  // ----- Facts about instants -----

  /** Midnight starts the day of `t`: it is the day's only instant with time of day zero. */
  lemma MidnightFacts(zone: int, t: int)
    ensures Midnight(zone, t) <= t < Midnight(zone, t) + DayMs
    ensures Midnight(zone, t) == DayNumber(zone, t) * DayMs - zone
    ensures TimeOfDay(zone, Midnight(zone, t)) == 0
    ensures DayNumber(zone, Midnight(zone, t)) == DayNumber(zone, t)
    ensures Midnight(zone, Midnight(zone, t)) == Midnight(zone, t)
  {
    ShiftDays(zone, Midnight(zone, t), 0, TimeOfDay(zone, t));
  }

  /** Adding whole days and a time of day to a midnight moves the day number and nothing else. */
  lemma ShiftDays(zone: int, m: int, k: int, ms: int)
    requires TimeOfDay(zone, m) == 0
    requires 0 <= ms < DayMs
    ensures DayNumber(zone, m + k * DayMs + ms) == DayNumber(zone, m) + k
    ensures TimeOfDay(zone, m + k * DayMs + ms) == ms
  {
    var q := DayNumber(zone, m);
    assert m + zone == q * DayMs;
    DivModUnique(m + k * DayMs + ms + zone, q + k, ms);
  }

  /** Euclidean division by a day is determined by quotient and remainder. */
  lemma DivModUnique(x: int, q: int, r: int)
    requires x == q * DayMs + r && 0 <= r < DayMs
    ensures x / DayMs == q && x % DayMs == r
  {
  }

  /** Two instants are on the same local day exactly when they share a midnight. */
  lemma SameMidnightIffSameDayNumber(zone: int, a: int, b: int)
    ensures Midnight(zone, a) == Midnight(zone, b) <==> DayNumber(zone, a) == DayNumber(zone, b)
  {
    MidnightFacts(zone, a);
    MidnightFacts(zone, b);
  }

  /** An instant built from a valid date plus a time of day reads back as that date. */
  lemma InstantOfRoundTrip(c: Converter, d: CalendarDate, ms: int)
    requires Lawful(c) && ValidDate(c.isLeap, d)
    requires 0 <= ms < DayMs
    ensures DayNumber(c.zone, InstantOf(c, d) + ms) == c.dayOfDate(d)
    ensures TimeOfDay(c.zone, InstantOf(c, d) + ms) == ms
    ensures DateOf(c, InstantOf(c, d) + ms) == d
  {
    DivModUnique(InstantOf(c, d) + ms + c.zone, c.dayOfDate(d), ms);
  }

  // ----- Facts about a lawful converter -----

  /** Within one month, day k is k - 1 days after day 1. */
  lemma {:induction false} DayOfDateInMonth(c: Converter, y: int, m: int, k: int)
    requires Lawful(c)
    requires ValidDate(c.isLeap, CalendarDate(y, m, k))
    ensures c.dayOfDate(CalendarDate(y, m, k)) == c.dayOfDate(CalendarDate(y, m, 1)) + k - 1
    decreases k
  {
    if k > 1 {
      var prev := CalendarDate(y, m, k - 1);
      DayOfDateInMonth(c, y, m, k - 1);
      var p := c.dayOfDate(prev);
      assert c.dateOfDay(p) == prev;
      assert Consecutive(c, p);
      assert c.dateOfDay(p + 1) == CalendarDate(y, m, k);
    }
  }

  /** The day number of an instant is its day of month, counted from the month's first day. */
  lemma DayNumberInMonth(c: Converter, t: int)
    requires Lawful(c)
    ensures var d := DateOf(c, t);
      DayNumber(c.zone, t) == c.dayOfDate(CalendarDate(d.year, d.month, 1)) + d.day - 1
  {
    var d := DateOf(c, t);
    DayOfDateInMonth(c, d.year, d.month, d.day);
  }

  /** The date after a valid date is valid and lies in the same month or the next one. */
  lemma NextDayFacts(isLeap: int -> bool, d: CalendarDate)
    requires ValidDate(isLeap, d)
    ensures ValidDate(isLeap, NextDay(isLeap, d))
    ensures var e := NextDay(isLeap, d);
      (MonthIndex(e) == MonthIndex(d) && e.day == d.day + 1) ||
      (MonthIndex(e) == MonthIndex(d) + 1 && e.day == 1)
  {
  }

  /** Later days never carry an earlier (year, month). */
  lemma {:induction false} MonthIndexMonotone(c: Converter, n1: int, n2: int)
    requires Lawful(c) && n1 <= n2
    ensures MonthIndex(c.dateOfDay(n1)) <= MonthIndex(c.dateOfDay(n2))
    decreases n2 - n1
  {
    if n1 < n2 {
      MonthIndexMonotone(c, n1, n2 - 1);
      assert Consecutive(c, n2 - 1);
      NextDayFacts(c.isLeap, c.dateOfDay(n2 - 1));
    }
  }
}
