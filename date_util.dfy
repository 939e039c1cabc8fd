/**
  The datepicker's date utilities for the Persian (Jalali) calendar: month navigation,
  comparisons, distances, week of month, increments, midnight normalisation and range checks.
  Every operation receives the calendar converter `c` explicitly; instants are integer
  milliseconds since the epoch.
*/
module DateUtil {
  import opened Wrappers
  import opened Calendar

  function Min(a: int, b: int): int {
    if a <= b then a else b
  }

  // ----- Month boundaries -----

  /** getFirstDateOfMonth: local midnight of day 1 of `t`'s month. */
  function FirstDateOfMonth(c: Converter, t: int): int {
    var d := DateOf(c, t);
    InstantOf(c, CalendarDate(d.year, d.month, 1))
  }

  /** The first date of the month is a midnight, on day 1 of the same month, `day - 1` days before `t`'s midnight. */
  lemma FirstDateOfMonthSpec(c: Converter, t: int)
    requires Lawful(c)
    ensures var f := FirstDateOfMonth(c, t); var d := DateOf(c, t);
      && DateOf(c, f) == CalendarDate(d.year, d.month, 1)
      && TimeOfDay(c.zone, f) == 0
      && f == Midnight(c.zone, t) - (d.day - 1) * DayMs
      && f <= t
  {
    var d := DateOf(c, t);
    InstantOfRoundTrip(c, CalendarDate(d.year, d.month, 1), 0);
    DayNumberInMonth(c, t);
    MidnightFacts(c.zone, t);
  }

  /** getNumberOfDaysInMonth: the length of `t`'s month, from the leap-aware table. */
  function NumberOfDaysInMonth(c: Converter, t: int): int {
    var d := DateOf(c, t);
    DaysInMonth(d.month, c.isLeap(d.year))
  }

  /**
    getLastDateOfMonth, reduced to its calendar fields (the source returns a persianDate object
    at the end of the month's last day).
  */
  function LastDateOfMonth(c: Converter, t: int): CalendarDate {
    var d := DateOf(c, t);
    CalendarDate(d.year, d.month, NumberOfDaysInMonth(c, t))
  }

  /**
    The month of `t` is exactly `NumberOfDaysInMonth` days long: its last date is valid, not
    before `t`'s date, and that many days after its first date the next month begins.
  */
  lemma MonthLengthSpec(c: Converter, t: int)
    requires Lawful(c)
    ensures var d := DateOf(c, t); var last := LastDateOfMonth(c, t);
      && ValidDate(c.isLeap, last)
      && MonthIndex(last) == MonthIndex(d)
      && d.day <= last.day
      && NextDay(c.isLeap, last) == Normalize(d.year, d.month + 1, 1)
      && DateOf(c, FirstDateOfMonth(c, t) + NumberOfDaysInMonth(c, t) * DayMs) == Normalize(d.year, d.month + 1, 1)
  {
    var d := DateOf(c, t);
    var last := LastDateOfMonth(c, t);
    var f := FirstDateOfMonth(c, t);
    var len := NumberOfDaysInMonth(c, t);
    DayOfDateInMonth(c, d.year, d.month, len);
    InstantOfRoundTrip(c, last, 0);
    var p := c.dayOfDate(last);
    assert Consecutive(c, p);
    assert InstantOf(c, last) + DayMs == f + len * DayMs;
    MidnightFacts(c.zone, InstantOf(c, last));
    ShiftDays(c.zone, InstantOf(c, last), 1, 0);
  }

  // ----- Month navigation -----

  /** getDateInNextMonth: day 1 of the month after `t`'s month; month 13 rolls into the next year. */
  function DateInNextMonth(c: Converter, t: int): int {
    var d := DateOf(c, t);
    InstantOf(c, Normalize(d.year, d.month + 1, 1))
  }

  /** getDateInPreviousMonth: day 1 of the month before `t`'s month; month 0 rolls into the previous year. */
  function DateInPreviousMonth(c: Converter, t: int): int {
    var d := DateOf(c, t);
    InstantOf(c, Normalize(d.year, d.month - 1, 1))
  }

  /** The next-month date is midnight of day 1 of the successor month, one month away. */
  lemma DateInNextMonthSpec(c: Converter, t: int)
    requires Lawful(c)
    ensures var d := DateOf(c, t); var r := DateOf(c, DateInNextMonth(c, t));
      && r == (if d.month == 12 then CalendarDate(d.year + 1, 1, 1) else CalendarDate(d.year, d.month + 1, 1))
      && MonthDistance(c, t, DateInNextMonth(c, t)) == 1
      && TimeOfDay(c.zone, DateInNextMonth(c, t)) == 0
  {
    var d := DateOf(c, t);
    InstantOfRoundTrip(c, Normalize(d.year, d.month + 1, 1), 0);
  }

  /** The previous-month date is midnight of day 1 of the preceding month, minus one month away. */
  lemma DateInPreviousMonthSpec(c: Converter, t: int)
    requires Lawful(c)
    ensures var d := DateOf(c, t); var r := DateOf(c, DateInPreviousMonth(c, t));
      && r == (if d.month == 1 then CalendarDate(d.year - 1, 12, 1) else CalendarDate(d.year, d.month - 1, 1))
      && MonthDistance(c, t, DateInPreviousMonth(c, t)) == -1
      && TimeOfDay(c.zone, DateInPreviousMonth(c, t)) == 0
  {
    var d := DateOf(c, t);
    InstantOfRoundTrip(c, Normalize(d.year, d.month - 1, 1), 0);
  }

  // ----- Comparisons -----

  /** isSameMonthAndYear: equal Jalali year and month. */
  function IsSameMonthAndYear(c: Converter, a: int, b: int): bool {
    DateOf(c, a).year == DateOf(c, b).year && DateOf(c, a).month == DateOf(c, b).month
  }

  /** isSameDay: equal Jalali year, month and day, whatever the times of day. */
  function IsSameDay(c: Converter, a: int, b: int): (r: bool)
    ensures r ==> IsSameMonthAndYear(c, a, b)
  {
    DateOf(c, a).year == DateOf(c, b).year && DateOf(c, a).month == DateOf(c, b).month
      && DateOf(c, a).day == DateOf(c, b).day
  }

  /** Both comparisons are reflexive and symmetric. */
  lemma ComparisonsReflexiveSymmetric(c: Converter, a: int, b: int)
    ensures IsSameDay(c, a, a) && IsSameMonthAndYear(c, a, a)
    ensures IsSameDay(c, a, b) == IsSameDay(c, b, a)
    ensures IsSameMonthAndYear(c, a, b) == IsSameMonthAndYear(c, b, a)
  {
  }

  /** Two instants are the same day exactly when their local midnights coincide. */
  lemma SameDayIffSameMidnight(c: Converter, a: int, b: int)
    requires Lawful(c)
    ensures IsSameDay(c, a, b) <==> Midnight(c.zone, a) == Midnight(c.zone, b)
  {
    SameMidnightIffSameDayNumber(c.zone, a, b);
    if IsSameDay(c, a, b) {
      assert DateOf(c, a) == DateOf(c, b);
      assert c.dayOfDate(c.dateOfDay(DayNumber(c.zone, a))) == DayNumber(c.zone, a);
      assert c.dayOfDate(c.dateOfDay(DayNumber(c.zone, b))) == DayNumber(c.zone, b);
    }
  }

  /** Same month and year exactly when the month distance is zero. */
  lemma SameMonthIffZeroDistance(c: Converter, a: int, b: int)
    requires Lawful(c)
    ensures IsSameMonthAndYear(c, a, b) <==> MonthDistance(c, a, b) == 0
  {
    assert ValidDate(c.isLeap, DateOf(c, a)) && ValidDate(c.isLeap, DateOf(c, b));
  }

  /** isInNextMonth: `end` lies in the month after `start`'s month. */
  function IsInNextMonth(c: Converter, start: int, end: int): bool {
    IsSameMonthAndYear(c, DateInNextMonth(c, start), end)
  }

  /** isInPreviousMonth: `end` lies in the month before `start`'s month. */
  function IsInPreviousMonth(c: Converter, start: int, end: int): bool {
    IsSameMonthAndYear(c, end, DateInPreviousMonth(c, start))
  }

  /**
    `end` is in the next month exactly when its (year, month) is the successor of `start`'s,
    that is, exactly when the month distance is one; and "previous" is "next" seen from the other side.
  */
  lemma AdjacentMonthSpec(c: Converter, start: int, end: int)
    requires Lawful(c)
    ensures var s := DateOf(c, start); var e := DateOf(c, end);
      IsInNextMonth(c, start, end) <==>
        (e.year, e.month) == (if s.month == 12 then (s.year + 1, 1) else (s.year, s.month + 1))
    ensures IsInNextMonth(c, start, end) <==> MonthDistance(c, start, end) == 1
    ensures IsInPreviousMonth(c, start, end) <==> MonthDistance(c, start, end) == -1
    ensures IsInPreviousMonth(c, start, end) <==> IsInNextMonth(c, end, start)
  {
    DateInNextMonthSpec(c, start);
    DateInPreviousMonthSpec(c, start);
    DateInNextMonthSpec(c, end);
    assert ValidDate(c.isLeap, DateOf(c, start)) && ValidDate(c.isLeap, DateOf(c, end));
  }

  // ----- Distances -----

  /** getMonthDistance: months between the (year, month) of `start` and of `end`; the day is ignored. */
  function MonthDistance(c: Converter, start: int, end: int): int {
    12 * (DateOf(c, end).year - DateOf(c, start).year) + (DateOf(c, end).month - DateOf(c, start).month)
  }

  /** getYearDistance: years between the Jalali years of `start` and `end`. */
  function YearDistance(c: Converter, start: int, end: int): int {
    DateOf(c, end).year - DateOf(c, start).year
  }

  /** Month distance is the difference of month indices: antisymmetric and additive. */
  lemma MonthDistanceAlgebra(c: Converter, a: int, b: int, x: int)
    ensures MonthDistance(c, a, b) == MonthIndex(DateOf(c, b)) - MonthIndex(DateOf(c, a))
    ensures MonthDistance(c, a, b) == -MonthDistance(c, b, a)
    ensures MonthDistance(c, a, x) == MonthDistance(c, a, b) + MonthDistance(c, b, x)
    ensures MonthDistance(c, a, a) == 0
  {
  }

  /** Year distance is the difference of the years holding both months; antisymmetric, zero within one month. */
  lemma YearDistanceSpec(c: Converter, a: int, b: int)
    requires Lawful(c)
    ensures YearDistance(c, a, b) == MonthIndex(DateOf(c, b)) / 12 - MonthIndex(DateOf(c, a)) / 12
    ensures YearDistance(c, a, b) == -YearDistance(c, b, a)
    ensures IsSameMonthAndYear(c, a, b) ==> YearDistance(c, a, b) == 0
  {
    assert ValidDate(c.isLeap, DateOf(c, a)) && ValidDate(c.isLeap, DateOf(c, b));
  }

  /** Distances follow time: neither is negative when `end` is not before `start`. */
  lemma DistancesFollowTime(c: Converter, start: int, end: int)
    requires Lawful(c) && start <= end
    ensures MonthDistance(c, start, end) >= 0
    ensures YearDistance(c, start, end) >= 0
  {
    assert DayNumber(c.zone, start) <= DayNumber(c.zone, end);
    MonthIndexMonotone(c, DayNumber(c.zone, start), DayNumber(c.zone, end));
    assert ValidDate(c.isLeap, DateOf(c, start)) && ValidDate(c.isLeap, DateOf(c, end));
  }

  // ----- Week of month -----

  /** getWeekOfMonth: zero-based week index, floor((weekday of day 1 + day - 1) / 7). */
  function WeekOfMonth(c: Converter, t: int): int {
    (Weekday(c, FirstDateOfMonth(c, t)) + DateOf(c, t).day - 1) / 7
  }

  /** The first date of a month is in week 0, and no date is past week 5. */
  lemma WeekOfMonthBounds(c: Converter, t: int)
    requires Lawful(c)
    ensures 0 <= WeekOfMonth(c, t) <= 5
    ensures DateOf(c, t).day == 1 ==> WeekOfMonth(c, t) == 0
    ensures WeekOfMonth(c, FirstDateOfMonth(c, t)) == 0
  {
    assert ValidDate(c.isLeap, DateOf(c, t));
    FirstDateOfMonthSpec(c, t);
    var f := FirstDateOfMonth(c, t);
    FirstDateOfMonthSpec(c, f);
  }

  /** Within one month the week index never decreases as the day grows. */
  lemma WeekOfMonthMonotone(c: Converter, a: int, b: int)
    requires IsSameMonthAndYear(c, a, b) && DateOf(c, a).day <= DateOf(c, b).day
    ensures WeekOfMonth(c, a) <= WeekOfMonth(c, b)
  {
    assert FirstDateOfMonth(c, a) == FirstDateOfMonth(c, b);
  }

  /** Seven days later, still in the same month, is exactly one week later. */
  lemma WeekOfMonthNextWeek(c: Converter, t: int)
    requires Lawful(c)
    requires IsSameMonthAndYear(c, t, IncrementDays(t, 7))
    ensures DateOf(c, IncrementDays(t, 7)).day == DateOf(c, t).day + 7
    ensures WeekOfMonth(c, IncrementDays(t, 7)) == WeekOfMonth(c, t) + 1
  {
    var u := IncrementDays(t, 7);
    MidnightFacts(c.zone, t);
    ShiftDays(c.zone, Midnight(c.zone, t), 7, TimeOfDay(c.zone, t));
    DayNumberInMonth(c, t);
    DayNumberInMonth(c, u);
    assert FirstDateOfMonth(c, t) == FirstDateOfMonth(c, u);
  }

  // ----- Increments -----

  /** incrementDays: the same time of day, `n` local days later (earlier when `n` is negative). */
  function IncrementDays(t: int, n: int): int {
    t + n * DayMs
  }

  /** Adding days moves the day number by `n` and keeps the time of day; one day on is the next date; it can be undone. */
  lemma IncrementDaysSpec(c: Converter, t: int, n: int)
    requires Lawful(c)
    ensures DayNumber(c.zone, IncrementDays(t, n)) == DayNumber(c.zone, t) + n
    ensures TimeOfDay(c.zone, IncrementDays(t, n)) == TimeOfDay(c.zone, t)
    ensures DateOf(c, IncrementDays(t, 1)) == NextDay(c.isLeap, DateOf(c, t))
    ensures IncrementDays(IncrementDays(t, n), -n) == t
  {
    MidnightFacts(c.zone, t);
    ShiftDays(c.zone, Midnight(c.zone, t), n, TimeOfDay(c.zone, t));
    ShiftDays(c.zone, Midnight(c.zone, t), 1, TimeOfDay(c.zone, t));
    assert Consecutive(c, DayNumber(c.zone, t));
  }

  /**
    incrementMonths: the same day of month `n` months later (earlier when `n` is negative),
    clamped to the last day of the target month when that month is shorter; the time of day is kept.
  */
  function IncrementMonths(c: Converter, t: int, n: int): int {
    var d := DateOf(c, t);
    var target := Normalize(d.year, d.month + n, 1);
    var day := Min(d.day, DaysInMonth(target.month, c.isLeap(target.year)));
    InstantOf(c, CalendarDate(target.year, target.month, day)) + TimeOfDay(c.zone, t)
  }

  /**
    The result is exactly `n` months away, at the same time of day; it keeps the day of month
    when the target month has it, and otherwise lands on the target month's last day, never in
    the month after.
  */
  lemma IncrementMonthsSpec(c: Converter, t: int, n: int)
    requires Lawful(c)
    ensures var r := IncrementMonths(c, t, n); var d := DateOf(c, t); var e := DateOf(c, r);
      && MonthDistance(c, t, r) == n
      && TimeOfDay(c.zone, r) == TimeOfDay(c.zone, t)
      && 1 <= e.day <= d.day
      && (d.day <= NumberOfDaysInMonth(c, r) ==> e.day == d.day)
      && (d.day > NumberOfDaysInMonth(c, r) ==> e == LastDateOfMonth(c, r))
  {
    var d := DateOf(c, t);
    var target := Normalize(d.year, d.month + n, 1);
    var day := Min(d.day, DaysInMonth(target.month, c.isLeap(target.year)));
    assert ValidDate(c.isLeap, d);
    InstantOfRoundTrip(c, CalendarDate(target.year, target.month, day), TimeOfDay(c.zone, t));
  }

  /**
    A month 31 days long followed by a 30-day month: one month after its last day is the 30th,
    the last day of the shorter month.
  */
  lemma IncrementMonthsClampsToShorterMonth(c: Converter, t: int)
    requires Lawful(c)
    requires DateOf(c, t).month == 6 && DateOf(c, t).day == 31
    ensures DateOf(c, IncrementMonths(c, t, 1)) == CalendarDate(DateOf(c, t).year, 7, 30)
  {
    var d := DateOf(c, t);
    InstantOfRoundTrip(c, CalendarDate(d.year, 7, 30), TimeOfDay(c.zone, t));
  }

  /** incrementYears: `12 * n` months on, with the same clamping. */
  function IncrementYears(c: Converter, t: int, n: int): int {
    IncrementMonths(c, t, n * 12)
  }

  /**
    The result is `n` years away in the same month at the same time of day; the day of month is
    kept except when it is missing from the target year (Esfand 30 into a common year), which
    gives Esfand 29.
  */
  lemma IncrementYearsSpec(c: Converter, t: int, n: int)
    requires Lawful(c)
    ensures var r := IncrementYears(c, t, n); var d := DateOf(c, t); var e := DateOf(c, r);
      && YearDistance(c, t, r) == n
      && e.month == d.month
      && TimeOfDay(c.zone, r) == TimeOfDay(c.zone, t)
      && (e.day == d.day || (d.month == 12 && d.day == 30 && e.day == 29 && !c.isLeap(e.year)))
  {
    IncrementMonthsSpec(c, t, n * 12);
    var d := DateOf(c, t);
    var e := DateOf(c, IncrementYears(c, t, n));
    assert ValidDate(c.isLeap, d) && ValidDate(c.isLeap, e);
  }

  // ----- Midpoint -----

  /** JavaScript's conversion of a number to a time value truncates toward zero. */
  function TruncHalf(x: int): (h: int)
    ensures x >= 0 ==> 2 * h == x || 2 * h == x - 1
    ensures x < 0 ==> 2 * h == x || 2 * h == x + 1
    ensures x >= 0 ==> 0 <= h <= x
    ensures x <= 0 ==> x <= h <= 0
  {
    if x >= 0 then x / 2 else -((-x) / 2)
  }

  /** getDateMidpoint: local midnight of the linear midpoint of two instants. */
  function DateMidpoint(zone: int, t1: int, t2: int): int {
    Midnight(zone, TruncHalf(t1 + t2))
  }

  /**
    The midpoint is a midnight that lies between the midnight of the earlier instant and the
    later instant; ten days apart, it is five days after the first instant's midnight.
  */
  lemma DateMidpointSpec(zone: int, t1: int, t2: int)
    requires t1 <= t2
    ensures TimeOfDay(zone, DateMidpoint(zone, t1, t2)) == 0
    ensures Midnight(zone, t1) <= DateMidpoint(zone, t1, t2) <= t2
    ensures t2 == IncrementDays(t1, 10) ==> DateMidpoint(zone, t1, t2) == Midnight(zone, t1) + 5 * DayMs
  {
    var h := TruncHalf(t1 + t2);
    MidnightFacts(zone, h);
    MidnightFacts(zone, t1);
    assert t1 <= h;
    MidnightMonotone(zone, t1, h);
    if t2 == IncrementDays(t1, 10) {
      assert h == t1 + 5 * DayMs;
      ShiftDays(zone, Midnight(zone, t1), 5, TimeOfDay(zone, t1));
    }
  }

  /** Later instants never have an earlier midnight. */
  lemma MidnightMonotone(zone: int, a: int, b: int)
    requires a <= b
    ensures Midnight(zone, a) <= Midnight(zone, b)
  {
    MidnightFacts(zone, a);
    MidnightFacts(zone, b);
    assert DayNumber(zone, a) <= DayNumber(zone, b);
  }

  // ----- JavaScript Date objects -----

  /** The time value of a JavaScript Date: a number of milliseconds, or NaN for an invalid date. */
  datatype TimeValue = NaN | Ms(ms: int)

  /** A JavaScript Date: an object whose time value `setHours` changes in place. */
  class DateObject {
    var time: TimeValue

    /** `new Date(value)` for a number or another Date's time value. */
    constructor (value: TimeValue)
      ensures time == value
    {
      time := value;
    }
  }

  /** JavaScript `<` on two dates: false whenever either is NaN. */
  predicate Before(a: TimeValue, b: TimeValue) {
    a.Ms? && b.Ms? && a.ms < b.ms
  }

  /** JavaScript `<=` on two dates: false whenever either is NaN. */
  predicate NotAfter(a: TimeValue, b: TimeValue) {
    a.Ms? && b.Ms? && a.ms <= b.ms
  }

  /** isValidDate: a Date is present and its time value is a number. */
  function IsValidDate(date: Option<TimeValue>): bool {
    date.Some? && date.value.Ms?
  }

  /** The time value after `setHours(0, 0, 0, 0)` on a valid date; an invalid one stays NaN. */
  function AtMidnight(zone: int, v: TimeValue): (r: TimeValue)
    ensures r.Ms? <==> v.Ms?
    ensures r.Ms? ==> TimeOfDay(zone, r.ms) == 0 && DayNumber(zone, r.ms) == DayNumber(zone, v.ms)
    ensures r.Ms? ==> r.ms <= v.ms < r.ms + DayMs
  {
    match v
    case NaN => NaN
    case Ms(t) => MidnightFacts(zone, t); Ms(Midnight(zone, t))
  }

  /**
    Copying a valid date and normalising the copy to midnight gives a valid date, and an invalid
    one stays invalid: the range check may test the bounds before or after normalising them.
  */
  lemma ValidityKeptByMidnight(zone: int, v: TimeValue)
    ensures IsValidDate(Some(AtMidnight(zone, v))) == IsValidDate(Some(v))
  {
  }

  /** Normalising to midnight twice is normalising once. */
  lemma AtMidnightIdempotent(zone: int, v: TimeValue)
    ensures AtMidnight(zone, AtMidnight(zone, v)) == AtMidnight(zone, v)
  {
    if v.Ms? {
      MidnightFacts(zone, v.ms);
    }
  }

  /**
    setDateTimeToMidnight: zeroes the local time of day of a valid date in place; an absent or
    invalid date is left untouched.
  */
  method SetDateTimeToMidnight(date: DateObject?, zone: int)
    modifies date
    ensures date != null ==> date.time == AtMidnight(zone, old(date.time))
    ensures date != null && !old(date.time).Ms? ==> date.time == old(date.time)
  {
    if date != null && IsValidDate(Some(date.time)) {
      date.time := Ms(Midnight(zone, date.time.ms));
    }
  }

  /**
    createDateAtMidnight: a new Date built from `value` (the clock reading `now` when it is
    undefined), then normalised to midnight; no existing Date is changed.
  */
  method CreateDateAtMidnight(value: Option<TimeValue>, now: int, zone: int) returns (date: DateObject)
    ensures fresh(date)
    ensures date.time == AtMidnight(zone, if value.None? then Ms(now) else value.value)
  {
    if value.None? {
      date := new DateObject(Ms(now));
    } else {
      date := new DateObject(value.value);
    }
    SetDateTimeToMidnight(date, zone);
  }

  // ----- Range checks and clamping -----

  /**
    isDateWithinRange: compares midnight-normalised copies of the date and of the bounds; a
    bound that is absent or invalid is ignored.
  */
  function IsDateWithinRange(zone: int, date: TimeValue, minDate: Option<TimeValue>, maxDate: Option<TimeValue>): bool {
    var atMidnight := AtMidnight(zone, date);
    var lo := if IsValidDate(minDate) then Some(AtMidnight(zone, minDate.value)) else None;
    var hi := if IsValidDate(maxDate) then Some(AtMidnight(zone, maxDate.value)) else None;
    (lo.None? || NotAfter(lo.value, atMidnight)) && (hi.None? || NotAfter(atMidnight, hi.value))
  }

  /**
    The range check compares local days, inclusive at both ends: a valid date is within range
    exactly when no valid bound lies on a later (for the minimum) or earlier (for the maximum)
    day; an invalid date is within range exactly when there is no valid bound at all.
  */
  lemma IsDateWithinRangeSpec(zone: int, date: TimeValue, minDate: Option<TimeValue>, maxDate: Option<TimeValue>)
    ensures date.Ms? ==>
      (IsDateWithinRange(zone, date, minDate, maxDate) <==>
        (!IsValidDate(minDate) || DayNumber(zone, minDate.value.ms) <= DayNumber(zone, date.ms)) &&
        (!IsValidDate(maxDate) || DayNumber(zone, date.ms) <= DayNumber(zone, maxDate.value.ms)))
    ensures date.NaN? ==>
      (IsDateWithinRange(zone, date, minDate, maxDate) <==> !IsValidDate(minDate) && !IsValidDate(maxDate))
  {
    if date.Ms? {
      MidnightFacts(zone, date.ms);
      if IsValidDate(minDate) {
        MidnightFacts(zone, minDate.value.ms);
      }
      if IsValidDate(maxDate) {
        MidnightFacts(zone, maxDate.value.ms);
      }
    }
  }

  /** Both bounds themselves are within the range they span, whatever their times of day. */
  lemma IsDateWithinRangeInclusive(zone: int, lo: int, hi: int)
    requires DayNumber(zone, lo) <= DayNumber(zone, hi)
    ensures IsDateWithinRange(zone, Ms(lo), Some(Ms(lo)), Some(Ms(hi)))
    ensures IsDateWithinRange(zone, Ms(hi), Some(Ms(lo)), Some(Ms(hi)))
  {
    IsDateWithinRangeSpec(zone, Ms(lo), Some(Ms(lo)), Some(Ms(hi)));
    IsDateWithinRangeSpec(zone, Ms(hi), Some(Ms(lo)), Some(Ms(hi)));
  }

  /**
    What clampDate returns: the maximum when the date is after it (this test runs last, so it
    wins), else the minimum when the date is before it, else the date itself. NaN compares false.
  */
  function Clamped(date: TimeValue, minDate: Option<TimeValue>, maxDate: Option<TimeValue>): TimeValue {
    if maxDate.Some? && Before(maxDate.value, date) then maxDate.value
    else if minDate.Some? && Before(date, minDate.value) then minDate.value
    else date
  }

  /** clampDate: two tests in sequence, each replacing the result with a copy of its bound. */
  method ClampDate(date: TimeValue, minDate: Option<TimeValue>, maxDate: Option<TimeValue>) returns (bound: TimeValue)
    ensures bound == Clamped(date, minDate, maxDate)
  {
    bound := date;
    if minDate.Some? && Before(date, minDate.value) {
      bound := minDate.value;
    }
    if maxDate.Some? && Before(maxDate.value, date) {
      bound := maxDate.value;
    }
  }

  /**
    With ordered valid bounds a date before the minimum gives the minimum, a date after the
    maximum gives the maximum, and a date in range is returned unchanged, so the result lies
    between the bounds and clamping twice is clamping once. Each bound acts on its own: an absent
    bound imposes nothing.
  */
  lemma ClampedSpec(date: int, lo: int, hi: int)
    requires lo <= hi
    ensures var r := Clamped(Ms(date), Some(Ms(lo)), Some(Ms(hi)));
      && (date < lo ==> r == Ms(lo))
      && (hi < date ==> r == Ms(hi))
      && (lo <= date <= hi ==> r == Ms(date))
      && r.Ms? && lo <= r.ms <= hi
      && Clamped(r, Some(Ms(lo)), Some(Ms(hi))) == r
    ensures Clamped(Ms(date), Some(Ms(lo)), None) == (if date < lo then Ms(lo) else Ms(date))
    ensures Clamped(Ms(date), None, Some(Ms(hi))) == (if hi < date then Ms(hi) else Ms(date))
    ensures Clamped(Ms(date), None, None) == Ms(date)
  {
  }

  /**
    With crossed bounds (minimum after maximum) a date after the maximum still yields the
    maximum, and a date before both yields the minimum, which a second clamp moves to the
    maximum: clamping is then not idempotent.
  */
  lemma ClampedCrossedBounds(date: int, lo: int, hi: int)
    requires hi < lo
    ensures hi < date ==> Clamped(Ms(date), Some(Ms(lo)), Some(Ms(hi))) == Ms(hi)
    ensures date < hi ==> Clamped(Ms(date), Some(Ms(lo)), Some(Ms(hi))) == Ms(lo)
    ensures date < hi ==> Clamped(Clamped(Ms(date), Some(Ms(lo)), Some(Ms(hi))), Some(Ms(lo)), Some(Ms(hi))) == Ms(hi)
  {
  }

  /**
    isMonthWithinRange as written: the lower bound passes when it is absent, or its year is
    before the date's, or its month number is not after the date's (whatever the years); the
    upper bound mirrors this.
  */
  function IsMonthWithinRange(c: Converter, date: int, minDate: Option<int>, maxDate: Option<int>): bool {
    var month := DateOf(c, date).month;
    var year := DateOf(c, date).year;
    (minDate.None? || DateOf(c, minDate.value).year < year || DateOf(c, minDate.value).month <= month) &&
    (maxDate.None? || DateOf(c, maxDate.value).year > year || DateOf(c, maxDate.value).month >= month)
  }

  /** The evidently intended check: (year, month) ordered lexicographically against each bound. */
  function IsMonthWithinRangeLexicographic(c: Converter, date: int, minDate: Option<int>, maxDate: Option<int>): bool {
    (minDate.None? || MonthIndex(DateOf(c, minDate.value)) <= MonthIndex(DateOf(c, date))) &&
    (maxDate.None? || MonthIndex(DateOf(c, date)) <= MonthIndex(DateOf(c, maxDate.value)))
  }

  /**
    The intended check is a range check at month granularity: a date passes the minimum exactly
    when it is not before the first date of the minimum's month, and passes the maximum exactly
    when it is before the first date of the month after the maximum's.
  */
  lemma MonthWithinRangeLexicographicSpec(c: Converter, date: int, lo: int, hi: int)
    requires Lawful(c)
    ensures IsMonthWithinRangeLexicographic(c, date, Some(lo), None) <==> FirstDateOfMonth(c, lo) <= date
    ensures IsMonthWithinRangeLexicographic(c, date, None, Some(hi)) <==> date < DateInNextMonth(c, hi)
    ensures IsMonthWithinRangeLexicographic(c, date, Some(lo), Some(hi)) <==>
      FirstDateOfMonth(c, lo) <= date < DateInNextMonth(c, hi)
  {
    var n := DayNumber(c.zone, date);
    var l := DateOf(c, lo);
    var first := CalendarDate(l.year, l.month, 1);
    assert ValidDate(c.isLeap, l);
    InstantOfRoundTrip(c, first, 0);
    MonthStartBoundary(c, c.dayOfDate(first), n);
    InstantBeforeDay(c.zone, c.dayOfDate(first), date);

    var h := DateOf(c, hi);
    var next := Normalize(h.year, h.month + 1, 1);
    InstantOfRoundTrip(c, next, 0);
    MonthStartBoundary(c, c.dayOfDate(next), n);
    InstantBeforeDay(c.zone, c.dayOfDate(next), date);
  }

  /** A day precedes the first day of a month exactly when its month precedes that month. */
  lemma MonthStartBoundary(c: Converter, f: int, n: int)
    requires Lawful(c) && c.dateOfDay(f).day == 1
    ensures n < f <==> MonthIndex(c.dateOfDay(n)) < MonthIndex(c.dateOfDay(f))
  {
    assert Consecutive(c, f - 1);
    NextDayFacts(c.isLeap, c.dateOfDay(f - 1));
    if n < f {
      MonthIndexMonotone(c, n, f - 1);
    } else {
      MonthIndexMonotone(c, f, n);
    }
  }

  /** The midnight that starts day `f` is not after `t` exactly when `f` is not after `t`'s day. */
  lemma InstantBeforeDay(zone: int, f: int, t: int)
    ensures f * DayMs - zone <= t <==> f <= DayNumber(zone, t)
  {
    MidnightFacts(zone, t);
  }

  /**
    The check as written accepts everything the intended check accepts, and the two agree
    whenever no bound's year lies on the wrong side of the date's year; with no bounds it passes.
  */
  lemma MonthWithinRangeAgreement(c: Converter, date: int, minDate: Option<int>, maxDate: Option<int>)
    requires Lawful(c)
    ensures IsMonthWithinRangeLexicographic(c, date, minDate, maxDate) ==> IsMonthWithinRange(c, date, minDate, maxDate)
    ensures (minDate.None? || DateOf(c, minDate.value).year <= DateOf(c, date).year) &&
            (maxDate.None? || DateOf(c, date).year <= DateOf(c, maxDate.value).year) ==>
      IsMonthWithinRange(c, date, minDate, maxDate) == IsMonthWithinRangeLexicographic(c, date, minDate, maxDate)
    ensures IsMonthWithinRange(c, date, None, None)
  {
    assert ValidDate(c.isLeap, DateOf(c, date));
    if minDate.Some? {
      assert ValidDate(c.isLeap, DateOf(c, minDate.value));
    }
    if maxDate.Some? {
      assert ValidDate(c.isLeap, DateOf(c, maxDate.value));
    }
  }

  /**
    The check as written accepts a date in an earlier year than the minimum when the minimum's
    month number is not larger, and a date in a later year than the maximum when the maximum's
    month number is not smaller, though both lie outside the range.
  */
  lemma MonthRangeQuirk(c: Converter, date: int, bound: int)
    requires Lawful(c)
    requires DateOf(c, bound).year > DateOf(c, date).year && DateOf(c, bound).month <= DateOf(c, date).month
    ensures IsMonthWithinRange(c, date, Some(bound), None)
    ensures !IsMonthWithinRangeLexicographic(c, date, Some(bound), None)
    ensures IsMonthWithinRange(c, bound, None, Some(date))
    ensures !IsMonthWithinRangeLexicographic(c, bound, None, Some(date))
  {
    assert ValidDate(c.isLeap, DateOf(c, date)) && ValidDate(c.isLeap, DateOf(c, bound));
  }
}
