# Jalali date utilities of the Persian datepicker, in Dafny

This project models the date-utility factory of the Persian (Jalali) datepicker
(`src/components/datepicker/js/dateUtil.js`): the field-level logic the calendar and the
datepicker rely on. It covers month navigation with year rollover, same-day and same-month
comparisons, month and year distances, the week-of-month index, day/month/year increments
with the clamp-to-last-day policy, midnight normalisation (including the in-place variant
that mutates a `Date`), the inclusive day-range check, `clampDate`, and the month-range
check with its known quirk.

## Structure

- `calendar.dfy`, module `Calendar`: the Jalali fields (`CalendarDate`, months 1..12), the
  month-length table `DaysInMonth`, and the calendar converter the code delegates to the
  persianDate library. The converter is a value, `Converter`, passed to every operation: its
  leap-year predicate, the conversions between consecutive day numbers and dates, the local
  time-zone offset and the weekday of day 0. `Lawful(c)` states what the library is assumed
  to guarantee: every day has a valid date, days and valid dates correspond one to one, and
  consecutive days carry consecutive dates. Instants are integer milliseconds since the epoch;
  the local day of an instant is `(t + zone) / DayMs`.
- `calendar_witness.dfy`, module `CalendarWitness`: a concrete converter for a calendar of
  365-day years, proved `Lawful`, so the laws are consistent; it also hosts the concrete input
  for the finding below.
- `date_util.dfy`, module `DateUtil`: the operations of `dateUtil.js`, one function or method
  each, with the lemmas that state what they promise. A JavaScript `Date` is a `DateObject`
  whose time value (`TimeValue`: milliseconds or `NaN`) `SetDateTimeToMidnight` changes in
  place; optional arguments are `Option` values instead of JavaScript truthiness.
- `wrappers.dfy`, module `Wrappers`: the `Option` type.

Months are numbered 1..12, as persianDate numbers them. The code passes month 13 and month 0
to persianDate when it crosses a year boundary; the model makes the library's rollover of such
month numbers explicit as `Calendar.Normalize`.

## Model

| member | source | states |
|---|---|---|
| Calendar.DaysInMonth | src/components/datepicker/js/dateUtil.js:51-53 | the table `DateUtil.NumberOfDaysInMonth` (getNumberOfDaysInMonth) reads for the date's year and month: months 1-6 have 31 days, 7-11 have 30, month 12 has 30 exactly in a leap year and 29 otherwise |
| Calendar.Normalize | src/components/datepicker/js/dateUtil.js:60-73 | a month number outside 1..12 rolls into a valid month of a neighbouring year with the same month index, and valid months are unchanged |
| Calendar.MidnightFacts | src/components/datepicker/js/dateUtil.js:202-206 | local midnight is the start of the instant's day: not after it, less than a day before, time of day zero, same day, idempotent |
| DateUtil.FirstDateOfMonthSpec | src/components/datepicker/js/dateUtil.js:42-44 | `FirstDateOfMonth` (getFirstDateOfMonth): the first date of the month is the midnight of day 1 of the same month, exactly `day - 1` days before the date's midnight, so never after the date |
| DateUtil.MonthLengthSpec | src/components/datepicker/js/dateUtil.js:185-187 | `LastDateOfMonth` (getLastDateOfMonth) and `NumberOfDaysInMonth`: the last date of the month is a valid date of the same month, not before the given day, and the day after it is day 1 of the next month; the month's first date plus its length in days is the next month's first day |
| DateUtil.DateInNextMonthSpec | src/components/datepicker/js/dateUtil.js:60-63 | `DateInNextMonth`: the next-month date is midnight of day 1 of the following month, rolling into year+1 after month 12, at month distance 1 |
| DateUtil.DateInPreviousMonthSpec | src/components/datepicker/js/dateUtil.js:70-73 | `DateInPreviousMonth`: the previous-month date is midnight of day 1 of the preceding month, rolling into year-1 before month 1, at month distance -1 |
| DateUtil.IsSameDay | src/components/datepicker/js/dateUtil.js:93-97 | same day implies same month and year |
| DateUtil.ComparisonsReflexiveSymmetric | src/components/datepicker/js/dateUtil.js:81-97 | same-day and same-month-and-year are reflexive and symmetric |
| DateUtil.SameDayIffSameMidnight | src/components/datepicker/js/dateUtil.js:87-97 | two instants are the same day exactly when their local midnights coincide, so the time of day is ignored |
| DateUtil.SameMonthIffZeroDistance | src/components/datepicker/js/dateUtil.js:81-85 | `IsSameMonthAndYear`: same month and year exactly when the month distance is 0 |
| DateUtil.AdjacentMonthSpec | src/components/datepicker/js/dateUtil.js:105-119 | `IsInNextMonth` and `IsInPreviousMonth`: isInNextMonth holds iff end's (year, month) is the successor of start's, iff the month distance is 1; isInPreviousMonth iff the distance is -1, iff isInNextMonth with the arguments swapped |
| DateUtil.MonthDistanceAlgebra | src/components/datepicker/js/dateUtil.js:174-178 | `MonthDistance` (getMonthDistance): month distance is the difference of month indices (day ignored), antisymmetric, additive, 0 from a date to itself |
| DateUtil.DistancesFollowTime | src/components/datepicker/js/dateUtil.js:166-178 | when end is not before start neither the month distance nor the year distance is negative |
| DateUtil.YearDistanceSpec | src/components/datepicker/js/dateUtil.js:263-267 | `YearDistance` (getYearDistance): year distance is the difference of the years of both months, antisymmetric, and 0 within one month |
| DateUtil.WeekOfMonthBounds | src/components/datepicker/js/dateUtil.js:136-141 | `WeekOfMonth` (getWeekOfMonth): the week index lies in 0..5 and is 0 on day 1 and at the month's first date |
| DateUtil.WeekOfMonthMonotone | src/components/datepicker/js/dateUtil.js:136-141 | within one month the week index never decreases as the day grows |
| DateUtil.WeekOfMonthNextWeek | src/components/datepicker/js/dateUtil.js:136-141 | seven days later in the same month is seven days of month later and exactly one week index later |
| DateUtil.IncrementDaysSpec | src/components/datepicker/js/dateUtil.js:149-151 | `IncrementDays`: adding n days moves the local day by n and keeps the time of day; one day on is the next calendar date; adding -n undoes it |
| DateUtil.IncrementMonthsSpec | src/components/datepicker/js/dateUtil.js:153-163 | `IncrementMonths`: the result is exactly n months away at the same time of day, keeps the day of month when the target month has it, and otherwise is the target month's last day, never in the month after |
| DateUtil.IncrementMonthsClampsToShorterMonth | src/components/datepicker/js/dateUtil.js:153-163 | one month after Shahrivar 31 is Mehr 30, the last day of the shorter month |
| DateUtil.IncrementYearsSpec | src/components/datepicker/js/dateUtil.js:243-252 | `IncrementYears`: n years on is year distance n in the same month at the same time of day, with the same day except Esfand 30 into a common year, which gives Esfand 29 |
| DateUtil.TruncHalf | src/components/datepicker/js/dateUtil.js:128 | the halved sum is truncated toward zero: for a non-negative sum twice the result is the sum or one less, for a negative sum the sum or one more, and it lies between zero and the sum |
| DateUtil.DateMidpointSpec | src/components/datepicker/js/dateUtil.js:121-129 | `DateMidpoint` (getDateMidpoint): the midpoint is a midnight between the earlier date's midnight and the later date; for dates ten days apart it is five days after the first date's midnight |
| DateUtil.ValidityKeptByMidnight | src/components/datepicker/js/dateUtil.js:236-238 | `IsValidDate` (isValidDate) of a date copied and normalised to midnight equals its validity before, so testing the bounds before normalising them decides the same |
| DateUtil.AtMidnight | src/components/datepicker/js/dateUtil.js:202-206 | an invalid time value stays invalid; a valid one becomes the local midnight of the same day, not after it and less than a day before |
| DateUtil.AtMidnightIdempotent | src/components/datepicker/js/dateUtil.js:198-206 | normalising to midnight twice equals normalising once |
| DateUtil.SetDateTimeToMidnight | src/components/datepicker/js/dateUtil.js:202-206 | mutates the given date in place to its midnight; an absent or invalid date is left untouched |
| DateUtil.DateObject.constructor | src/components/datepicker/js/dateUtil.js:218-223 | a new Date carries the given time value |
| DateUtil.CreateDateAtMidnight | src/components/datepicker/js/dateUtil.js:208-226 | returns a freshly allocated date whose time value is the midnight of the given value, or of the clock reading when none is given |
| DateUtil.IsDateWithinRangeSpec | src/components/datepicker/js/dateUtil.js:228-241 | `IsDateWithinRange` (isDateWithinRange): a valid date is within range iff no valid bound lies on a later (minimum) or earlier (maximum) local day; invalid or absent bounds are ignored; an invalid date passes only when no valid bound exists |
| DateUtil.IsDateWithinRangeInclusive | src/components/datepicker/js/dateUtil.js:239-240 | both bounds are within the range they span, whatever their times of day |
| DateUtil.ClampDate | src/components/datepicker/js/dateUtil.js:276-285 | the two sequential tests yield the maximum when the date is after it (even over the minimum test), else the minimum when the date is before it, else the date |
| DateUtil.ClampedSpec | src/components/datepicker/js/dateUtil.js:269-285 | `Clamped`, the result of clampDate: with ordered bounds a date before the minimum gives the minimum, after the maximum the maximum, in range the date itself, so the result lies between them and clamping twice equals clamping once; with one bound absent only the other acts, with both absent the date is returned |
| DateUtil.ClampedCrossedBounds | src/components/datepicker/js/dateUtil.js:277-284 | with the minimum after the maximum, a date after the maximum yields the maximum; a date before both yields the minimum, which a second clamp moves to the maximum |
| DateUtil.MonthWithinRangeLexicographicSpec | src/components/datepicker/js/dateUtil.js:298-304 | `IsMonthWithinRangeLexicographic`, the intended check, is a month-granularity range check: the date passes the minimum iff it is not before the first date of the minimum's month, and passes the maximum iff it is before the first date of the month after the maximum's |
| DateUtil.MonthWithinRangeAgreement | src/components/datepicker/js/dateUtil.js:305-314 | `IsMonthWithinRange` (isMonthWithinRange as written): the check as written accepts everything the lexicographic check accepts, agrees with it when no bound's year is on the wrong side of the date's, and passes with no bounds |
| DateUtil.MonthRangeQuirk | src/components/datepicker/js/dateUtil.js:312-313 | `IsMonthWithinRange`: a minimum in a later year with a month number not above the date's passes the lower test, and symmetrically for the maximum, though the lexicographic check rejects both |
| CalendarWitness.MonthRangeQuirkExample | src/components/datepicker/js/dateUtil.js:312 | `IsMonthWithinRange`: Mordad 7 of year 0 passes against the minimum Ordibehesht 1 of year 1 |

## Findings

| source | as written | input that shows it | evidently intended | confidence | as-written member | corrected member |
|---|---|---|---|---|---|---|
| src/components/datepicker/js/dateUtil.js:312-313 | the lower bound passes when `min.year < year` OR `min.month <= month`, so the month test alone admits dates of earlier years; the upper bound mirrors this | date Mordad 7 of year 0, minimum Ordibehesht 1 of year 1 (days 130 and 396 of the 365-day witness calendar): the check returns true | compare (year, month) lexicographically, so the date passes exactly when it lies between the first date of the minimum's month and the end of the maximum's month (the doc comment says "checks if a month is within a min and max range") | high, not executed | DateUtil.MonthRangeQuirk | DateUtil.MonthWithinRangeLexicographicSpec |

`DateUtil.IsMonthWithinRange` keeps the behaviour as written;
`DateUtil.IsMonthWithinRangeLexicographic` is the corrected check, proved a month-granularity
range check by `DateUtil.MonthWithinRangeLexicographicSpec`, and
`DateUtil.MonthWithinRangeAgreement` relates the two.

## Left out

- The persianDate library itself: Gregorian to Jalali conversion, the leap-year rule, and the
  `startOf`, `endOf` and `add` implementations. The converter is an abstract parameter constrained
  by `Calendar.Lawful`; the leap rule is an uninterpreted predicate.
- Calendar.CalendarDate: that persianDate numbers months 1..12 (Farvardin is 1) is an assumption
  about the library; the code only shows that `month()` and the array constructor agree.
- Calendar.Weekday: that `persianDate(t).day()` numbers weekdays 0..6, with 0 the first day of
  the week, is an assumption about the library; `WeekOfMonthBounds` ("week 0 on day 1") rests on
  it, and with weekdays numbered 1..7 the code would put day 1 in week 1 on some months.
- DateUtil.IncrementMonths: persianDate's `add('month', n)` is defined by the clamp-to-last-day
  policy the doc comment at lines 154-156 states, and is assumed to keep the time of day;
  `IncrementMonthsSpec` proves that policy of the definition, not of the library's code.
- DateUtil.CreateDateAtMidnight: `new Date(null)` (time value 0) and other non-date arguments are
  not expressible; `createDateAtMidnight` and `isDateWithinRange` receive a number, a date or
  nothing.
- How persianDate normalises month numbers 13 and 0 is assumed to be plain rollover into the
  neighbouring year (`Calendar.Normalize`); the library's own arithmetic is not part of this model.
- `getTimestampFromNode` (lines 292-296): a DOM attribute read with no calendar logic.
- The Angular factory registration (lines 8-33).
- The clock: `new Date()` without arguments becomes the `now` parameter of `CreateDateAtMidnight`.
- The local time zone is a fixed offset (`zone`); daylight-saving changes are not modelled, so a
  day is always 86,400,000 ms and `IncrementDays` adds whole days of milliseconds.
- Floating point: `getDateMidpoint` halves the sum as a JavaScript number; the model truncates the
  integer half toward zero, as `new Date(number)` does. The valid time-value range of
  JavaScript (plus or minus 8.64e15 ms) and non-integer or non-numeric arguments to `new Date`
  are not modelled.
- `getLastDateOfMonth` returns a persianDate object at the end of the month's last day; the model
  keeps only its calendar fields (`DateUtil.LastDateOfMonth`).
- `clampDate` returns either its own argument object or a fresh copy of a bound; the model returns
  the time value and does not track which object is returned.
- Calendar-based operations take valid instants: persianDate's behaviour on an invalid `Date` is
  the library's. `isMonthWithinRange` bounds are therefore modelled as absent or valid instants.
- `isDateWithinRange` called with an undefined date uses the current time; the model always
  receives the date.
- `isValidDate` applied to something that is not a `Date` (a number or string without `getTime`)
  is modelled only through absent, invalid and valid dates.
