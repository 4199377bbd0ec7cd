# ethioqen in Dafny: Ethiopian date rules and Unix-time conversion

This project models the validation and timestamp core of `ethioqen`, a library
that converts between Ethiopian-calendar dates and Unix timestamps. It has three modules:

- `EthiopianUtils` (`ethiopian_utils.dfy`) covers `ethioqen/utils.py`. It holds the
  leap-year rule (`year % 4 == 3`, for every integer), month lengths (30 days,
  or 5/6 for Pagume, the 13th month) and the validity of a (year, month, day)
  triple, along with the source's constants and its month table.
- `Collaborators` (`collaborators.dfy`) holds the functions the Unix layer calls
  but whose code is not part of this model. These are the two calendar conversions of
  `ethioqen/calendar_conversion.py` and Python `datetime`'s numbering of
  Gregorian days. They are passed to the conversions as a record of four
  function values. The ghost predicate `Lawful` states the only facts assumed
  about them:
  - day numbering is a bijection between the dates `datetime` accepts (years
    1..9999) and the day numbers -719162..2932896;
  - 0001-01-01 is day -719162 and 9999-12-31 is day 2932896;
  - the two calendar conversions are mutual inverses on valid dates;
  - Ethiopian 2015-01-01 is Gregorian 2022-09-11, which is day 19246.

  What `datetime(...)` accepts as a date (`IsRepresentable`) is concrete.
- `UnixTimeConversion` (`unix_time_conversion.dfy`) covers
  `ethioqen/unix_time_conversion.py`. Raised exceptions become a `Result`.
  `InvalidDateException` carries a `Reason` that records which check raised
  it. `ethiopian_to_unix` checks the date, then the hour, then the minute.
  Next it converts the date and checks the offset and the Gregorian date. It
  then computes `day*86400 + hour*3600 + minute*60 - tz*3600` exactly.
  `unix_to_ethiopian` checks the offset and the UTC date. It then shifts by the
  offset, splits the result by floor division into a day number and the
  seconds of that day, and truncates those seconds to hour and minute.

The main theorems are the round trip Ethiopian → Unix → Ethiopian
(`RoundTrip`) and the reverse trip, which truncates to the minute
(`ReverseRoundTrip`). The round trip holds exactly when the timestamp's UTC
day is representable. At the first and last representable days an offset can
push the UTC moment out of range: `ethiopian_to_unix` then succeeds and
`unix_to_ethiopian` rejects its result. `RoundTripFailsAtFirstDay` and
`RoundTripFailsAtLastDay` prove this.

The docstrings give the month as 1-13 (ethioqen/utils.py:53) and call the
hour "Hour in Ethiopian time" (ethioqen/unix_time_conversion.py:14). The model
follows the code:
- `get_ethiopian_month_length` returns 30 for any month other than 13,
  including month numbers outside 1..13.
- The hour goes unchanged into `datetime(...)` as the civil hour. No
  Ethiopian six-hour clock shift is applied.

## Model

| member | source | states |
|---|---|---|
| `EthiopianUtils.IsLeapYear` | ethioqen/utils.py:40-45 | a year is a leap year exactly when the next year is a multiple of four, for every integer year |
| `EthiopianUtils.MonthLength` | ethioqen/utils.py:47-60 | the length is 30, 5 or 6; it is below 30 exactly for month 13, so every other month number (0 and 14 included) has 30; it is 6 exactly for month 13 of a leap year |
| `EthiopianUtils.IsValidDate` | ethioqen/utils.py:12-38 | a date is valid exactly when its month is in 1..13 and its day is in 1..MonthLength(year, month), so validity and month length agree |
| `EthiopianUtils.LeapYearPeriodic` | ethioqen/utils.py:40-45 | leap years recur every four years, for negative years too |
| `EthiopianUtils.OneLeapYearInFour` | ethioqen/utils.py:40-45 | exactly one of any four consecutive years is a leap year |
| `EthiopianUtils.LeapYearExamples` | ethioqen/utils.py:40-45 | 3, 2015 and -1 are leap years; 0, 2016 and -4 are not |
| `EthiopianUtils.SumOfThirtyDayMonths` | ethioqen/utils.py:2-3 | the first n months (n at most 12) together have 30·n days |
| `EthiopianUtils.YearLengthRule` | ethioqen/utils.py:47-60 | the 13 month lengths sum to 366 in a leap year and to 365 otherwise |
| `EthiopianUtils.MonthLengthTableAgrees` | ethioqen/utils.py:5-10 | the month table covers exactly months 1..13 and equals MonthLength in a common year; in a leap year only Pagume differs, by one day |
| `EthiopianUtils.InvalidMonth` | ethioqen/utils.py:25-26 | a month outside 1..13 is never valid, whatever the year and day |
| `EthiopianUtils.PagumeBoundary` | ethioqen/utils.py:28-32 | Pagume 6 is valid exactly in leap years; Pagume 5 is always valid; Pagume 7 never is |
| `EthiopianUtils.DayBounds` | ethioqen/utils.py:31-36 | day 0 and day 31 are never valid |
| `EthiopianUtils.ValidityIgnoresYear` | ethioqen/utils.py:33-38 | for months 1..12 validity does not depend on the year, and no year is out of range |
| `Collaborators.GregorianMonthLength` | ethioqen/unix_time_conversion.py:37-41 | a Gregorian month has 28 to 31 days, and 29 exactly for February of a Gregorian leap year |
| `Collaborators.IsRepresentable` | ethioqen/unix_time_conversion.py:37-41 | `datetime(...)` accepts only years 1..9999, months 1..12 and days 1..31; it accepts 29 February exactly in Gregorian leap years |
| `Collaborators.FixedPointOfCalendars` | tests/test_unix_time_conversion.py:8-11 | Gregorian 2022-09-11 is representable, converts back to Ethiopian 2015-01-01 and is the date of day 19246 |
| `UnixTimeConversion.IsValidOffset` | ethioqen/unix_time_conversion.py:56-57 | `timezone(timedelta(hours=tz))` accepts exactly the whole-hour offsets -23..23 |
| `UnixTimeConversion.EpochSeconds` | ethioqen/unix_time_conversion.py:37-39 | the timestamp of a wall time is a whole minute, since no seconds are supplied; for an in-range hour and minute it falls within the given day at that offset |
| `UnixTimeConversion.LocalClock` | ethioqen/unix_time_conversion.py:56-57 | the local wall clock has hour 0..23, minute 0..59 and second 0..59, and together with its day number it makes up exactly the timestamp at that offset |
| `UnixTimeConversion.LocalClockOfEpochSeconds` | ethioqen/unix_time_conversion.py:56-65 | splitting the epoch seconds of an in-range wall time gives back that wall time, so the split inverts the arithmetic of ethiopian_to_unix |
| `UnixTimeConversion.EthiopianToUnix` | ethioqen/unix_time_conversion.py:7-41 | an invalid date, then a bad hour, then a bad minute decide the error, in that order; every failure is InvalidDateException; it succeeds exactly for a valid date, hour and minute, an offset under 24 hours and a representable Gregorian date; a result is the timestamp whose wall clock at that offset is the converted day at hour:minute:00 |
| `UnixTimeConversion.UnixToEthiopian` | ethioqen/unix_time_conversion.py:44-65 | an offset of 24 hours or more, or a UTC day outside years 1..9999, is rejected as an invalid timestamp; otherwise a local day outside years 1..9999 gives the uncaught OverflowError, and every other call succeeds; a result's date is the Ethiopian conversion of the local day, its hour is 0..23 and its minute 0..59, and it is the timestamp truncated to its minute |
| `UnixTimeConversion.UnixToEthiopianIntended` | ethioqen/unix_time_conversion.py:55-59 | every failure is an InvalidDateException for an invalid timestamp, and wherever the source does not overflow the result is the same |
| `UnixTimeConversion.RejectedInputs` | tests/test_unix_time_conversion.py:50-64 | (2015,13,7), (2015,14,1) and (2015,1,31) are rejected as dates; hour 24 and minute 60 are rejected as hour and minute, for every offset |
| `UnixTimeConversion.RejectedTimestamps` | tests/test_unix_time_conversion.py:66-71 | -62167219200 (year 0) and 253402300800 (year 10000) are rejected as invalid timestamps |
| `UnixTimeConversion.TimezoneShift` | ethioqen/unix_time_conversion.py:36-39 | for an offset in -23..23, the same wall time at UTC+tz is tz·3600 seconds earlier than at UTC, and fails exactly when it fails at UTC; an offset outside that range is rejected by `EthiopianToUnix` even where UTC succeeds |
| `UnixTimeConversion.HourIsCivilHour` | ethioqen/unix_time_conversion.py:27-39 | for hours 0..22, one more hour gives exactly 3600 more seconds, or the same error; no Ethiopian clock shift is applied (that the result's local hour is the hour given, for every hour 0..23, is stated by `EthiopianToUnix`) |
| `UnixTimeConversion.FixedPoints` | tests/test_unix_time_conversion.py:6-48 | Ethiopian 2015-01-01 00:00 and 15:30 at UTC, and 12:00 at UTC+3, convert to 1662854400, 1662910200 and 1662886800, and back |
| `UnixTimeConversion.UnixToEthiopianValid` | ethioqen/unix_time_conversion.py:61-65 | every result of unix_to_ethiopian is a valid Ethiopian date with an in-range hour and minute |
| `UnixTimeConversion.RoundTrip` | tests/test_unix_time_conversion.py:73-80 | converting a date/time to Unix time and back at the same offset gives the original date/time whenever the timestamp's UTC day is representable |
| `UnixTimeConversion.ReverseRoundTrip` | ethioqen/unix_time_conversion.py:55-65 | converting a timestamp to Ethiopian and back at the same offset gives the timestamp truncated to its minute |
| `UnixTimeConversion.RoundTripFailsAtFirstDay` | ethioqen/unix_time_conversion.py:55-59 | the date that converts to 0001-01-01 at 00:00 UTC+1 converts to -62135600400, which unix_to_ethiopian rejects |
| `UnixTimeConversion.RoundTripFailsAtLastDay` | ethioqen/unix_time_conversion.py:55-59 | the date that converts to 9999-12-31 at 23:00 UTC-1 converts to 253402300800, which unix_to_ethiopian rejects |
| `UnixTimeConversion.OverflowEscapes` | ethioqen/unix_time_conversion.py:55-59 | -62135596800 at UTC-1 raises the uncaught OverflowError as written, and InvalidDateException as intended |

## Left out

- `convert_ethiopian_to_gregorian` and `convert_gregorian_to_ethiopian`: ethioqen/calendar_conversion.py is not part of this model. They are function values constrained only by `Lawful`. The model treats them as total, so it does not capture any exception they might raise.
- Python `datetime` day numbering: it is a function value constrained only by `Lawful`. The model gives no concrete proleptic Gregorian day count, and no concrete witness that the facts in `Lawful` can all hold together.
- `EthiopianToUnix`: epoch seconds are exact integers. The model leaves out the float returned by `timestamp()` before `int(...)`, which is exact in this range.
- `UnixToEthiopian`: the platform-dependent `OSError` of `fromtimestamp` is merged into the out-of-range rejection. The model also leaves out the `OverflowError` raised for timestamps beyond a 64-bit `time_t`.
- `IsValidOffset`: offsets so large that `timedelta` itself overflows (about 2.4·10^10 hours) are modelled as rejected like any other offset of 24 hours or more.
- Default arguments (`eth_hour=0`, `minute=0`, `tz_offset=0`) are not modelled: every argument is explicit.
- Exception messages are left out. Only the error kind is kept, plus a `Reason` naming the check that failed.
- Non-integer arguments, which Python would accept through duck typing, are left out: every argument is an integer.
- docs/conf.py is left out: it is documentation build configuration with no logic.

## Findings

| source | as written | input that shows it | evidently intended | confidence | as-written member | corrected member |
|---|---|---|---|---|---|---|
| ethioqen/unix_time_conversion.py:55-59 | `fromtimestamp` builds the UTC moment and then shifts it by the offset. A shift from year 1 into year 0, or from year 9999 into year 10000, raises `OverflowError`. The `except (ValueError, OSError)` does not catch it, so it escapes | `unix_to_ethiopian(-62135596800, -1)` | `InvalidDateException` for every moment that cannot be represented | medium, not executed | `UnixTimeConversion.OverflowEscapes` | `UnixTimeConversion.UnixToEthiopianIntended` |
