/** Conversion between an Ethiopian date with wall-clock time at a fixed hour
    offset and a Unix timestamp (ethioqen/unix_time_conversion.py).

    Exceptions become a `Result`. `InvalidDateException` carries a `Reason`
    that says which check raised it (the source distinguishes them only in the
    exception message). `OverflowError` is the host error that escapes
    `unix_to_ethiopian` uncaught; see `UnixToEthiopian`. */
module UnixTimeConversion {
  import opened EthiopianUtils
  import opened Collaborators

  const SecondsPerMinute: int := 60
  const SecondsPerHour: int := 3600
  const SecondsPerDay: int := 86400

  datatype Reason =
    | DateRejected       // "Invalid Ethiopian date"
    | HourRejected       // "Invalid hour"
    | MinuteRejected     // "Invalid minute"
    | HostRejected       // the ValueError raised by timezone(...) or datetime(...)
    | TimestampRejected  // "Invalid timestamp"

  datatype Error = InvalidDateException(reason: Reason) | OverflowError

  datatype Result<T> = Ok(value: T) | Err(error: Error)

  /** The tuple (year, month, day, hour, minute) `unix_to_ethiopian` returns. */
  datatype EthiopianDateTime =
    EthiopianDateTime(year: int, month: int, day: int, hour: int, minute: int)

  /** The offsets `timezone(timedelta(hours=tz))` accepts: strictly less than
      24 hours either way. */
  function IsValidOffset(tz: int): (valid: bool)
    ensures valid <==> -23 <= tz <= 23
  {
    -24 < tz < 24
  }

  /** Seconds since the epoch of wall time `day` (a day number), hour:minute:00
      at UTC+tz, as `timestamp()` of an aware `datetime` computes it. */
  function EpochSeconds(day: int, hour: int, minute: int, tz: int): (ts: int)
    ensures ts % SecondsPerMinute == 0
    ensures 0 <= hour < 24 && 0 <= minute < 60 ==>
      day * SecondsPerDay <= ts + tz * SecondsPerHour < (day + 1) * SecondsPerDay
  {
    day * SecondsPerDay + hour * SecondsPerHour + minute * SecondsPerMinute - tz * SecondsPerHour
  }

  datatype WallClock = WallClock(day: int, hour: int, minute: int, second: int)

  /** The wall clock at UTC+tz of timestamp `ts`, as `fromtimestamp` splits it:
      floor division into a day number and the seconds of that day. */
  function LocalClock(ts: int, tz: int): (c: WallClock)
    ensures 0 <= c.hour < 24 && 0 <= c.minute < 60 && 0 <= c.second < 60
    ensures EpochSeconds(c.day, c.hour, c.minute, tz) + c.second == ts
  {
    var local := ts + tz * SecondsPerHour;
    var secs := local % SecondsPerDay;
    WallClock(local / SecondsPerDay, secs / SecondsPerHour,
              secs % SecondsPerHour / SecondsPerMinute, secs % SecondsPerMinute)
  }

  /** Splitting recovers a wall time from its epoch seconds: `LocalClock` and
      `EpochSeconds` are inverse on in-range hours, minutes and seconds. */
  lemma LocalClockOfEpochSeconds(day: int, hour: int, minute: int, second: int, tz: int)
    requires 0 <= hour < 24 && 0 <= minute < 60 && 0 <= second < 60
    ensures LocalClock(EpochSeconds(day, hour, minute, tz) + second, tz) == WallClock(day, hour, minute, second)
  {
    var s := hour * SecondsPerHour + minute * SecondsPerMinute + second;
    assert EpochSeconds(day, hour, minute, tz) + second + tz * SecondsPerHour == day * SecondsPerDay + s;
    DivModUnique(day * SecondsPerDay + s, SecondsPerDay, day, s);
    DivModUnique(s, SecondsPerHour, hour, minute * SecondsPerMinute + second);
    DivModUnique(minute * SecondsPerMinute + second, SecondsPerMinute, minute, second);
    DivModUnique(s, SecondsPerMinute, hour * 60 + minute, second);
  }

  /** Euclidean division is determined by quotient and remainder. */
  lemma DivModUnique(a: int, b: int, q: int, r: int)
    requires b > 0 && 0 <= r < b && a == q * b + r
    ensures a / b == q && a % b == r
  {
    var q', r' := a / b, a % b;
    assert q' * b + r' == q * b + r;
    if q' < q {
      MultipleAtLeastDivisor(q - q', b);
    } else if q' > q {
      MultipleAtLeastDivisor(q' - q, b);
    }
  }

  lemma MultipleAtLeastDivisor(k: int, b: int)
    requires k >= 1 && b > 0
    ensures k * b >= b
  {
    assert (k - 1) * b >= 0;
  }

  /** `ethiopian_to_unix`: the date, the hour and the minute are validated in
      that order, the date is converted to Gregorian, and the wall time at
      UTC+tz is turned into epoch seconds. The hour is the civil hour as given:
      no six-hour Ethiopian clock shift is applied. */
  function EthiopianToUnix(cal: Collaborators, year: int, month: int, day: int,
                           hour: int, minute: int, tz: int): (r: Result<int>)
    ensures !IsValidDate(year, month, day) ==> r == Err(InvalidDateException(DateRejected))
    ensures IsValidDate(year, month, day) && !(0 <= hour <= 23) ==>
      r == Err(InvalidDateException(HourRejected))
    ensures IsValidDate(year, month, day) && 0 <= hour <= 23 && !(0 <= minute <= 59) ==>
      r == Err(InvalidDateException(MinuteRejected))
    ensures r.Err? ==> r.error.InvalidDateException?
    ensures r.Ok? <==>
      IsValidDate(year, month, day) && 0 <= hour <= 23 && 0 <= minute <= 59 &&
      IsValidOffset(tz) && IsRepresentable(cal.toGregorian(EthiopianDate(year, month, day)))
    ensures r.Ok? ==>
      LocalClock(r.value, tz) ==
        WallClock(cal.dayNumber(cal.toGregorian(EthiopianDate(year, month, day))), hour, minute, 0)
  {
    if !IsValidDate(year, month, day) then
      Err(InvalidDateException(DateRejected))
    else if !(0 <= hour <= 23) then
      Err(InvalidDateException(HourRejected))
    else if !(0 <= minute <= 59) then
      Err(InvalidDateException(MinuteRejected))
    else
      var g := cal.toGregorian(EthiopianDate(year, month, day));
      // the tzinfo argument is evaluated before datetime(...) checks the date
      if !IsValidOffset(tz) then
        Err(InvalidDateException(HostRejected))
      else if !IsRepresentable(g) then
        Err(InvalidDateException(HostRejected))
      else
        var ts := EpochSeconds(cal.dayNumber(g), hour, minute, tz);
        LocalClockOfEpochSeconds(cal.dayNumber(g), hour, minute, 0, tz);
        Ok(ts)
  }

  /** `unix_to_ethiopian`, as written. `fromtimestamp(ts, tz)` first builds the
      UTC date, whose `ValueError` outside years 1..9999 is caught, and then
      shifts it by the offset, whose `OverflowError` outside years 1..9999 is
      not caught. Seconds are dropped, not rounded. */
  function UnixToEthiopian(cal: Collaborators, ts: int, tz: int): (r: Result<EthiopianDateTime>)
    ensures !IsValidOffset(tz) ==> r == Err(InvalidDateException(TimestampRejected))
    ensures IsValidOffset(tz) && !(MinDay <= ts / SecondsPerDay <= MaxDay) ==>
      r == Err(InvalidDateException(TimestampRejected))
    ensures r == Err(OverflowError) <==>
      IsValidOffset(tz) && MinDay <= ts / SecondsPerDay <= MaxDay &&
      !(MinDay <= LocalClock(ts, tz).day <= MaxDay)
    ensures r.Ok? <==>
      IsValidOffset(tz) && MinDay <= ts / SecondsPerDay <= MaxDay &&
      MinDay <= LocalClock(ts, tz).day <= MaxDay
    ensures r.Ok? ==> 0 <= r.value.hour <= 23 && 0 <= r.value.minute <= 59
    ensures r.Ok? ==>
      EthiopianDate(r.value.year, r.value.month, r.value.day) ==
        cal.toEthiopian(cal.dateOfDay(LocalClock(ts, tz).day))
    ensures r.Ok? ==>
      var c := LocalClock(ts, tz);
      MinDay <= c.day <= MaxDay &&
      EpochSeconds(c.day, r.value.hour, r.value.minute, tz) <= ts <
        EpochSeconds(c.day, r.value.hour, r.value.minute, tz) + SecondsPerMinute
  {
    if !IsValidOffset(tz) then
      Err(InvalidDateException(TimestampRejected))
    else if !(MinDay <= ts / SecondsPerDay <= MaxDay) then
      Err(InvalidDateException(TimestampRejected))
    else
      var c := LocalClock(ts, tz);
      if !(MinDay <= c.day <= MaxDay) then
        Err(OverflowError)
      else
        var e := cal.toEthiopian(cal.dateOfDay(c.day));
        Ok(EthiopianDateTime(e.year, e.month, e.day, c.hour, c.minute))
  }

  /** `unix_to_ethiopian` as evidently intended: every unrepresentable moment is
      reported as `InvalidDateException`, and nothing else changes. */
  function UnixToEthiopianIntended(cal: Collaborators, ts: int, tz: int): (r: Result<EthiopianDateTime>)
    ensures r.Err? ==> r == Err(InvalidDateException(TimestampRejected))
    ensures UnixToEthiopian(cal, ts, tz) != Err(OverflowError) ==> r == UnixToEthiopian(cal, ts, tz)
  {
    match UnixToEthiopian(cal, ts, tz)
    case Err(OverflowError) => Err(InvalidDateException(TimestampRejected))
    case other => other
  }

  // ---------------------------------------------------------------------
  // Validation

  /** The rejected inputs of the test suite, for every collaborator and offset. */
  lemma RejectedInputs(cal: Collaborators, tz: int)
    ensures EthiopianToUnix(cal, 2015, 13, 7, 0, 0, tz) == Err(InvalidDateException(DateRejected))
    ensures EthiopianToUnix(cal, 2015, 14, 1, 0, 0, tz) == Err(InvalidDateException(DateRejected))
    ensures EthiopianToUnix(cal, 2015, 1, 31, 0, 0, tz) == Err(InvalidDateException(DateRejected))
    ensures EthiopianToUnix(cal, 2015, 1, 1, 24, 0, tz) == Err(InvalidDateException(HourRejected))
    ensures EthiopianToUnix(cal, 2015, 1, 1, 0, 60, tz) == Err(InvalidDateException(MinuteRejected))
  {
  }

  /** The out-of-range timestamps of the test suite: year 0 and year 10000. */
  lemma RejectedTimestamps(cal: Collaborators)
    ensures UnixToEthiopian(cal, -62167219200, 0) == Err(InvalidDateException(TimestampRejected))
    ensures UnixToEthiopian(cal, 253402300800, 0) == Err(InvalidDateException(TimestampRejected))
  {
  }

  // ---------------------------------------------------------------------
  // Time of day and offset

  /** The offset only shifts the result: the same wall time at UTC+tz is
      tz hours earlier than at UTC, and fails exactly when it fails at UTC. */
  lemma TimezoneShift(cal: Collaborators, year: int, month: int, day: int,
                      hour: int, minute: int, tz: int)
    requires IsValidOffset(tz)
    ensures EthiopianToUnix(cal, year, month, day, hour, minute, tz) ==
      match EthiopianToUnix(cal, year, month, day, hour, minute, 0)
      case Ok(ts) => Ok(ts - tz * SecondsPerHour)
      case Err(e) => Err(e)
  {
  }

  /** The hour is used as the civil hour: one more hour is 3600 more seconds.
      (That the result's local hour is the hour given, for every hour 0..23,
      is the last ensures of `EthiopianToUnix`.) */
  lemma HourIsCivilHour(cal: Collaborators, year: int, month: int, day: int,
                        hour: int, minute: int, tz: int)
    requires 0 <= hour < 23
    ensures EthiopianToUnix(cal, year, month, day, hour + 1, minute, tz) ==
      match EthiopianToUnix(cal, year, month, day, hour, minute, tz)
      case Ok(ts) => Ok(ts + SecondsPerHour)
      case Err(e) => Err(e)
  {
  }

  // ---------------------------------------------------------------------
  // Fixed points

  /** Ethiopian 2015-01-01 00:00 and 15:30 at UTC, and 12:00 at UTC+3, in both
      directions. */
  lemma FixedPoints(cal: Collaborators)
    requires Lawful(cal)
    ensures EthiopianToUnix(cal, 2015, 1, 1, 0, 0, 0) == Ok(1662854400)
    ensures EthiopianToUnix(cal, 2015, 1, 1, 15, 30, 0) == Ok(1662910200)
    ensures EthiopianToUnix(cal, 2015, 1, 1, 12, 0, 3) == Ok(1662886800)
    ensures UnixToEthiopian(cal, 1662854400, 0) == Ok(EthiopianDateTime(2015, 1, 1, 0, 0))
    ensures UnixToEthiopian(cal, 1662910200, 0) == Ok(EthiopianDateTime(2015, 1, 1, 15, 30))
    ensures UnixToEthiopian(cal, 1662886800, 3) == Ok(EthiopianDateTime(2015, 1, 1, 12, 0))
  {
  }

  // ---------------------------------------------------------------------
  // Round trips

  /** Every result of `unix_to_ethiopian` is a valid Ethiopian date/time. */
  lemma UnixToEthiopianValid(cal: Collaborators, ts: int, tz: int)
    requires Lawful(cal)
    requires UnixToEthiopian(cal, ts, tz).Ok?
    ensures var dt := UnixToEthiopian(cal, ts, tz).value;
      IsValidDate(dt.year, dt.month, dt.day) && 0 <= dt.hour <= 23 && 0 <= dt.minute <= 59
  {
  }

  /** Round trip Ethiopian -> Unix -> Ethiopian at the same offset. It holds
      whenever the timestamp's UTC day is representable; the lemmas
      `RoundTripFailsAtFirstDay` and `RoundTripFailsAtLastDay` show that this
      condition cannot be dropped. */
  lemma RoundTrip(cal: Collaborators, year: int, month: int, day: int,
                  hour: int, minute: int, tz: int)
    requires Lawful(cal)
    requires EthiopianToUnix(cal, year, month, day, hour, minute, tz).Ok?
    requires MinDay <= EthiopianToUnix(cal, year, month, day, hour, minute, tz).value / SecondsPerDay <= MaxDay
    ensures UnixToEthiopian(cal, EthiopianToUnix(cal, year, month, day, hour, minute, tz).value, tz) ==
      Ok(EthiopianDateTime(year, month, day, hour, minute))
    ensures UnixToEthiopianIntended(cal, EthiopianToUnix(cal, year, month, day, hour, minute, tz).value, tz) ==
      Ok(EthiopianDateTime(year, month, day, hour, minute))
  {
  }

  /** Round trip Unix -> Ethiopian -> Unix at the same offset: the timestamp
      comes back truncated to its minute. */
  lemma ReverseRoundTrip(cal: Collaborators, ts: int, tz: int)
    requires Lawful(cal)
    requires UnixToEthiopian(cal, ts, tz).Ok?
    ensures var dt := UnixToEthiopian(cal, ts, tz).value;
      EthiopianToUnix(cal, dt.year, dt.month, dt.day, dt.hour, dt.minute, tz) ==
        Ok(ts - LocalClock(ts, tz).second)
  {
  }

  /** At the first representable day, midnight at UTC+1 converts, but the
      timestamp falls on 31 December of year 0 in UTC and is rejected. */
  lemma RoundTripFailsAtFirstDay(cal: Collaborators, year: int, month: int, day: int)
    requires Lawful(cal)
    requires IsValidDate(year, month, day)
    requires cal.toGregorian(EthiopianDate(year, month, day)) == GregorianDate(1, 1, 1)
    ensures EthiopianToUnix(cal, year, month, day, 0, 0, 1) == Ok(-62135600400)
    ensures UnixToEthiopian(cal, -62135600400, 1) == Err(InvalidDateException(TimestampRejected))
  {
  }

  /** At the last representable day, 23:00 at UTC-1 converts, but the
      timestamp falls on 1 January of year 10000 in UTC and is rejected. */
  lemma RoundTripFailsAtLastDay(cal: Collaborators, year: int, month: int, day: int)
    requires Lawful(cal)
    requires IsValidDate(year, month, day)
    requires cal.toGregorian(EthiopianDate(year, month, day)) == GregorianDate(9999, 12, 31)
    ensures EthiopianToUnix(cal, year, month, day, 23, 0, -1) == Ok(253402300800)
    ensures UnixToEthiopian(cal, 253402300800, -1) == Err(InvalidDateException(TimestampRejected))
  {
  }

  /** The first second of 0001-01-01 UTC seen at UTC-1 is in year 0: the
      shift raises `OverflowError`, which escapes as written and is an
      `InvalidDateException` as intended. */
  lemma OverflowEscapes(cal: Collaborators)
    ensures UnixToEthiopian(cal, -62135596800, -1) == Err(OverflowError)
    ensures UnixToEthiopianIntended(cal, -62135596800, -1) == Err(InvalidDateException(TimestampRejected))
  {
  }
}
