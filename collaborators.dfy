/** The collaborators that the Unix-time layer calls but whose code is not part
    of this model:

    - `convert_ethiopian_to_gregorian` and `convert_gregorian_to_ethiopian`
      (ethioqen/calendar_conversion.py is not part of this model), and
    - Python's `datetime` numbering of proleptic Gregorian days.

    They are given as function values in a `Collaborators` record that the
    conversions take as a parameter. `Lawful` collects the only facts assumed
    about them; every lemma that needs one of those facts requires it. What
    `datetime(...)` accepts as a date is concrete (`IsRepresentable`). */
module Collaborators {
  import opened EthiopianUtils

  datatype EthiopianDate = EthiopianDate(year: int, month: int, day: int)

  datatype GregorianDate = GregorianDate(year: int, month: int, day: int)

  /** `datetime.MINYEAR` and `datetime.MAXYEAR`. */
  const MinYear: int := 1
  const MaxYear: int := 9999

  /** Days since 1970-01-01 of 0001-01-01 and of 9999-12-31. */
  const MinDay: int := -719162
  const MaxDay: int := 2932896

  predicate IsGregorianLeapYear(year: int)
  {
    year % 4 == 0 && (year % 100 != 0 || year % 400 == 0)
  }

  function GregorianMonthLength(year: int, month: int): (days: int)
    requires 1 <= month <= 12
    ensures 28 <= days <= 31
    ensures days == 29 <==> month == 2 && IsGregorianLeapYear(year)
  {
    if month == 2 then (if IsGregorianLeapYear(year) then 29 else 28)
    else if month == 4 || month == 6 || month == 9 || month == 11 then 30
    else 31
  }

  /** The dates `datetime(year, month, day, ...)` accepts; any other raises
      `ValueError`. */
  function IsRepresentable(g: GregorianDate): (ok: bool)
    ensures ok ==> MinYear <= g.year <= MaxYear && 1 <= g.month <= 12 && 1 <= g.day <= 31
    ensures g.month == 2 && g.day == 29 ==>
      (ok <==> MinYear <= g.year <= MaxYear && IsGregorianLeapYear(g.year))
  {
    MinYear <= g.year <= MaxYear && 1 <= g.month <= 12 &&
    1 <= g.day <= GregorianMonthLength(g.year, g.month)
  }

  datatype Collaborators = Collaborators(
    /** `convert_ethiopian_to_gregorian` */
    toGregorian: EthiopianDate -> GregorianDate,
    /** `convert_gregorian_to_ethiopian` */
    toEthiopian: GregorianDate -> EthiopianDate,
    /** `datetime`'s day numbering: days since 1970-01-01 */
    dayNumber: GregorianDate -> int,
    /** its inverse: the date of a day number */
    dateOfDay: int -> GregorianDate)

  /** The facts assumed about the collaborators, and no others. */
  ghost predicate Lawful(cal: Collaborators)
  {
    // day numbering is a bijection between the representable dates
    // (years 1..9999) and the day numbers MinDay..MaxDay
    (forall g :: IsRepresentable(g) ==>
       MinDay <= cal.dayNumber(g) <= MaxDay && cal.dateOfDay(cal.dayNumber(g)) == g) &&
    (forall n :: MinDay <= n <= MaxDay ==>
       IsRepresentable(cal.dateOfDay(n)) && cal.dayNumber(cal.dateOfDay(n)) == n) &&
    // and its endpoints are 0001-01-01 and 9999-12-31
    cal.dayNumber(GregorianDate(1, 1, 1)) == MinDay &&
    cal.dayNumber(GregorianDate(9999, 12, 31)) == MaxDay &&
    // the two calendar conversions are mutual inverses on valid dates
    (forall e: EthiopianDate ::
       IsValidDate(e.year, e.month, e.day) && IsRepresentable(cal.toGregorian(e)) ==>
       cal.toEthiopian(cal.toGregorian(e)) == e) &&
    (forall g :: IsRepresentable(g) ==>
       var e := cal.toEthiopian(g);
       IsValidDate(e.year, e.month, e.day) && cal.toGregorian(e) == g) &&
    // the pinned fixed point: Ethiopian 2015-01-01 is Gregorian 2022-09-11,
    // which is day 19246 of the Unix epoch
    cal.toGregorian(EthiopianDate(2015, 1, 1)) == GregorianDate(2022, 9, 11) &&
    cal.dayNumber(GregorianDate(2022, 9, 11)) == 19246
  }

  /** The pinned Gregorian date is representable and maps back to the pinned
      Ethiopian date. */
  lemma FixedPointOfCalendars(cal: Collaborators)
    requires Lawful(cal)
    ensures IsRepresentable(GregorianDate(2022, 9, 11))
    ensures cal.toEthiopian(GregorianDate(2022, 9, 11)) == EthiopianDate(2015, 1, 1)
    ensures cal.dateOfDay(19246) == GregorianDate(2022, 9, 11)
  {
  }
}
