/** Ethiopian calendar rules: the leap-year rule, month lengths and the
    validity of a (year, month, day) triple (ethioqen/utils.py).

    Every function is total over the integers: no year bound is imposed, and
    month numbers outside 1..13 are handled by the functions themselves. */
module EthiopianUtils {

  /** Length of each of the first twelve months. */
  const DaysInMonth: int := 30

  /** Months per year; the 13th is Pagume. */
  const MonthsInYear: int := 13

  /** The fixed month table; month 13 holds its common-year length. */
  const MonthLengthTable: map<int, int> :=
    map[1 := 30, 2 := 30, 3 := 30, 4 := 30, 5 := 30, 6 := 30,
        7 := 30, 8 := 30, 9 := 30, 10 := 30, 11 := 30, 12 := 30,
        13 := 5]

  /** The leap-year rule: a leap year is the year just before a multiple of
      four. Python's `%` with a positive divisor is never negative, exactly
      like Dafny's, so this holds for negative years too. */
  function IsLeapYear(year: int): (leap: bool)
    ensures leap <==> (year + 1) % 4 == 0
  {
    year % 4 == 3
  }

  /** Length of `month` in `year`; any month other than 13 gets 30 days,
      including out-of-range month numbers, since nothing is validated. */
  function MonthLength(year: int, month: int): (days: int)
    ensures days == DaysInMonth || days == 5 || days == 6
    ensures days < DaysInMonth <==> month == MonthsInYear
    ensures days == 6 <==> month == MonthsInYear && IsLeapYear(year)
  {
    if month == 13 then
      (if IsLeapYear(year) then 6 else 5)
    else
      DaysInMonth
  }

  /** Validity of an Ethiopian date, with the branch structure of the source:
      month range first, then Pagume separately from the 30-day months. */
  function IsValidDate(year: int, month: int, day: int): (valid: bool)
    ensures valid <==> 1 <= month <= MonthsInYear && 1 <= day <= MonthLength(year, month)
  {
    if month < 1 || month > MonthsInYear then
      false
    else if month == 13 then
      var maxDays := if IsLeapYear(year) then 6 else 5;
      !(day < 1 || day > maxDays)
    else
      !(day < 1 || day > DaysInMonth)
  }

  /** Sum of the lengths of the first `n` months of `year`. */
  function SumMonthLengths(year: int, n: nat): (days: int)
    requires n <= MonthsInYear
  {
    if n == 0 then 0 else SumMonthLengths(year, n - 1) + MonthLength(year, n)
  }

  /** Number of days in `year`. */
  function YearLength(year: int): (days: int)
  {
    SumMonthLengths(year, MonthsInYear)
  }

  // ---------------------------------------------------------------------
  // Leap years

  /** Leap years recur every four years, in both directions. */
  lemma LeapYearPeriodic(year: int)
    ensures IsLeapYear(year) <==> IsLeapYear(year + 4)
    ensures IsLeapYear(year) <==> IsLeapYear(year - 4)
  {
  }

  /** Among any four consecutive years exactly one is a leap year. */
  lemma OneLeapYearInFour(year: int)
    ensures IsLeapYear(year) ==> !IsLeapYear(year + 1) && !IsLeapYear(year + 2) && !IsLeapYear(year + 3)
    ensures IsLeapYear(year) || IsLeapYear(year + 1) || IsLeapYear(year + 2) || IsLeapYear(year + 3)
  {
  }

  /** Concrete years, the negative one under floor-modulo semantics. */
  lemma LeapYearExamples()
    ensures IsLeapYear(3) && IsLeapYear(2015) && IsLeapYear(-1)
    ensures !IsLeapYear(0) && !IsLeapYear(2016) && !IsLeapYear(-4)
  {
  }

  // ---------------------------------------------------------------------
  // Month lengths

  /** The first n months (n <= 12) together have 30 * n days. */
  lemma {:induction false} SumOfThirtyDayMonths(year: int, n: nat)
    requires n <= 12
    ensures SumMonthLengths(year, n) == DaysInMonth * n
  {
    if n > 0 {
      SumOfThirtyDayMonths(year, n - 1);
    }
  }

  /** A year has 366 days when it is a leap year and 365 otherwise. */
  lemma YearLengthRule(year: int)
    ensures YearLength(year) == if IsLeapYear(year) then 366 else 365
  {
    SumOfThirtyDayMonths(year, 12);
  }

  /** The month table is defined for exactly months 1..13 and agrees with
      MonthLength in a common year; in a leap year only Pagume differs, by one. */
  lemma MonthLengthTableAgrees(year: int, month: int)
    ensures month in MonthLengthTable <==> 1 <= month <= MonthsInYear
    ensures month in MonthLengthTable && !IsLeapYear(year) ==>
      MonthLengthTable[month] == MonthLength(year, month)
    ensures month in MonthLengthTable && IsLeapYear(year) ==>
      MonthLengthTable[month] + (if month == 13 then 1 else 0) == MonthLength(year, month)
  {
  }

  // ---------------------------------------------------------------------
  // Validity

  /** A month number outside 1..13 is never valid, whatever the year and day. */
  lemma InvalidMonth(year: int, month: int, day: int)
    requires month < 1 || month > MonthsInYear
    ensures !IsValidDate(year, month, day)
  {
  }

  /** Pagume 6 exists exactly in leap years; Pagume 5 always; Pagume 7 never. */
  lemma PagumeBoundary(year: int)
    ensures IsValidDate(year, 13, 6) <==> IsLeapYear(year)
    ensures IsValidDate(year, 13, 5)
    ensures !IsValidDate(year, 13, 7)
  {
  }

  /** Day 0 and day 31 are never valid. */
  lemma DayBounds(year: int, month: int)
    ensures !IsValidDate(year, month, 0)
    ensures !IsValidDate(year, month, 31)
  {
  }

  /** For months 1..12 validity is the same in every year, and the first of
      every month is valid in every year: no year bound exists. */
  lemma ValidityIgnoresYear(year1: int, year2: int, month: int, day: int)
    requires 1 <= month <= 12
    ensures IsValidDate(year1, month, day) <==> IsValidDate(year2, month, day)
    ensures IsValidDate(year1, month, 1)
  {
  }
}
