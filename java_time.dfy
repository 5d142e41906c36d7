/** The java.time pieces the habit tracker uses: LocalDate values and
    YearMonth.lengthOfMonth, in the proleptic Gregorian calendar of ISO 8601. */
module JavaTime {

  const MinYear: int := -999_999_999
  const MaxYear: int := 999_999_999

  /** IsoChronology.isLeapYear: divisible by 4, except centuries not divisible by 400. */
  predicate IsLeapYear(year: int) {
    year % 4 == 0 && (year % 100 != 0 || year % 400 == 0)
  }

  /** YearMonth.lengthOfMonth (Month.length): February has 28 days, 29 in a leap year;
      April, June, September and November have 30; the other months 31. */
  function LengthOfMonth(year: int, month: int): (n: int)
    requires 1 <= month <= 12
    ensures 28 <= n <= 31
    ensures month == 2 ==> n == (if IsLeapYear(year) then 29 else 28)
    ensures month != 2 ==> n == (if month in {4, 6, 9, 11} then 30 else 31)
  {
    match month
    case 2 => if IsLeapYear(year) then 29 else 28
    case 4 | 6 | 9 | 11 => 30
    case _ => 31
  }

  /** The days in months 1 through m of the given year. */
  function DaysBeforeMonthEnd(year: int, m: int): (n: int)
    requires 0 <= m <= 12
  {
    if m == 0 then 0 else DaysBeforeMonthEnd(year, m - 1) + LengthOfMonth(year, m)
  }

  /** Year.length: 366 days in a leap year, 365 otherwise. */
  function LengthOfYear(year: int): int {
    if IsLeapYear(year) then 366 else 365
  }

  /** The twelve month lengths add up to the length of the year. */
  lemma {:induction false} MonthsMakeYear(year: int)
    ensures DaysBeforeMonthEnd(year, 12) == LengthOfYear(year)
  {
    assert DaysBeforeMonthEnd(year, 1) == 31;
    assert DaysBeforeMonthEnd(year, 2) == 59 + (LengthOfYear(year) - 365);
    assert DaysBeforeMonthEnd(year, 3) == 90 + (LengthOfYear(year) - 365);
    assert DaysBeforeMonthEnd(year, 4) == 120 + (LengthOfYear(year) - 365);
    assert DaysBeforeMonthEnd(year, 5) == 151 + (LengthOfYear(year) - 365);
    assert DaysBeforeMonthEnd(year, 6) == 181 + (LengthOfYear(year) - 365);
    assert DaysBeforeMonthEnd(year, 7) == 212 + (LengthOfYear(year) - 365);
    assert DaysBeforeMonthEnd(year, 8) == 243 + (LengthOfYear(year) - 365);
    assert DaysBeforeMonthEnd(year, 9) == 273 + (LengthOfYear(year) - 365);
    assert DaysBeforeMonthEnd(year, 10) == 304 + (LengthOfYear(year) - 365);
    assert DaysBeforeMonthEnd(year, 11) == 334 + (LengthOfYear(year) - 365);
  }

  datatype Date = Date(year: int, month: int, day: int)

  predicate IsValidDate(d: Date) {
    && MinYear <= d.year <= MaxYear
    && 1 <= d.month <= 12
    && 1 <= d.day <= LengthOfMonth(d.year, d.month)
  }

  /** A java.time.LocalDate: a valid ISO date. A SQL DATE value holds the same. */
  type LocalDate = d: Date | IsValidDate(d) witness Date(1970, 1, 1)
}
