/**
  Counting the full calendar years of refund eligibility between a sale date
  and the evaluation date (`calculate_full_calendar_years`, app.py:17-45).
  Only the year, month and day of each date take part, in integer arithmetic.
 */
module Eligibility {

  /** A calendar date, as a Python `datetime` exposes it. */
  datatype Date = Date(year: int, month: int, day: int)

  /** A refund can be claimed for at most this many years. */
  const MaxEligibleYears: int := 4

  predicate IsLeapYear(y: int) {
    y % 4 == 0 && (y % 100 != 0 || y % 400 == 0)
  }

  function DaysInMonth(y: int, m: int): (n: int)
    requires 1 <= m <= 12
    ensures 28 <= n <= 31
    ensures m == 12 ==> n == 31
  {
    if m == 2 then (if IsLeapYear(y) then 29 else 28)
    else if m == 4 || m == 6 || m == 9 || m == 11 then 30
    else 31
  }

  /** The dates a `datetime` can hold. */
  predicate ValidDate(d: Date) {
    1 <= d.month <= 12 && 1 <= d.day <= DaysInMonth(d.year, d.month)
  }

  predicate IsJanFirst(d: Date) {
    d.month == 1 && d.day == 1
  }

  predicate IsDecLast(d: Date) {
    d.month == 12 && d.day == 31
  }

  /**
    The years strictly between the sale year and the evaluation year, floored
    at 0; then one more when the sale was on January 1 and one more when the
    evaluation date is December 31; then capped at four.
   */
  function FullCalendarYears(sale: Date, today: Date): (r: int)
    ensures 0 <= r <= MaxEligibleYears
  {
    var between := today.year - sale.year - 1;
    var counted := if between < 0 then 0 else between;
    var withSaleYear := if IsJanFirst(sale) then counted + 1 else counted;
    var withThisYear := if IsDecLast(today) then withSaleYear + 1 else withSaleYear;
    if withThisYear < MaxEligibleYears then withThisYear else MaxEligibleYears
  }

  /** The floor applies to the base count only: both bonuses survive a negative base. */
  lemma SameYearGetsBothBonuses(y: int)
    ensures FullCalendarYears(Date(y, 1, 1), Date(y, 12, 31)) == 2
  {
  }

  /**
    When the evaluation year is not after the sale year the result is the
    number of bonuses alone, so a sale dated after the evaluation date can
    still be credited with one or two years.
   */
  lemma BonusesOnlyWhenNoYearBetween(sale: Date, today: Date)
    requires today.year <= sale.year + 1
    ensures FullCalendarYears(sale, today)
         == (if IsJanFirst(sale) then 1 else 0) + (if IsDecLast(today) then 1 else 0)
  {
  }

  /** Without either bonus and with no whole year in between, nothing is eligible. */
  lemma NoBonusShortSpanIsZero(sale: Date, today: Date)
    requires !IsJanFirst(sale) && !IsDecLast(today)
    requires today.year <= sale.year + 1
    ensures FullCalendarYears(sale, today) == 0
  {
  }

  /** Without either bonus, four whole years in between reach the cap. */
  lemma NoBonusLongSpanIsCapped(sale: Date, today: Date)
    requires !IsJanFirst(sale) && !IsDecLast(today)
    requires today.year - sale.year - 1 >= MaxEligibleYears
    ensures FullCalendarYears(sale, today) == MaxEligibleYears
  {
  }

  /** Moving the evaluation date to the same day of a later year never lowers the count. */
  lemma MonotoneInEvaluationYear(sale: Date, today: Date, later: Date)
    requires later.month == today.month && later.day == today.day
    requires today.year <= later.year
    ensures FullCalendarYears(sale, today) <= FullCalendarYears(sale, later)
  {
  }

  /** Moving the sale to the same day of a later year never raises the count. */
  lemma AntitoneInSaleYear(sale: Date, later: Date, today: Date)
    requires later.month == sale.month && later.day == sale.day
    requires sale.year <= later.year
    ensures FullCalendarYears(later, today) <= FullCalendarYears(sale, today)
  {
  }

  /*
    A reference definition of the same quantity: the number of calendar years
    that lie wholly between the sale date and the evaluation date.
   */

  /** Lexicographic order on dates. */
  predicate DateLe(a: Date, b: Date) {
    a.year < b.year || (a.year == b.year && (a.month < b.month || (a.month == b.month && a.day <= b.day)))
  }

  /** Calendar year `y` runs from January 1 to December 31 inside [sale, today]. */
  predicate CoversYear(sale: Date, today: Date, y: int) {
    DateLe(sale, Date(y, 1, 1)) && DateLe(Date(y, 12, 31), today)
  }

  /** How many of the years in [lo, hi) are covered. */
  function CoveredYearsIn(sale: Date, today: Date, lo: int, hi: int): (n: nat)
    decreases hi - lo
  {
    if hi <= lo then 0
    else CoveredYearsIn(sale, today, lo, hi - 1) + (if CoversYear(sale, today, hi - 1) then 1 else 0)
  }

  /** Every covered year lies between the sale year and the evaluation year. */
  function CoveredYears(sale: Date, today: Date): nat {
    CoveredYearsIn(sale, today, sale.year, today.year + 1)
  }

  /** The first year covered, and the last, when dates are valid. */
  function FirstCoveredYear(sale: Date): int {
    if IsJanFirst(sale) then sale.year else sale.year + 1
  }

  function LastCoveredYear(today: Date): int {
    if IsDecLast(today) then today.year else today.year - 1
  }

  lemma CoversYearIff(sale: Date, today: Date, y: int)
    requires ValidDate(sale) && ValidDate(today)
    ensures CoversYear(sale, today, y) <==> FirstCoveredYear(sale) <= y <= LastCoveredYear(today)
  {
  }

  /** The covered years form the interval [FirstCoveredYear, LastCoveredYear]; count its part in [lo, hi). */
  lemma {:induction false} CoveredYearsInInterval(sale: Date, today: Date, lo: int, hi: int)
    requires ValidDate(sale) && ValidDate(today)
    ensures var a := if FirstCoveredYear(sale) < lo then lo else FirstCoveredYear(sale);
            var b := if LastCoveredYear(today) + 1 < hi then LastCoveredYear(today) + 1 else hi;
            CoveredYearsIn(sale, today, lo, hi) == if b <= a then 0 else b - a
    decreases hi - lo
  {
    if lo < hi {
      CoveredYearsInInterval(sale, today, lo, hi - 1);
      CoversYearIff(sale, today, hi - 1);
    }
  }

  /**
    Once the evaluation year is after the sale year, the formula counts exactly
    the calendar years lying wholly between the two dates, capped at four.
   */
  lemma AgreesWithCoveredYears(sale: Date, today: Date)
    requires ValidDate(sale) && ValidDate(today)
    requires sale.year < today.year
    ensures FullCalendarYears(sale, today)
         == if CoveredYears(sale, today) < MaxEligibleYears then CoveredYears(sale, today) else MaxEligibleYears
  {
    CoveredYearsInInterval(sale, today, sale.year, today.year + 1);
  }

  /**
    In the sale year itself the formula credits one year more than are covered
    whenever a bonus applies: a January 1 sale evaluated on December 31 of the
    same year counts two years where only one has elapsed.
   */
  lemma SameYearCountsOneExtra(sale: Date, today: Date)
    requires ValidDate(sale) && ValidDate(today)
    requires sale.year == today.year && DateLe(sale, today)
    requires IsJanFirst(sale) || IsDecLast(today)
    ensures FullCalendarYears(sale, today) == CoveredYears(sale, today) + 1
  {
    CoveredYearsInInterval(sale, today, sale.year, today.year + 1);
  }

  /**
    The count can drop as the evaluation date advances: a mid-year sale
    evaluated on December 31 of the sale year earns the December 31 bonus,
    which the next day, with no whole year in between, is gone.
   */
  lemma NotMonotoneAcrossYearEnd(y: int)
    ensures FullCalendarYears(Date(y, 6, 1), Date(y, 12, 31)) == 1
    ensures FullCalendarYears(Date(y, 6, 1), Date(y + 1, 1, 1)) == 0
    ensures DateLe(Date(y, 12, 31), Date(y + 1, 1, 1))
  {
  }

  /** Worked cases: a Jan 1 sale four years before a Dec 31 evaluation hits the cap; one mid-year year apart gives none. */
  lemma WorkedCases()
    ensures FullCalendarYears(Date(2020, 1, 1), Date(2024, 12, 31)) == 4
    ensures FullCalendarYears(Date(2023, 6, 15), Date(2024, 6, 15)) == 0
  {
  }
}
