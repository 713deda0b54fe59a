/** Calendar dates as Python's `datetime.date` holds them: the proleptic
    Gregorian calendar, years 1 through 9999. */
module Calendar {

  datatype Date = Date(year: int, month: int, day: int)

  const MinYear: int := 1
  const MaxYear: int := 9999

  predicate IsLeapYear(y: int) {
    y % 4 == 0 && (y % 100 != 0 || y % 400 == 0)
  }

  function DaysInMonth(y: int, m: int): int
    requires 1 <= m <= 12
  {
    if m == 2 then (if IsLeapYear(y) then 29 else 28)
    else if m == 4 || m == 6 || m == 9 || m == 11 then 30
    else 31
  }

  /** A date `datetime.date` accepts. */
  predicate IsValid(d: Date) {
    && MinYear <= d.year <= MaxYear
    && 1 <= d.month <= 12
    && 1 <= d.day <= DaysInMonth(d.year, d.month)
  }

  /** Number of whole months from January of year 0 to the month of `d`:
      consecutive calendar months have consecutive indices. */
  function MonthIndex(d: Date): int {
    d.year * 12 + (d.month - 1)
  }

  /** Chronological order on dates. */
  predicate Before(a: Date, b: Date) {
    || a.year < b.year
    || (a.year == b.year && a.month < b.month)
    || (a.year == b.year && a.month == b.month && a.day < b.day)
  }

  predicate AtOrBefore(a: Date, b: Date) {
    a == b || Before(a, b)
  }

  /** Day 1 of the month of `d`. */
  function FirstOfMonth(d: Date): Date {
    Date(d.year, d.month, 1)
  }

  /** Day 1 of the month just before the month of `d`, computed by counting
      months rather than by cases: a reference for the previous-month
      derivation the script performs. */
  function FirstOfPreviousMonth(d: Date): (p: Date)
    requires 1 <= d.month <= 12
    ensures p.day == 1 && 1 <= p.month <= 12
    ensures MonthIndex(p) + 1 == MonthIndex(d)
  {
    var index := MonthIndex(d) - 1;
    Date(index / 12, index % 12 + 1, 1)
  }

  /** Counting back one month from January lands on December of the year
      before; from any other month, on the month before in the same year. */
  lemma PreviousMonthCases(d: Date)
    requires 1 <= d.month <= 12
    ensures d.month == 1 ==> FirstOfPreviousMonth(d) == Date(d.year - 1, 12, 1)
    ensures d.month != 1 ==> FirstOfPreviousMonth(d) == Date(d.year, d.month - 1, 1)
  {
  }
}
