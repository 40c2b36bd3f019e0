/** The proleptic Gregorian calendar of Python's `datetime`, reduced to what
    filter_datetime produces: a civil (year, month, day, hour, minute) tuple
    with no time zone attached. */
module Calendar {
  import opened Wrappers

  const MinYear := 1
  const MaxYear := 9999

  datatype DateTime = DateTime(year: int, month: int, day: int, hour: int, minute: int)

  predicate IsLeapYear(year: int) {
    year % 4 == 0 && (year % 100 != 0 || year % 400 == 0)
  }

  function DaysInMonth(year: int, month: int): (n: int)
    requires 1 <= month <= 12
    ensures 28 <= n <= 31
    ensures n == 29 <==> month == 2 && IsLeapYear(year)
  {
    if month == 2 then (if IsLeapYear(year) then 29 else 28)
    else if month == 4 || month == 6 || month == 9 || month == 11 then 30
    else 31
  }

  /** The dates the `datetime` constructor accepts. */
  predicate IsValidDate(year: int, month: int, day: int) {
    && MinYear <= year <= MaxYear
    && 1 <= month <= 12
    && 1 <= day <= DaysInMonth(year, month)
  }

  /** The date-times the `datetime` constructor accepts (seconds and below are always zero here). */
  predicate IsValid(t: DateTime) {
    && IsValidDate(t.year, t.month, t.day)
    && 0 <= t.hour < 24
    && 0 <= t.minute < 60
  }

  /** The day after a valid date, or None past the last representable day,
      where adding a day to a `datetime` overflows. */
  function NextDay(year: int, month: int, day: int): (r: Option<(int, int, int)>)
    requires IsValidDate(year, month, day)
    ensures r.Some? ==> IsValidDate(r.value.0, r.value.1, r.value.2)
    ensures r.None? <==> (year, month, day) == (MaxYear, 12, 31)
  {
    if day < DaysInMonth(year, month) then Some((year, month, day + 1))
    else if month < 12 then Some((year, month + 1, 1))
    else if year < MaxYear then Some((year + 1, 1, 1))
    else None
  }

  function YearLength(year: int): (n: int)
    ensures n == 365 || n == 366
  {
    if IsLeapYear(year) then 366 else 365
  }

  /** Days in the years MinYear .. year-1. */
  function DaysBeforeYear(year: int): (n: nat)
    requires MinYear <= year
    decreases year
  {
    if year == MinYear then 0 else DaysBeforeYear(year - 1) + YearLength(year - 1)
  }

  /** Days in the months 1 .. month-1 of a year. */
  function DaysBeforeMonth(year: int, month: int): (n: nat)
    requires 1 <= month <= 13
    decreases month
  {
    if month == 1 then 0 else DaysBeforeMonth(year, month - 1) + DaysInMonth(year, month - 1)
  }

  /** The ordinal of a date, day 1 being 0001-01-01 (Python's `date.toordinal`). */
  function Ordinal(year: int, month: int, day: int): (n: int)
    requires IsValidDate(year, month, day)
  {
    DaysBeforeYear(year) + DaysBeforeMonth(year, month) + day
  }

  /** The months of a year add up to the year. */
  lemma MonthsFillYear(year: int)
    ensures DaysBeforeMonth(year, 13) == YearLength(year)
  {
    assert DaysBeforeMonth(year, 3) == 31 + DaysInMonth(year, 2);
  }

  /** NextDay is the successor in the ordinal numbering. */
  lemma NextDayIsSuccessor(year: int, month: int, day: int)
    requires IsValidDate(year, month, day)
    ensures var r := NextDay(year, month, day);
      r.Some? ==> Ordinal(r.value.0, r.value.1, r.value.2) == Ordinal(year, month, day) + 1
  {
    if day == DaysInMonth(year, month) && month == 12 && year < MaxYear {
      MonthsFillYear(year);
    }
  }
}
