/** Calendar dates as Python's `datetime.date` admits them (years 1 through 9999). */
module Dates {
  import opened Wrappers

  const MinYear := 1
  const MaxYear := 9999

  datatype CalendarDate = CalendarDate(year: int, month: int, day: int)

  predicate IsLeapYear(year: int) {
    year % 4 == 0 && (year % 100 != 0 || year % 400 == 0)
  }

  function DaysInMonth(year: int, month: int): (n: int)
    requires 1 <= month <= 12
    ensures 28 <= n <= 31
  {
    if month == 2 then (if IsLeapYear(year) then 29 else 28)
    else if month == 4 || month == 6 || month == 9 || month == 11 then 30
    else 31
  }

  predicate IsValid(d: CalendarDate) {
    && MinYear <= d.year <= MaxYear
    && 1 <= d.month <= 12
    && 1 <= d.day <= DaysInMonth(d.year, d.month)
  }

  /** A value of `datetime.date`. */
  type Date = d: CalendarDate | IsValid(d) witness CalendarDate(1, 1, 1)

  /** `date(year, month, day)`: None exactly where the constructor raises ValueError. */
  function MakeDate(year: int, month: int, day: int): (r: Option<Date>)
    ensures r.Some? <==> IsValid(CalendarDate(year, month, day))
    ensures r.Some? ==> r.value == CalendarDate(year, month, day)
  {
    var d := CalendarDate(year, month, day);
    if IsValid(d) then Some(d) else None
  }

  /** Chronological order, which for dates is the lexicographic order of (year, month, day). */
  predicate Before(a: Date, b: Date) {
    a.year < b.year
    || (a.year == b.year && a.month < b.month)
    || (a.year == b.year && a.month == b.month && a.day < b.day)
  }

  predicate NotAfter(a: Date, b: Date) {
    a == b || Before(a, b)
  }
}
