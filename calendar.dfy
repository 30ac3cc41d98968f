/** Proleptic Gregorian dates as Python's `datetime.date` has them (years 1 to 9999). */
module Calendar {

  datatype Date = Date(year: int, month: int, day: int)

  predicate IsLeapYear(y: int) { y % 4 == 0 && (y % 100 != 0 || y % 400 == 0) }

  function DaysInMonth(y: int, m: int): (n: int)
    requires 1 <= m <= 12
    ensures 28 <= n <= 31
  {
    if m == 2 then (if IsLeapYear(y) then 29 else 28)
    else if m == 4 || m == 6 || m == 9 || m == 11 then 30
    else 31
  }

  /** What `date(y, m, d)` accepts; any other triple raises `ValueError`. */
  predicate ValidDate(d: Date)
  {
    1 <= d.year <= 9999 && 1 <= d.month <= 12 && 1 <= d.day <= DaysInMonth(d.year, d.month)
  }

  /** Chronological order, which on valid dates is the lexicographic order of (year, month, day). */
  predicate DateLe(a: Date, b: Date)
  {
    a.year < b.year || (a.year == b.year && (a.month < b.month || (a.month == b.month && a.day <= b.day)))
  }

  lemma DateLeTotal(a: Date, b: Date)
    ensures DateLe(a, b) || DateLe(b, a)
    ensures DateLe(a, b) && DateLe(b, a) ==> a == b
  {
  }

  lemma DateLeTransitive(a: Date, b: Date, c: Date)
    requires DateLe(a, b) && DateLe(b, c)
    ensures DateLe(a, c)
  {
  }

  function DaysBeforeMonth(y: int, m: int): (n: int)
    requires 1 <= m <= 12
    ensures 0 <= n <= 31 * (m - 1)
  {
    if m == 1 then 0 else DaysBeforeMonth(y, m - 1) + DaysInMonth(y, m - 1)
  }

  /** `date.toordinal()`: 1 for 0001-01-01, counting every day since. */
  function Ordinal(d: Date): int
    requires ValidDate(d)
  {
    var y := d.year - 1;
    y * 365 + y / 4 - y / 100 + y / 400 + DaysBeforeMonth(d.year, d.month) + d.day
  }

  /** `(later - earlier).days` for two dates. */
  function DaysBetween(earlier: Date, later: Date): int
    requires ValidDate(earlier) && ValidDate(later)
  {
    Ordinal(later) - Ordinal(earlier)
  }
}
