/** Calendar dates as Go's `time.Time` sees them once time-of-day and time
    zones are set aside: a proleptic Gregorian (year, month, day). */
module Calendar {

  datatype Date = Date(year: int, month: int, day: int)

  /** Go's zero `time.Time{}`: January 1 of year 1. */
  const Epoch: Date := Date(1, 1, 1)

  /** Go's `isLeap`. Go's `%` truncates where Dafny's is Euclidean, but a
      remainder is zero under one exactly when it is under the other. */
  predicate IsLeap(year: int) {
    year % 4 == 0 && (year % 100 != 0 || year % 400 == 0)
  }

  /** Go's `daysIn`. */
  function DaysIn(month: int, year: int): (n: int)
    requires 1 <= month <= 12
    ensures 28 <= n <= 31
    ensures n == 29 <==> month == 2 && IsLeap(year)
  {
    if month == 2 then (if IsLeap(year) then 29 else 28)
    else if month == 4 || month == 6 || month == 9 || month == 11 then 30
    else 31
  }

  /** A date a `time.Time` can hold: month in range and day within the month. */
  predicate Valid(d: Date) {
    1 <= d.month <= 12 && 1 <= d.day <= DaysIn(d.month, d.year)
  }

  /** Chronological order of dates (Go's `Before`/`After` at equal time of day). */
  predicate Before(a: Date, b: Date) {
    a.year < b.year
    || (a.year == b.year && a.month < b.month)
    || (a.year == b.year && a.month == b.month && a.day < b.day)
  }

  /** `t.AddDate(0, 0, -1)` on a valid date: the calendar day before it,
      across month and year boundaries. It is earlier than `d` and no valid
      date lies strictly between the two. */
  function PrevDay(d: Date): (r: Date)
    requires Valid(d)
    ensures Valid(r)
    ensures Before(r, d)
    ensures forall e :: Valid(e) && Before(e, d) ==> !Before(r, e)
  {
    if d.day > 1 then Date(d.year, d.month, d.day - 1)
    else if d.month > 1 then Date(d.year, d.month - 1, DaysIn(d.month - 1, d.year))
    else Date(d.year - 1, 12, 31)
  }

  /** `Before` is a strict total order on dates. */
  lemma BeforeIsStrictTotal(a: Date, b: Date, c: Date)
    ensures !Before(a, a)
    ensures Before(a, b) ==> !Before(b, a)
    ensures Before(a, b) && Before(b, c) ==> Before(a, c)
    ensures a != b ==> Before(a, b) || Before(b, a)
  {
  }
}
