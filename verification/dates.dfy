/** Calendar dates of the ISO (proleptic Gregorian) calendar, as
    `java.time.LocalDate` represents them. */
module Dates {

  datatype Date = Date(year: int, month: int, day: int)

  const MinYear := -999_999_999
  const MaxYear := 999_999_999

  /** The Gregorian leap-year rule. Java's `%` truncates towards zero, but only
      whether the remainder is zero matters here, and that agrees with Dafny's
      Euclidean `%`. */
  predicate IsLeapYear(y: int)
  {
    y % 4 == 0 && (y % 100 != 0 || y % 400 == 0)
  }

  /** `LocalDate.lengthOfMonth`. */
  function DaysInMonth(y: int, m: int): (n: int)
    requires 1 <= m <= 12
    ensures 28 <= n <= 31
    ensures m == 2 ==> (n == 29 <==> IsLeapYear(y))
    ensures m != 2 ==> (n == 30 <==> m in {4, 6, 9, 11})
    ensures m == 2 && !IsLeapYear(y) ==> n == 28
    ensures m !in {2, 4, 6, 9, 11} ==> n == 31
  {
    if m == 2 then (if IsLeapYear(y) then 29 else 28)
    else if m == 4 || m == 6 || m == 9 || m == 11 then 30
    else 31
  }

  /** `Year.length`: the twelve months add up to 366 days in a leap year and
      365 otherwise. */
  lemma YearLength(y: int)
    ensures DaysInMonth(y, 1) + DaysInMonth(y, 2) + DaysInMonth(y, 3) + DaysInMonth(y, 4)
            + DaysInMonth(y, 5) + DaysInMonth(y, 6) + DaysInMonth(y, 7) + DaysInMonth(y, 8)
            + DaysInMonth(y, 9) + DaysInMonth(y, 10) + DaysInMonth(y, 11) + DaysInMonth(y, 12)
            == if IsLeapYear(y) then 366 else 365
  {
  }

  /** The dates `LocalDate.of` accepts. */
  predicate Valid(d: Date)
  {
    && MinYear <= d.year <= MaxYear
    && 1 <= d.month <= 12
    && 1 <= d.day <= DaysInMonth(d.year, d.month)
  }

  /** A `LocalDate` value: it can only ever hold a valid date. */
  type LocalDate = d: Date | Valid(d) witness Date(1970, 1, 1)

  /** Calendar order: year first, then month, then day. */
  predicate Before(a: Date, b: Date)
  {
    || a.year < b.year
    || (a.year == b.year && a.month < b.month)
    || (a.year == b.year && a.month == b.month && a.day < b.day)
  }

  /** `LocalDate.compareTo`: the difference of the years, or if those agree of
      the months, or if those agree too of the days. Its sign is the calendar
      order and it is zero exactly on equal dates. */
  function CompareTo(a: Date, b: Date): (r: int)
    ensures r == 0 <==> a == b
    ensures r < 0 <==> Before(a, b)
    ensures r > 0 <==> Before(b, a)
  {
    var byYear := a.year - b.year;
    if byYear != 0 then byYear
    else
      var byMonth := a.month - b.month;
      if byMonth != 0 then byMonth else a.day - b.day
  }

  /** `a.compareTo(b) <= 0`. */
  predicate OnOrBefore(a: Date, b: Date)
  {
    CompareTo(a, b) <= 0
  }

  /** `date.with(TemporalAdjusters.lastDayOfMonth())`: the same year and month,
      on the month's last day. */
  function LastDayOfMonth(d: LocalDate): (r: LocalDate)
    ensures r.year == d.year && r.month == d.month
    ensures !Valid(Date(r.year, r.month, r.day + 1))
    ensures OnOrBefore(d, r)
  {
    Date(d.year, d.month, DaysInMonth(d.year, d.month))
  }

  /** Every date lies in its own month, up to its last day: a date in a given
      year and month is on or before the month end of any date in that month. */
  lemma {:induction false} WithinOwnMonth(d: LocalDate, e: LocalDate)
    requires d.year == e.year && d.month == e.month
    ensures OnOrBefore(d, LastDayOfMonth(e))
    ensures OnOrBefore(Date(e.year, e.month, 1), d)
  {
  }

  /** `OnOrBefore` orders dates totally. */
  lemma OnOrBeforeTotalPreorder(a: Date, b: Date, c: Date)
    ensures OnOrBefore(a, a)
    ensures OnOrBefore(a, b) || OnOrBefore(b, a)
    ensures OnOrBefore(a, b) && OnOrBefore(b, c) ==> OnOrBefore(a, c)
    ensures OnOrBefore(a, b) && OnOrBefore(b, a) ==> a == b
  {
  }
}
