/**
 * Calendar days in the proleptic Gregorian calendar. This is the day
 * granularity at which the booking form compares and advances dates; it
 * stands in for the JavaScript `Date` object, whose time of day, time zone
 * and daylight-saving behaviour are not modelled.
 */
module CivilDates {

  /** A calendar day: a year, a month 1..12 and a day of the month. */
  datatype Date = Date(year: int, month: int, day: int)

  /** Gregorian leap-year rule. */
  predicate IsLeapYear(y: int) {
    y % 4 == 0 && (y % 100 != 0 || y % 400 == 0)
  }

  /** Length of month `m` of year `y`. */
  function DaysInMonth(y: int, m: int): int
    requires 1 <= m <= 12
  {
    if m == 2 then (if IsLeapYear(y) then 29 else 28)
    else if m == 4 || m == 6 || m == 9 || m == 11 then 30
    else 31
  }

  /** A date that names an existing day. */
  predicate Valid(d: Date) {
    1 <= d.month <= 12 && 1 <= d.day <= DaysInMonth(d.year, d.month)
  }

  type CivilDate = d: Date | Valid(d) witness Date(1970, 1, 1)

  /** Strict chronological order. */
  predicate Before(a: Date, b: Date) {
    a.year < b.year ||
    (a.year == b.year && (a.month < b.month || (a.month == b.month && a.day < b.day)))
  }

  /**
   * The following day, rolling over at the end of a month and of a year.
   * It is the immediate successor of `d`: the days before it are exactly
   * `d` and the days before `d`, so no existing day is skipped.
   */
  function NextDay(d: CivilDate): (r: CivilDate)
    ensures Before(d, r)
    ensures forall e: CivilDate :: Before(e, r) <==> e == d || Before(e, d)
  {
    if d.day < DaysInMonth(d.year, d.month) then Date(d.year, d.month, d.day + 1)
    else if d.month < 12 then Date(d.year, d.month + 1, 1)
    else Date(d.year + 1, 1, 1)
  }

  /**
   * The `n` consecutive days that begin at `start`: the first is `start` and
   * each following one is the next day of the one before it.
   */
  function Days(start: CivilDate, n: nat): (w: seq<CivilDate>)
    ensures |w| == n
    ensures n > 0 ==> w[0] == start
    ensures forall k :: 0 < k < n ==> w[k] == NextDay(w[k - 1])
    decreases n
  {
    if n == 0 then [] else [start] + Days(NextDay(start), n - 1)
  }

  /** Consecutive days are in strictly increasing order, so they are all different. */
  lemma {:induction false} DaysAscending(start: CivilDate, n: nat, i: nat, j: nat)
    requires i < j < n
    ensures Before(Days(start, n)[i], Days(start, n)[j])
  {
    if i < j - 1 {
      DaysAscending(start, n, i, j - 1);
    }
  }

  /**
   * Consecutive days skip no day: every existing day from `start` up to, but
   * not including, the `k`-th one is one of the `k` days before it.
   */
  lemma {:induction false} DaysCover(start: CivilDate, n: nat, k: nat, c: CivilDate)
    requires k < n
    requires !Before(c, start) && Before(c, Days(start, n)[k])
    ensures exists j :: 0 <= j < k && c == Days(start, n)[j]
  {
    if k > 0 && c != Days(start, n)[k - 1] {
      DaysCover(start, n, k - 1, c);
    }
  }
}
