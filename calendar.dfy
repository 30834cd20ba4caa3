/** Dates and times as the application's SQL and PHP see them. A timestamp is a number of
    seconds since 1970-01-01 00:00:00 and a date is a day number counted from 1970-01-01;
    months are counted from January 1970. `DATE(t)` and `CURDATE()` become `DayOf`, and
    PHP's `strtotime("+N month", t)` becomes `AddMonths`, which keeps the day of the month
    and lets a day the target month does not have roll forward into the next month. */
module Calendar {

  type Day = nat
  type Instant = nat

  const SecondsPerDay: nat := 86400

  /** `DATE(t)`: the calendar day a timestamp falls on. */
  function DayOf(t: Instant): (d: Day)
    ensures StartOfDay(d) <= t < StartOfDay(d + 1)
  {
    t / SecondsPerDay
  }

  /** The timestamp of midnight at the start of a day, as `strtotime('Y-m-d')` gives it. */
  function StartOfDay(d: Day): Instant {
    d * SecondsPerDay
  }

  predicate IsLeapYear(y: int) {
    (y % 4 == 0 && y % 100 != 0) || y % 400 == 0
  }

  /** The number of days of month `k` (month 0 is January 1970). */
  function MonthLength(k: nat): (n: nat)
    ensures 28 <= n <= 31
  {
    var year, month := 1970 + k / 12, k % 12 + 1;
    if month == 2 then (if IsLeapYear(year) then 29 else 28)
    else if month == 4 || month == 6 || month == 9 || month == 11 then 30
    else 31
  }

  /** The day number of the first day of month `k`. */
  function MonthStart(k: nat): Day {
    if k == 0 then 0 else MonthStart(k - 1) + MonthLength(k - 1)
  }

  lemma {:induction false} MonthStartIncreasing(j: nat, k: nat)
    requires j < k
    ensures MonthStart(j) + MonthLength(j) <= MonthStart(k)
  {
    if j + 1 < k {
      MonthStartIncreasing(j, k - 1);
    }
  }

  /** The month a day lies in, found by walking forward from month `k`. */
  function Locate(d: Day, k: nat): (m: nat)
    requires MonthStart(k) <= d
    ensures k <= m && MonthStart(m) <= d < MonthStart(m + 1)
    decreases d - MonthStart(k)
  {
    if d < MonthStart(k + 1) then k else Locate(d, k + 1)
  }

  /** The month (counted from January 1970) that day `d` lies in. */
  function MonthOf(d: Day): (k: nat)
    ensures MonthStart(k) <= d < MonthStart(k + 1)
  {
    Locate(d, 0)
  }

  /** Exactly one month contains a given day. */
  lemma MonthOfUnique(d: Day, k: nat)
    requires MonthStart(k) <= d < MonthStart(k + 1)
    ensures MonthOf(d) == k
  {
    var m := MonthOf(d);
    if m < k {
      MonthStartIncreasing(m, k);
    } else if k < m {
      MonthStartIncreasing(k, m);
    }
  }

  /** The day of the month, 1 to 31, that day `d` is. */
  function DayOfMonth(d: Day): (n: nat)
    ensures 1 <= n <= MonthLength(MonthOf(d))
  {
    d - MonthStart(MonthOf(d)) + 1
  }

  /** PHP's `strtotime("+n month", t)` on the day of `t`: the month advances by `n` and the
      day of the month is kept, counted from the first of the new month, so that a day the
      new month lacks rolls over into the month after (January 31 + 1 month is March 2 or 3). */
  function AddMonths(d: Day, n: nat): (r: Day)
    ensures n == 0 ==> r == d
  {
    var k := MonthOf(d);
    MonthStart(k + n) + (d - MonthStart(k))
  }

  /** Every month has between 28 and 31 days, so `n` months span between 28n and 31n days. */
  lemma {:induction false} MonthStartGrowth(k: nat, n: nat)
    ensures MonthStart(k) + 28 * n <= MonthStart(k + n) <= MonthStart(k) + 31 * n
  {
    if n > 0 {
      MonthStartGrowth(k, n - 1);
    }
  }

  /** `+n month` moves a day forward by between 28n and 31n days. */
  lemma AddMonthsGrowth(d: Day, n: nat)
    ensures d + 28 * n <= AddMonths(d, n) <= d + 31 * n
  {
    MonthStartGrowth(MonthOf(d), n);
  }

  /** Adding more months gives a strictly later day. */
  lemma AddMonthsStrictlyIncreasing(d: Day, m: nat, n: nat)
    requires m < n
    ensures AddMonths(d, m) < AddMonths(d, n)
  {
    MonthStartIncreasing(MonthOf(d) + m, MonthOf(d) + n);
  }

  /** When the target month has the day, `+n month` lands on the same day of the month n months on. */
  lemma AddMonthsKeepsDayOfMonth(d: Day, n: nat)
    requires DayOfMonth(d) <= MonthLength(MonthOf(d) + n)
    ensures MonthOf(AddMonths(d, n)) == MonthOf(d) + n
    ensures DayOfMonth(AddMonths(d, n)) == DayOfMonth(d)
  {
    MonthOfUnique(AddMonths(d, n), MonthOf(d) + n);
  }

  /** When the target month is too short, the surplus days roll over into the following month
      (PHP does not clamp to the last day of the month). */
  lemma AddMonthsRollsOver(d: Day, n: nat)
    requires DayOfMonth(d) > MonthLength(MonthOf(d) + n)
    ensures MonthOf(AddMonths(d, n)) == MonthOf(d) + n + 1
    ensures DayOfMonth(AddMonths(d, n)) == DayOfMonth(d) - MonthLength(MonthOf(d) + n)
  {
    var t := MonthOf(d) + n;
    assert MonthStart(t + 2) == MonthStart(t + 1) + MonthLength(t + 1);
    MonthOfUnique(AddMonths(d, n), t + 1);
  }
}
