/**
 * Calendar dates as the date-of-birth validator sees them: proleptic Gregorian
 * (year, month, day) triples, their order, the date a number of years later, and
 * the number of whole years from one date to another, which stands for
 * `Calendar.current.dateComponents([.year], from:to:)`.
 */
module Calendar {

  datatype Date = Date(year: int, month: int, day: int)

  predicate IsLeapYear(y: int) {
    y % 4 == 0 && (y % 100 != 0 || y % 400 == 0)
  }

  function DaysInMonth(y: int, m: int): (n: int)
    requires 1 <= m <= 12
    ensures 28 <= n <= 31
    ensures n == 29 <==> m == 2 && IsLeapYear(y)
  {
    if m == 2 then (if IsLeapYear(y) then 29 else 28)
    else if m == 4 || m == 6 || m == 9 || m == 11 then 30
    else 31
  }

  predicate IsValidDate(d: Date) {
    1 <= d.month <= 12 && 1 <= d.day <= DaysInMonth(d.year, d.month)
  }

  /** `a` is strictly earlier than `b`: year, then month, then day. */
  predicate Before(a: Date, b: Date) {
    || a.year < b.year
    || (a.year == b.year && a.month < b.month)
    || (a.year == b.year && a.month == b.month && a.day < b.day)
  }

  /**
   * The date `n` years after `d`, as `Calendar.date(byAdding: .year, ...)`
   * gives it: the same month and day, except that 29 February falls back to
   * 28 February in a common year.
   */
  function Anniversary(d: Date, n: int): (a: Date)
    ensures a.year == d.year + n && a.month == d.month
    ensures a.day != d.day ==> d.month == 2 && d.day == 29 && a.day == 28 && !IsLeapYear(a.year)
    ensures IsValidDate(d) ==> IsValidDate(a)
  {
    var y := d.year + n;
    if d.month == 2 && d.day == 29 && !IsLeapYear(y) then Date(y, 2, 28) else Date(y, d.month, d.day)
  }

  /**
   * Whole years from `from` to `to`: the year difference, less one when that
   * many years after `from` is still ahead of `to`.
   */
  function YearsBetween(from: Date, to: Date): (n: int)
  {
    var years := to.year - from.year;
    if Before(to, Anniversary(from, years)) then years - 1 else years
  }

  lemma BeforeIsStrictOrder(a: Date, b: Date, c: Date)
    ensures !Before(a, a)
    ensures Before(a, b) ==> !Before(b, a)
    ensures Before(a, b) && Before(b, c) ==> Before(a, c)
    ensures a != b ==> Before(a, b) || Before(b, a)
  {
  }

  /** Later anniversaries come later: their years differ. */
  lemma AnniversariesIncrease(d: Date, m: int, n: int)
    requires m < n
    ensures Before(Anniversary(d, m), Anniversary(d, n))
  {
  }

  /**
   * The number of whole years is the number of anniversaries reached: the
   * `n`-th falls on or before `to` and the next one after it.
   */
  lemma YearsBetweenCountsAnniversaries(from: Date, to: Date)
    ensures var n := YearsBetween(from, to);
      !Before(to, Anniversary(from, n)) && Before(to, Anniversary(from, n + 1))
  {
  }

  /** No other count has that property. */
  lemma YearsBetweenUnique(from: Date, to: Date, n: int)
    requires !Before(to, Anniversary(from, n)) && Before(to, Anniversary(from, n + 1))
    ensures YearsBetween(from, to) == n
  {
    var k := YearsBetween(from, to);
    YearsBetweenCountsAnniversaries(from, to);
    if k < n {
      AnniversariesIncrease(from, k + 1, n);
      assert false;
    } else if k > n {
      AnniversariesIncrease(from, n + 1, k);
      assert false;
    }
  }

  /** At least `n` whole years have passed exactly when the `n`-th anniversary is on or before `to`. */
  lemma AtLeastYears(from: Date, to: Date, n: int)
    ensures YearsBetween(from, to) >= n <==> !Before(to, Anniversary(from, n))
  {
    var k := YearsBetween(from, to);
    YearsBetweenCountsAnniversaries(from, to);
    if k >= n && k > n {
      AnniversariesIncrease(from, n, k);
    }
    if k < n && k + 1 < n {
      AnniversariesIncrease(from, k + 1, n);
    }
  }

  /** A date not after `to` is a whole number of years, zero or more, before it. */
  lemma YearsBetweenNonNegative(from: Date, to: Date)
    requires !Before(to, from)
    ensures YearsBetween(from, to) >= 0
  {
    AtLeastYears(from, to, 0);
  }

  /** A 29 February birthday comes round on 28 February in a common year, and on 29 February in a leap year. */
  lemma LeapDayAnniversary(y: int, n: int)
    ensures Anniversary(Date(y, 2, 29), n) == if IsLeapYear(y + n) then Date(y + n, 2, 29) else Date(y + n, 2, 28)
  {
  }
}
