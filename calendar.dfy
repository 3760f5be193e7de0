/** Gregorian calendar arithmetic behind the app's dates: month lengths, day
    numbers (days since 0000-01-01 in the proleptic Gregorian calendar), the
    conversion back from a day number, weekdays and month stepping.

    The app itself delegates all of this to the JavaScript `Date` object
    (`new Date(y, m + 1, 0).getDate()`, `getDay()`, `new Date(y, m + delta, 1)`);
    this module states the calendar those calls implement. */
module Calendar {

  /** A calendar date; `month` runs 1..12 as in an ISO date string. */
  datatype Date = Date(year: int, month: int, day: int)

  predicate IsLeapYear(y: int) {
    y % 4 == 0 && (y % 100 != 0 || y % 400 == 0)
  }

  /** Length of month `m` (1..12) of year `y`. */
  function DaysInMonth(y: int, m: int): (n: int)
    requires 1 <= m <= 12
    ensures 28 <= n <= 31
    ensures n == 28 <==> m == 2 && !IsLeapYear(y)
    ensures n == 29 <==> m == 2 && IsLeapYear(y)
    ensures n == 30 <==> m in {4, 6, 9, 11}
  {
    if m == 2 then (if IsLeapYear(y) then 29 else 28)
    else if m == 4 || m == 6 || m == 9 || m == 11 then 30
    else 31
  }

  /** A real calendar day: a month 1..12 and a day within that month's length. */
  predicate ValidDate(d: Date) {
    1 <= d.month <= 12 && 1 <= d.day <= DaysInMonth(d.year, d.month)
  }

  function YearLength(y: int): int {
    if IsLeapYear(y) then 366 else 365
  }

  /** Days from 0000-01-01 to January 1st of year `y`; negative for years
      before 0. The three quotients count the leap years in [0, y) (floor
      division makes the same formula right for negative years). */
  function DaysBeforeYear(y: int): int {
    365 * y + (y + 3) / 4 - (y + 99) / 100 + (y + 399) / 400
  }

  /** Counting multiples of `k` below `y`: one more below `y + 1` exactly
      when `y` is a multiple. */
  lemma QuotientStep(y: int, k: int)
    requires k == 4 || k == 100 || k == 400
    ensures (y + k) / k - (y + k - 1) / k == (if y % k == 0 then 1 else 0)
  {
    if k == 4 {
      assert (y + 4) / 4 - (y + 3) / 4 == (if y % 4 == 0 then 1 else 0);
    } else if k == 100 {
      assert (y + 100) / 100 - (y + 99) / 100 == (if y % 100 == 0 then 1 else 0);
    } else {
      assert (y + 400) / 400 - (y + 399) / 400 == (if y % 400 == 0 then 1 else 0);
    }
  }

  /** A multiple of 400 is a multiple of 100, which is a multiple of 4. */
  lemma DivisorChain(y: int)
    ensures y % 100 == 0 ==> y % 4 == 0
    ensures y % 400 == 0 ==> y % 100 == 0
  {
    if y % 100 == 0 {
      var q := y / 100;
      assert y == 4 * (25 * q);
    }
    if y % 400 == 0 {
      var q := y / 400;
      assert y == 100 * (4 * q);
    }
  }

  lemma DaysBeforeYearStep(y: int)
    ensures DaysBeforeYear(y + 1) == DaysBeforeYear(y) + YearLength(y)
  {
    QuotientStep(y, 4);
    QuotientStep(y, 100);
    QuotientStep(y, 400);
    DivisorChain(y);
  }

  /** Years are at least 365 days long, so January 1st moves forward with the year. */
  lemma {:induction false} DaysBeforeYearMonotone(a: int, b: int)
    requires a <= b
    ensures DaysBeforeYear(a) + 365 * (b - a) <= DaysBeforeYear(b)
    decreases b - a
  {
    if a < b {
      DaysBeforeYearMonotone(a, b - 1);
      DaysBeforeYearStep(b - 1);
    }
  }

  /** Days before the first of month `m` in a common year; `m == 13` gives the year's length. */
  function CommonDaysBeforeMonth(m: int): int
    requires 1 <= m <= 13
  {
    [0, 31, 59, 90, 120, 151, 181, 212, 243, 273, 304, 334, 365][m - 1]
  }

  /** Days from January 1st of year `y` to the first of month `m`; `m == 13`
      stands for January 1st of the following year. */
  function DaysBeforeMonth(y: int, m: int): int
    requires 1 <= m <= 13
  {
    CommonDaysBeforeMonth(m) + (if m > 2 && IsLeapYear(y) then 1 else 0)
  }

  lemma DaysBeforeMonthStep(y: int, m: int)
    requires 1 <= m <= 12
    ensures DaysBeforeMonth(y, m + 1) == DaysBeforeMonth(y, m) + DaysInMonth(y, m)
    ensures DaysBeforeMonth(y, 13) == YearLength(y)
  {
  }

  lemma {:induction false} DaysBeforeMonthMonotone(y: int, a: int, b: int)
    requires 1 <= a <= b <= 13
    ensures DaysBeforeMonth(y, a) + 28 * (b - a) <= DaysBeforeMonth(y, b)
    decreases b - a
  {
    if a < b {
      DaysBeforeMonthMonotone(y, a, b - 1);
      DaysBeforeMonthStep(y, b - 1);
    }
  }

  /** The number of the day `d`: 0 for 0000-01-01, counting up by one per day. */
  function DayNumber(d: Date): (n: int)
    requires ValidDate(d)
    ensures DaysBeforeYear(d.year) <= n < DaysBeforeYear(d.year + 1)
  {
    DaysBeforeMonthStep(d.year, d.month);
    DaysBeforeMonthMonotone(d.year, d.month + 1, 13);
    DaysBeforeYearStep(d.year);
    DaysBeforeYear(d.year) + DaysBeforeMonth(d.year, d.month) + d.day - 1
  }

  /** Chronological order on dates: by year, then month, then day. */
  predicate DateBefore(a: Date, b: Date) {
    a.year < b.year || (a.year == b.year && (a.month < b.month || (a.month == b.month && a.day < b.day)))
  }

  /** A date before another has a smaller day number. */
  lemma DayNumberBefore(x: Date, y: Date)
    requires ValidDate(x) && ValidDate(y) && DateBefore(x, y)
    ensures DayNumber(x) < DayNumber(y)
  {
    if x.year < y.year {
      DaysBeforeYearMonotone(x.year + 1, y.year);
    } else if x.month < y.month {
      DaysBeforeMonthStep(x.year, x.month);
      DaysBeforeMonthMonotone(x.year, x.month + 1, y.month);
    }
  }

  /** Day numbers follow the calendar order, in both directions. */
  lemma DayNumberOrder(a: Date, b: Date)
    requires ValidDate(a) && ValidDate(b)
    ensures DateBefore(a, b) <==> DayNumber(a) < DayNumber(b)
    ensures a == b <==> DayNumber(a) == DayNumber(b)
  {
    if DateBefore(a, b) {
      DayNumberBefore(a, b);
    } else if DateBefore(b, a) {
      DayNumberBefore(b, a);
    }
  }

  /** The year holding day `n`, searched upward from year `y`. */
  function YearOf(n: int, y: int): (r: int)
    requires DaysBeforeYear(y) <= n
    ensures y <= r
    ensures DaysBeforeYear(r) <= n < DaysBeforeYear(r + 1)
    decreases n - DaysBeforeYear(y)
  {
    DaysBeforeYearStep(y);
    if n < DaysBeforeYear(y + 1) then y else YearOf(n, y + 1)
  }

  /** The month holding day `r` of year `y` (counted from 0), searched upward from month `m`. */
  function MonthOf(y: int, r: int, m: int): (k: int)
    requires 1 <= m <= 12
    requires DaysBeforeMonth(y, m) <= r < YearLength(y)
    ensures m <= k <= 12
    ensures DaysBeforeMonth(y, k) <= r < DaysBeforeMonth(y, k + 1)
    decreases 12 - m
  {
    DaysBeforeMonthStep(y, m);
    if r < DaysBeforeMonth(y, m + 1) then m else MonthOf(y, r, m + 1)
  }

  /** The date of a day number: the inverse of `DayNumber` for days on or
      after 0000-01-01. */
  function FromDayNumber(n: int): (d: Date)
    requires 0 <= n
    ensures ValidDate(d) && 0 <= d.year
    ensures DayNumber(d) == n
  {
    var y := YearOf(n, 0);
    DaysBeforeYearStep(y);
    var m := MonthOf(y, n - DaysBeforeYear(y), 1);
    DaysBeforeMonthStep(y, m);
    Date(y, m, n - DaysBeforeYear(y) - DaysBeforeMonth(y, m) + 1)
  }

  lemma DayNumberRoundTrip(d: Date)
    requires ValidDate(d) && 0 <= d.year
    ensures 0 <= DayNumber(d) && FromDayNumber(DayNumber(d)) == d
  {
    DaysBeforeYearMonotone(0, d.year);
    DayNumberOrder(d, FromDayNumber(DayNumber(d)));
  }

  /** Day of the week of day number `n`, 0 = Sunday .. 6 = Saturday, as
      `Date.prototype.getDay` numbers them (0000-01-01 was a Saturday). */
  function Weekday(n: int): (w: int)
    ensures 0 <= w < 7
  {
    (n + 6) % 7
  }

  /** The weekdays of two known dates: 1970-01-01 was a Thursday and
      2024-01-01 a Monday. */
  lemma WeekdayAnchors()
    ensures Weekday(DayNumber(Date(1970, 1, 1))) == 4
    ensures Weekday(DayNumber(Date(2024, 1, 1))) == 1
  {
    assert DayNumber(Date(1970, 1, 1)) == 719528;
    assert DayNumber(Date(2024, 1, 1)) == 739251;
  }

  /** The next day has the next weekday, Saturday wrapping round to Sunday. */
  lemma WeekdayNext(n: int)
    ensures Weekday(n + 1) == (Weekday(n) + 1) % 7
  {
    var q := (n + 6) / 7;
    assert n + 6 == 7 * q + Weekday(n);
    assert n + 7 == 7 * q + (Weekday(n) + 1);
  }

  /** The month arithmetic of `new Date(year, month0 + delta, 1)` read back
      with getFullYear/getMonth: months are 0-based here, and an overflowing
      month index carries into the year in both directions. The constructor's
      reading of a year 0..99 as 1900 + year is not applied here. */
  function AddMonths(year: int, month0: int, delta: int): (r: (int, int))
    ensures 0 <= r.1 < 12
    ensures 12 * r.0 + r.1 == 12 * year + month0 + delta
  {
    var t := month0 + delta;
    (year + t / 12, t % 12)
  }

  /** A (year, month) pair is determined by its month count `12 * year + month0`,
      so stepping forward and back again returns to the start, and steps add up. */
  lemma AddMonthsCompose(year: int, month0: int, a: int, b: int)
    requires 0 <= month0 < 12
    ensures var m := AddMonths(year, month0, a); AddMonths(m.0, m.1, b) == AddMonths(year, month0, a + b)
    ensures var m := AddMonths(year, month0, a); AddMonths(m.0, m.1, -a) == (year, month0)
  {
    var m := AddMonths(year, month0, a);
    MonthCountDetermines(AddMonths(m.0, m.1, b), AddMonths(year, month0, a + b));
    MonthCountDetermines(AddMonths(m.0, m.1, -a), (year, month0));
  }

  lemma MonthCountDetermines(p: (int, int), q: (int, int))
    requires 0 <= p.1 < 12 && 0 <= q.1 < 12
    requires 12 * p.0 + p.1 == 12 * q.0 + q.1
    ensures p == q
  {
  }
}
