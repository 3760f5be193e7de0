/** The month calendar: the standalone component of
    app/components/CalendarGrid.tsx (a `base` month with previous/next
    buttons and a list of cells), the grid built inline in app/page.tsx and
    the heatmap's list of days of a month. Cells are laid out in rows of
    seven under the headers Sun..Sat. */
module CalendarGrid {
  import opened Calendar
  import opened IsoDate

  /** `startOfMonth(date)`: the first day of the month of `date`. */
  function StartOfMonth(d: Date): (r: Date)
    requires ValidDate(d)
    ensures ValidDate(r) && r.year == d.year && r.month == d.month && r.day == 1
    ensures DayNumber(r) == DayNumber(d) - (d.day - 1)
  {
    Date(d.year, d.month, 1)
  }

  /** The first day of the month `delta` months after the month of `d`
      (`new Date(d.getFullYear(), d.getMonth() + delta, 1)`). */
  function StepMonth(d: Date, delta: int): (r: Date)
    requires ValidDate(d)
    ensures ValidDate(r) && r.day == 1
    ensures 12 * r.year + r.month == 12 * d.year + d.month + delta
  {
    var ym := AddMonths(d.year, d.month - 1, delta);
    Date(ym.0, ym.1 + 1, 1)
  }

  /** Going forward and back by the same number of months returns to the
      first of the starting month. */
  lemma StepMonthInverse(d: Date, delta: int)
    requires ValidDate(d)
    ensures StepMonth(StepMonth(d, delta), -delta) == StartOfMonth(d)
  {
    AddMonthsCompose(d.year, d.month - 1, delta, -delta);
  }


  /** One month on is the first of the next month, or January 1st of the
      next year after December. */
  lemma StepMonthNext(d: Date)
    requires ValidDate(d)
    ensures StepMonth(d, 1) == if d.month == 12 then Date(d.year + 1, 1, 1) else Date(d.year, d.month + 1, 1)
  {
    var r := StepMonth(d, 1);
    var e := if d.month == 12 then Date(d.year + 1, 1, 1) else Date(d.year, d.month + 1, 1);
    MonthCountDetermines((r.year, r.month - 1), (e.year, e.month - 1));
  }

  /** The last day of a month is the day before the first of the next. */
  lemma LastDayOfMonth(d: Date)
    requires ValidDate(d)
    ensures DayNumber(Date(d.year, d.month, DaysInMonth(d.year, d.month))) + 1 == DayNumber(StepMonth(d, 1))
  {
    StepMonthNext(d);
    DaysBeforeMonthStep(d.year, d.month);
    if d.month == 12 {
      DaysBeforeYearStep(d.year);
    }
  }

  /** `daysInMonth(date)`, as written: `new Date(y, m + 1, 0).getDate()`,
      the day of the month of the day before the first of the next month.
      It is the Gregorian length of the month. Day numbers are only read
      back for years from 0 on. */
  function MonthLength(d: Date): (n: int)
    requires ValidDate(d) && 0 <= d.year
    ensures n == DaysInMonth(d.year, d.month)
  {
    var next := StepMonth(d, 1);
    DaysBeforeYearMonotone(0, next.year);
    LastDayOfMonth(d);
    DayNumberRoundTrip(Date(d.year, d.month, DaysInMonth(d.year, d.month)));
    FromDayNumber(DayNumber(next) - 1).day
  }

  /** The cells of the month `year`-`month` as the page lays them out:
      `first` empty cells (`first` is the weekday of the 1st), then the days
      1..n of the month in order. */
  ghost predicate DayLayout(cells: seq<Option<int>>, year: int, month: int)
    requires 1 <= month <= 12
  {
    var first := Weekday(DayNumber(Date(year, month, 1)));
    |cells| == first + DaysInMonth(year, month)
    && forall i :: 0 <= i < |cells| ==> cells[i] == (if i < first then None else Some(i - first + 1))
  }

  /** The same layout holding the dates themselves, as the component does. */
  ghost predicate DateLayout(cells: seq<Option<Date>>, year: int, month: int)
    requires 1 <= month <= 12
  {
    var first := Weekday(DayNumber(Date(year, month, 1)));
    |cells| == first + DaysInMonth(year, month)
    && forall i :: 0 <= i < |cells| ==>
      cells[i] == (if i < first then None else Some(Date(year, month, i - first + 1)))
  }

  lemma ModSeven(a: int, b: nat)
    ensures (a % 7 + b) % 7 == (a + b) % 7
  {
    var q := a / 7;
    assert a == 7 * q + a % 7;
    assert a + b == 7 * q + (a % 7 + b);
  }

  /** In that layout every date stands in the column of its weekday:
      cell `i` is in column `i % 7`, and 0 is Sunday. */
  lemma DateLayoutColumns(cells: seq<Option<Date>>, year: int, month: int, i: int)
    requires 1 <= month <= 12 && DateLayout(cells, year, month)
    requires 0 <= i < |cells| && cells[i].Some?
    ensures ValidDate(cells[i].value) && Weekday(DayNumber(cells[i].value)) == i % 7
  {
    var n := DayNumber(Date(year, month, 1));
    var first := Weekday(n);
    ModSeven(n + 6, i - first);
  }

  /** The component's `days` memo: empty cells up to the weekday of the
      1st, then one cell per day of the base month. */
  method MonthCells(base: Date) returns (cells: seq<Option<Date>>)
    requires ValidDate(base)
    ensures DateLayout(cells, base.year, base.month)
  {
    var total := DaysInMonth(base.year, base.month);
    var firstDay := Weekday(DayNumber(StartOfMonth(base)));
    cells := [];
    var i := 0;
    while i < firstDay
      invariant 0 <= i <= firstDay
      invariant |cells| == i
      invariant forall k :: 0 <= k < i ==> cells[k] == None
    {
      cells := cells + [None];
      i := i + 1;
    }
    var d := 1;
    while d <= total
      invariant 1 <= d <= total + 1
      invariant |cells| == firstDay + d - 1
      invariant forall k :: 0 <= k < |cells| ==>
        cells[k] == (if k < firstDay then None else Some(Date(base.year, base.month, k - firstDay + 1)))
    {
      cells := cells + [Some(Date(base.year, base.month, d))];
      d := d + 1;
    }
    assert StartOfMonth(base) == Date(base.year, base.month, 1);
  }

  /** The grid of app/page.tsx: the same layout holding day numbers of the
      month `currentMonth` (0-based) of `currentYear`. */
  method PageMonthCells(currentMonth: int, currentYear: int) returns (days: seq<Option<int>>)
    requires 0 <= currentMonth < 12
    ensures DayLayout(days, currentYear, currentMonth + 1)
  {
    var daysInMonth := DaysInMonth(currentYear, currentMonth + 1);
    var firstDay := Weekday(DayNumber(Date(currentYear, currentMonth + 1, 1)));
    days := [];
    var i := 0;
    while i < firstDay
      invariant 0 <= i <= firstDay
      invariant |days| == i
      invariant forall k :: 0 <= k < i ==> days[k] == None
    {
      days := days + [None];
      i := i + 1;
    }
    i := 1;
    while i <= daysInMonth
      invariant 1 <= i <= daysInMonth + 1
      invariant |days| == firstDay + i - 1
      invariant forall k :: 0 <= k < |days| ==>
        days[k] == (if k < firstDay then None else Some(k - firstDay + 1))
    {
      days := days + [Some(i)];
      i := i + 1;
    }
  }

  /** The heatmap's `getMonthDays(month)`: the days 1..n of the month
      (`month` 0-based) of `year`. */
  method MonthDays(year: int, month: int) returns (days: seq<int>)
    requires 0 <= month < 12
    ensures |days| == DaysInMonth(year, month + 1)
    ensures forall i :: 0 <= i < |days| ==> days[i] == i + 1
  {
    var daysInMonth := DaysInMonth(year, month + 1);
    days := [];
    var day := 1;
    while day <= daysInMonth
      invariant 1 <= day <= daysInMonth + 1
      invariant |days| == day - 1
      invariant forall i :: 0 <= i < |days| ==> days[i] == i + 1
    {
      days := days + [day];
      day := day + 1;
    }
  }

  /** The component's `base` state: the first day of the month shown. */
  class CalendarView {
    var base: Date

    ghost predicate Valid()
      reads this
    {
      ValidDate(base) && base.day == 1
    }

    /** `useState(() => startOfMonth(new Date()))`, with `today` for the clock. */
    constructor (today: Date)
      requires ValidDate(today)
      ensures Valid() && base == StartOfMonth(today)
    {
      base := Date(today.year, today.month, 1);
    }

    /** `prevMonth`: the first of the previous month; January goes back to
        December of the year before. */
    method PrevMonth()
      requires Valid()
      modifies this
      ensures Valid() && base == StepMonth(old(base), -1)
      ensures old(base.month) == 1 ==> base.year == old(base.year) - 1 && base.month == 12
      ensures old(base.month) > 1 ==> base.year == old(base.year) && base.month == old(base.month) - 1
    {
      base := StepMonth(base, -1);
    }

    /** `nextMonth`: the first of the next month; December goes on to
        January of the year after. */
    method NextMonth()
      requires Valid()
      modifies this
      ensures Valid() && base == StepMonth(old(base), 1)
      ensures old(base.month) == 12 ==> base.year == old(base.year) + 1 && base.month == 1
      ensures old(base.month) < 12 ==> base.year == old(base.year) && base.month == old(base.month) + 1
    {
      base := StepMonth(base, 1);
    }
  }

  /** Next then previous, or previous then next, shows the same month again. */
  lemma NextPrevRoundTrip(base: Date)
    requires ValidDate(base) && base.day == 1
    ensures StepMonth(StepMonth(base, 1), -1) == base
    ensures StepMonth(StepMonth(base, -1), 1) == base
  {
    StepMonthInverse(base, 1);
    StepMonthInverse(base, -1);
  }

  /** The year the `Date` constructor uses for a year argument `y`: a year
      from 0 to 99 is taken as 1900 + y (section 21.4.2.1 of ECMA-262). */
  function JsFullYear(y: int): int {
    if 0 <= y <= 99 then 1900 + y else y
  }

  /** `new Date(base.getFullYear(), base.getMonth() + delta, 1)` as the
      constructor evaluates it, year rule included: the first of the month
      `delta` months after the month of `d`, counted from year 1900 + y
      when the year y of `d` is 0..99. */
  function JsStepMonth(d: Date, delta: int): (r: Date)
    requires ValidDate(d)
    ensures ValidDate(r) && r.day == 1
    ensures 0 <= d.year <= 99 ==> 12 * r.year + r.month == 12 * (1900 + d.year) + d.month + delta
    ensures !(0 <= d.year <= 99) ==> 12 * r.year + r.month == 12 * d.year + d.month + delta
  {
    var ym := AddMonths(JsFullYear(d.year), d.month - 1, delta);
    Date(ym.0, ym.1 + 1, 1)
  }

  /** Outside the years 0..99 the constructor steps months as `StepMonth` does. */
  lemma JsStepMonthAgrees(d: Date, delta: int)
    requires ValidDate(d) && !(0 <= d.year <= 99)
    ensures JsStepMonth(d, delta) == StepMonth(d, delta)
  {
  }

  /** Paging back from January of year 100 shows December of year 99, and
      paging forward from there shows January 2000 instead of January 100. */
  lemma JsStepMonthRoundTripFails()
    ensures JsStepMonth(Date(100, 1, 1), -1) == Date(99, 12, 1)
    ensures JsStepMonth(Date(99, 12, 1), 1) == Date(2000, 1, 1)
    ensures JsStepMonth(JsStepMonth(Date(100, 1, 1), -1), 1) != Date(100, 1, 1)
  {
    assert AddMonths(100, 0, -1) == (99, 11);
    assert AddMonths(1999, 11, 1) == (2000, 0);
  }
}
