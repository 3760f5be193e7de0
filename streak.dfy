/** The current streak: how many days in a row, ending at and including
    "today", the habit was ticked. Two copies exist in the app: the
    open-ended walk of lib/streak.ts and the one in app/page.tsx that stops
    after 365 days. "Today" is a parameter (a day number) rather than a
    clock read. */
module Streak {
  import opened IsoDate
  import opened Numbers

  /** The specification: the number of consecutive days of `days` ending at
      `today`. Each counted day is taken out of the set before looking at
      the day before, which makes the set's size the measure. */
  ghost function RunLength(days: set<int>, today: int): (k: nat)
    ensures k <= |days|
    decreases |days|
  {
    if today in days then 1 + RunLength(days - {today}, today - 1) else 0
  }

  /** What `RunLength` counts: each of the last `k` days is in the set ... */
  lemma {:induction false} RunLengthCovers(days: set<int>, today: int)
    ensures forall n :: today - RunLength(days, today) < n <= today ==> n in days
    decreases |days|
  {
    if today in days {
      RunLengthCovers(days - {today}, today - 1);
      forall n | today - RunLength(days, today) < n < today
        ensures n in days
      {
        assert n in days - {today};
      }
    }
  }

  /** ... and the day before them is not. */
  lemma {:induction false} RunLengthStops(days: set<int>, today: int)
    ensures today - RunLength(days, today) !in days
    decreases |days|
  {
    if today in days {
      RunLengthStops(days - {today}, today - 1);
    }
  }

  /** Those two facts pin the count down. */
  lemma RunLengthUnique(days: set<int>, today: int, k: nat)
    requires forall n :: today - k < n <= today ==> n in days
    requires today - k !in days
    ensures RunLength(days, today) == k
  {
    RunLengthCovers(days, today);
    RunLengthStops(days, today);
  }

  /** The run ending at `today` depends only on the days up to `today`. */
  lemma {:induction false} RunLengthBelow(days: set<int>, other: set<int>, today: int)
    requires forall n :: n <= today ==> (n in days <==> n in other)
    ensures RunLength(days, today) == RunLength(other, today)
    decreases |days| + |other|
  {
    if today in days {
      RunLengthBelow(days - {today}, other - {today}, today - 1);
    }
  }

  /** Ticking more days never shortens the current streak. */
  lemma RunLengthMonotone(days: set<int>, more: set<int>, today: int)
    requires days <= more
    ensures RunLength(days, today) <= RunLength(more, today)
  {
    RunLengthCovers(days, today);
    RunLengthStops(more, today);
  }

  /** The streak of a set of date strings on day `today`. */
  ghost function CurrentRun(ticks: set<string>, today: int): (k: nat)
    ensures k == 0 <==> today !in DaySet(ticks)
  {
    RunLength(DaySet(ticks), today)
  }

  /** Read back on the strings: there is no streak exactly when today's
      string is not ticked ... */
  lemma CurrentRunZero(ticks: set<string>, today: int)
    ensures CurrentRun(ticks, today) == 0 <==> !(0 <= today < MaxDay && DayIso(today) in ticks)
  {
    InDaySet(ticks, today);
  }

  /** ... each of the last `k` days is ticked ... */
  lemma CurrentRunCovers(ticks: set<string>, today: int, n: int)
    requires today - CurrentRun(ticks, today) < n <= today
    ensures 0 <= n < MaxDay && DayIso(n) in ticks
  {
    RunLengthCovers(DaySet(ticks), today);
    InDaySet(ticks, n);
  }

  /** ... the day before them is not ... */
  lemma CurrentRunStops(ticks: set<string>, today: int, n: int)
    requires n == today - CurrentRun(ticks, today)
    ensures !(0 <= n < MaxDay && DayIso(n) in ticks)
  {
    assert n !in DaySet(ticks) by {
      RunLengthStops(DaySet(ticks), today);
    }
    NotInDaySet(ticks, n);
  }

  /** ... and there are no more of them than strings. */
  lemma CurrentRunBound(ticks: set<string>, today: int)
    ensures CurrentRun(ticks, today) <= |ticks|
  {
    DaySetSize(ticks);
  }

  /** Adding any string never shortens the streak. */
  lemma CurrentRunAdd(ticks: set<string>, iso: string, today: int)
    ensures CurrentRun(ticks, today) <= CurrentRun(ticks + {iso}, today)
  {
    forall n | n in DaySet(ticks)
      ensures n in DaySet(ticks + {iso})
    {
      InDaySet(ticks, n);
      InDaySet(ticks + {iso}, n);
    }
    RunLengthMonotone(DaySet(ticks), DaySet(ticks + {iso}), today);
  }

  /** Ticking today, when it was not ticked, makes the streak one longer
      than yesterday's. */
  lemma CurrentRunTickToday(ticks: set<string>, today: int)
    requires 0 <= today < MaxDay && DayIso(today) !in ticks
    ensures CurrentRun(ticks + {DayIso(today)}, today) == 1 + CurrentRun(ticks, today - 1)
  {
    DaySetAdd(ticks, today);
    InDaySet(ticks, today);
    assert DaySet(ticks) + {today} - {today} == DaySet(ticks);
  }

  /** Unticking today breaks the streak. */
  lemma CurrentRunUntickToday(ticks: set<string>, today: int)
    requires 0 <= today < MaxDay
    ensures CurrentRun(ticks - {DayIso(today)}, today) == 0
  {
    InDaySet(ticks - {DayIso(today)}, today);
  }

  /** How far back the app/page.tsx copy looks. */
  const Lookback: nat := 365

  /** `calcCurrentStreak` of lib/streak.ts: walk back from today while the
      day's string is in the set. The loop has no bound of its own; it ends
      because every counted day is a distinct member of the set. */
  method CurrentStreak(ticks: set<string>, today: int) returns (count: nat)
    ensures count == CurrentRun(ticks, today)
  {
    if |ticks| == 0 {
      CurrentRunBound(ticks, today);
      return 0;
    }
    ghost var days := DaySet(ticks);
    count := 0;
    var i := 0;
    while true
      invariant count == i
      invariant forall n :: today - i < n <= today ==> n in days
      invariant i <= RunLength(days, today)
      decreases RunLength(days, today) - i
    {
      var ticked := HasDay(ticks, today - i);
      if ticked {
        count := count + 1;
      } else {
        break;
      }
      RunLengthStops(days, today);
      i := i + 1;
    }
    RunLengthUnique(days, today, count);
  }

  /** `calcCurrentStreak` of app/page.tsx: the same walk, stopped after 365
      days, so a longer streak is reported as 365. */
  method CurrentStreakCapped(ticks: set<string>, today: int) returns (streak: nat)
    ensures streak == Min(CurrentRun(ticks, today), Lookback)
  {
    if |ticks| == 0 {
      CurrentRunBound(ticks, today);
      return 0;
    }
    ghost var days := DaySet(ticks);
    streak := 0;
    var checkDate := today;
    var i := 0;
    while i < Lookback
      invariant 0 <= i <= Lookback
      invariant streak == i && checkDate == today - i
      invariant forall n :: today - i < n <= today ==> n in days
      invariant i <= RunLength(days, today)
    {
      var ticked := HasDay(ticks, checkDate);
      if ticked {
        streak := streak + 1;
        checkDate := checkDate - 1;
      } else {
        break;
      }
      RunLengthStops(days, today);
      i := i + 1;
    }
    if streak < Lookback {
      RunLengthUnique(days, today, streak);
    }
  }
}
