/** The best streak: the longest run of consecutive ticked days anywhere in
    a habit's history (`calcBestStreak` in app/page.tsx). The ticks are put in
    string order, which for `YYYY-MM-DD` strings is day order, and each
    neighbouring pair is compared by the number of days between them. */
module BestRun {
  import opened IsoDate
  import opened Streak
  import opened Numbers

  /** Every member of the set is a real `YYYY-MM-DD` date. */
  predicate WellFormed(ticks: set<string>) {
    forall s :: s in ticks ==> Parse(s).Some?
  }

  /** Strictly increasing in string order, neighbour by neighbour. */
  predicate Ascending(s: seq<string>) {
    forall i :: 0 < i < |s| ==> LexLess(s[i - 1], s[i])
  }

  /** `s` lists the members of `ticks`, each once. */
  ghost predicate Lists(s: seq<string>, ticks: set<string>) {
    |s| == |ticks| && forall x :: x in s <==> x in ticks
  }

  /** `x` put into its place in an ascending sequence. */
  function Insert(s: seq<string>, x: string): (r: seq<string>)
    requires Ascending(s) && x !in s
    ensures Ascending(r) && |r| == |s| + 1
    ensures forall y :: y in r <==> y == x || y in s
    ensures r[0] == x || r[0] == s[0]
  {
    if s == [] then [x]
    else if LexLess(x, s[0]) then [x] + s
    else
      LexLessTotal(x, s[0]);
      [s[0]] + Insert(s[1..], x)
  }

  /** `Array.from(ticks).sort()`: the members in ascending string order. */
  method SortTicks(ticks: set<string>) returns (sorted: seq<string>)
    ensures Ascending(sorted) && Lists(sorted, ticks)
  {
    sorted := [];
    var rest := ticks;
    while rest != {}
      invariant rest <= ticks
      invariant Ascending(sorted)
      invariant |sorted| + |rest| == |ticks|
      invariant forall x :: x in sorted <==> x in ticks && x !in rest
      decreases |rest|
    {
      var x :| x in rest;
      sorted := Insert(sorted, x);
      rest := rest - {x};
    }
  }

  /** `Math.floor((new Date(b) - new Date(a)) / 86400000)`: the days from `a`
      to `b`. Both parse to midnight UTC, so the quotient is exact; `None`
      stands for `NaN`, which a string that is not a date yields. */
  function DayDiff(a: string, b: string): (r: Option<int>)
    ensures r.Some? <==> Parse(a).Some? && Parse(b).Some?
  {
    if Parse(a).Some? && Parse(b).Some? then Some(DayOf(b) - DayOf(a)) else None
  }

  /** The length of the run of day-after-day entries ending at entry `i`. */
  function RunAt(s: seq<string>, i: int): (k: nat)
    requires 0 <= i < |s|
    ensures 1 <= k <= i + 1
  {
    if i == 0 then 1
    else if DayDiff(s[i - 1], s[i]) == Some(1) then RunAt(s, i - 1) + 1
    else 1
  }

  /** The longest such run among entries `0..i`. */
  function LongestUpTo(s: seq<string>, i: int): (k: nat)
    requires 0 <= i < |s|
    ensures 1 <= k <= i + 1
  {
    if i == 0 then 1
    else Max(LongestUpTo(s, i - 1), RunAt(s, i))
  }

  /** The longest run of the whole sequence; 0 when it is empty. */
  function LongestRun(s: seq<string>): (k: nat)
    ensures s == [] <==> k == 0
    ensures k <= |s|
  {
    if s == [] then 0 else LongestUpTo(s, |s| - 1)
  }

  /** `calcBestStreak`: 0 for no ticks, otherwise the longest run of the
      sorted ticks, at least 1. */
  method BestStreak(ticks: set<string>) returns (best: nat, ghost sorted: seq<string>)
    ensures Ascending(sorted) && Lists(sorted, ticks)
    ensures best == LongestRun(sorted)
    ensures ticks == {} <==> best == 0
    ensures best <= |ticks|
  {
    var s := SortTicks(ticks);
    sorted := s;
    if |s| == 0 {
      return 0, sorted;
    }
    var maxStreak := 1;
    var currentStreak := 1;
    var i := 1;
    while i < |s|
      invariant 1 <= i <= |s|
      invariant currentStreak == RunAt(s, i - 1)
      invariant maxStreak == LongestUpTo(s, i - 1)
    {
      var diffDays := DayDiff(s[i - 1], s[i]);
      if diffDays == Some(1) {
        currentStreak := currentStreak + 1;
        maxStreak := Max(maxStreak, currentStreak);
      } else {
        currentStreak := 1;
      }
      i := i + 1;
    }
    best := maxStreak;
  }

  /** `r` is the longest run of consecutive days in `days`: no day ends a
      longer run, some day ends a run that long, and it is 0 only for no days. */
  ghost predicate IsLongestRun(days: set<int>, r: nat) {
    (forall d :: d in days ==> RunLength(days, d) <= r)
    && (days == {} <==> r == 0)
    && (days != {} ==> exists d :: d in days && RunLength(days, d) == r)
  }

  /** The sorted list of a well-formed set of ticks. */
  ghost predicate SortedTicks(ticks: set<string>, s: seq<string>) {
    WellFormed(ticks) && Ascending(s) && Lists(s, ticks)
  }

  lemma DayIncreasingStep(ticks: set<string>, s: seq<string>, i: int)
    requires SortedTicks(ticks, s) && 0 < i < |s|
    ensures Parse(s[i - 1]).Some? && Parse(s[i]).Some?
    ensures DayOf(s[i - 1]) < DayOf(s[i])
  {
    assert s[i - 1] in s && s[i] in s;
    DayOfOrder(s[i - 1], s[i]);
  }

  /** Each entry's day is one of the ticked days ... */
  lemma EntryInDays(ticks: set<string>, s: seq<string>, i: int)
    requires SortedTicks(ticks, s) && 0 <= i < |s|
    ensures Parse(s[i]).Some? && DayOf(s[i]) in DaySet(ticks)
  {
    assert s[i] in s;
    DayIsoOf(s[i]);
    InDaySet(ticks, DayOf(s[i]));
  }

  /** ... and each ticked day is some entry's day. */
  lemma EntryOf(ticks: set<string>, s: seq<string>, n: int) returns (j: int)
    requires SortedTicks(ticks, s) && n in DaySet(ticks)
    ensures 0 <= j < |s| && Parse(s[j]).Some? && DayOf(s[j]) == n
  {
    InDaySet(ticks, n);
    assert DayIso(n) in s;
    j :| 0 <= j < |s| && s[j] == DayIso(n);
    DayIsoOf(s[j]);
    DayIsoInjective(DayOf(s[j]), n);
  }

  /** Strictly increasing day numbers. */
  ghost predicate Increasing(v: seq<int>) {
    forall i, j :: 0 <= i < j < |v| ==> v[i] < v[j]
  }

  lemma {:induction false} IncreasingFromSteps(v: seq<int>)
    requires forall i :: 0 < i < |v| ==> v[i - 1] < v[i]
    ensures Increasing(v)
    decreases |v|
  {
    if |v| > 1 {
      var w := v[..|v| - 1];
      assert forall i :: 0 < i < |w| ==> w[i - 1] < w[i] by {
        forall i | 0 < i < |w| ensures w[i - 1] < w[i] {
          assert w[i - 1] == v[i - 1] && w[i] == v[i];
        }
      }
      IncreasingFromSteps(w);
      forall i, j | 0 <= i < j < |v|
        ensures v[i] < v[j]
      {
        if j < |v| - 1 {
          assert v[i] == w[i] && v[j] == w[j];
        } else if i < j - 1 {
          assert v[i] == w[i] && v[j - 1] == w[j - 1];
        }
      }
    }
  }

  /** The run of days ending at entry `i` of an increasing list of days. */
  ghost function DayRunAt(v: seq<int>, i: int): (k: nat)
    requires 0 <= i < |v|
  {
    if i == 0 then 1
    else if v[i] - v[i - 1] == 1 then DayRunAt(v, i - 1) + 1
    else 1
  }

  /** In a list of all of `days` in increasing order, the run at an entry is
      the run of consecutive days ending at that entry's day. */
  lemma {:induction false} DayRunAtLength(v: seq<int>, days: set<int>, i: int)
    requires Increasing(v) && 0 <= i < |v|
    requires forall n :: n in days <==> n in v
    ensures DayRunAt(v, i) == RunLength(days, v[i])
    decreases i
  {
    var d := v[i];
    assert d in v;
    RunLengthBelow(days - {d}, days, d - 1);
    assert RunLength(days, d) == 1 + RunLength(days, d - 1);
    if i > 0 && v[i] - v[i - 1] == 1 {
      DayRunAtLength(v, days, i - 1);
    } else {
      forall j | 0 <= j < |v|
        ensures v[j] != d - 1
      {
        if 0 <= j < i - 1 {
          assert v[j] < v[i - 1];
        }
        if i > 0 {
          assert v[i - 1] < v[i];
        }
        if i < j {
          assert v[i] < v[j];
        }
      }
      assert d - 1 !in days;
    }
  }

  /** The day numbers of the sorted list, in increasing order. */
  lemma DaysOfEntries(ticks: set<string>, s: seq<string>) returns (v: seq<int>)
    requires SortedTicks(ticks, s)
    ensures |v| == |s|
    ensures forall i :: 0 <= i < |s| ==> Parse(s[i]).Some? && v[i] == DayOf(s[i])
    ensures Increasing(v)
  {
    forall i | 0 <= i < |s| ensures Parse(s[i]).Some? {
      assert s[i] in s;
    }
    v := seq(|s|, i requires 0 <= i < |s| => DayOf(s[i]));
    forall i | 0 < i < |v| ensures v[i - 1] < v[i] {
      DayIncreasingStep(ticks, s, i);
    }
    IncreasingFromSteps(v);
  }

  /** Those day numbers are exactly the ticked days. */
  lemma EntriesAreDays(ticks: set<string>, s: seq<string>, v: seq<int>)
    requires SortedTicks(ticks, s) && |v| == |s|
    requires forall i :: 0 <= i < |s| ==> Parse(s[i]).Some? && v[i] == DayOf(s[i])
    ensures forall n :: n in DaySet(ticks) <==> n in v
  {
    forall n | n in DaySet(ticks) ensures n in v {
      var j := EntryOf(ticks, s, n);
      assert v[j] == n;
    }
    forall n | n in v ensures n in DaySet(ticks) {
      var j :| 0 <= j < |v| && v[j] == n;
      EntryInDays(ticks, s, j);
      assert DayOf(s[j]) == n;
    }
  }

  /** Entries `i - 1` and `i` are one day apart exactly when their days are. */
  ghost predicate StepAgrees(s: seq<string>, v: seq<int>, i: int) {
    0 < i < |s| && |v| == |s| ==> (DayDiff(s[i - 1], s[i]) == Some(1) <==> v[i] - v[i - 1] == 1)
  }

  /** Neighbouring entries are one day apart exactly when their days are. */
  ghost predicate SameSteps(s: seq<string>, v: seq<int>) {
    |v| == |s| && forall i :: StepAgrees(s, v, i)
  }

  lemma StepsOfEntries(s: seq<string>, v: seq<int>)
    requires |v| == |s|
    requires forall i :: 0 <= i < |s| ==> Parse(s[i]).Some? && v[i] == DayOf(s[i])
    ensures SameSteps(s, v)
  {
    forall i | 0 < i < |s|
      ensures StepAgrees(s, v, i)
    {
      assert Parse(s[i - 1]).Some? && v[i - 1] == DayOf(s[i - 1]);
      assert Parse(s[i]).Some? && v[i] == DayOf(s[i]);
    }
  }

  /** One step of the run: if the runs agree at entry `i - 1` and the step
      into entry `i` agrees, they agree at `i`. */
  lemma RunAtStep(s: seq<string>, v: seq<int>, i: int)
    requires 0 < i < |s| && |v| == |s|
    requires RunAt(s, i - 1) == DayRunAt(v, i - 1)
    requires DayDiff(s[i - 1], s[i]) == Some(1) <==> v[i] - v[i - 1] == 1
    ensures RunAt(s, i) == DayRunAt(v, i)
  {
  }

  /** The run of entries is the run of their days. */
  lemma {:induction false} RunAtDays(s: seq<string>, v: seq<int>, i: int)
    requires SameSteps(s, v) && 0 <= i < |s|
    ensures RunAt(s, i) == DayRunAt(v, i)
    decreases i
  {
    if i > 0 {
      RunAtDays(s, v, i - 1);
      assert StepAgrees(s, v, i);
      RunAtStep(s, v, i);
    }
  }

  /** The longest run of days among entries `0..i`. */
  ghost function DayLongestUpTo(v: seq<int>, i: int): (k: nat)
    requires 0 <= i < |v|
    ensures 1 <= k
  {
    if i == 0 then 1
    else Max(DayLongestUpTo(v, i - 1), DayRunAt(v, i))
  }

  /** One step of the maximum, as `RunAtStep` is one step of the run. */
  lemma LongestUpToStep(s: seq<string>, v: seq<int>, i: int)
    requires 0 < i < |s| && |v| == |s|
    requires LongestUpTo(s, i - 1) == DayLongestUpTo(v, i - 1)
    requires RunAt(s, i) == DayRunAt(v, i)
    ensures LongestUpTo(s, i) == DayLongestUpTo(v, i)
  {
  }

  /** The maximum of the entries' runs is the maximum of their days' runs. */
  lemma {:induction false} LongestUpToDays(s: seq<string>, v: seq<int>, i: int)
    requires SameSteps(s, v) && 0 <= i < |s|
    ensures LongestUpTo(s, i) == DayLongestUpTo(v, i)
    decreases i
  {
    if i > 0 {
      RunAtDays(s, v, i);
      LongestUpToDays(s, v, i - 1);
      LongestUpToStep(s, v, i);
    }
  }

  /** The maximum is at least every run seen so far ... */
  lemma {:induction false} LongestCovers(v: seq<int>, i: int, k: int)
    requires 0 <= i <= k < |v|
    ensures DayRunAt(v, i) <= DayLongestUpTo(v, k)
    decreases k
  {
    if i < k {
      LongestCovers(v, i, k - 1);
    }
  }

  /** ... and some run seen so far reaches it. */
  lemma {:induction false} LongestAttained(v: seq<int>, k: int) returns (i: int)
    requires 0 <= k < |v|
    ensures 0 <= i <= k && DayRunAt(v, i) == DayLongestUpTo(v, k)
    decreases k
  {
    if k == 0 || DayLongestUpTo(v, k) == DayRunAt(v, k) {
      i := k;
    } else {
      i := LongestAttained(v, k - 1);
    }
  }

  /** A length equal to the run at some entry is within the maximum. */
  lemma RunWithinLongest(v: seq<int>, j: int, k: int)
    requires 0 <= j < |v| && k == DayRunAt(v, j)
    ensures k <= DayLongestUpTo(v, |v| - 1)
  {
    LongestCovers(v, j, |v| - 1);
  }

  /** For an increasing list of all of `days`, no day ends a run longer
      than the maximum over the list ... */
  lemma LongestBounds(v: seq<int>, days: set<int>, d: int)
    requires Increasing(v) && v != []
    requires forall n :: n in days <==> n in v
    requires d in days
    ensures RunLength(days, d) <= DayLongestUpTo(v, |v| - 1)
  {
    assert d in v;
    var j :| 0 <= j < |v| && v[j] == d;
    DayRunAtLength(v, days, j);
    RunWithinLongest(v, j, RunLength(days, d));
  }

  /** ... and some day ends a run exactly that long. */
  lemma LongestReached(v: seq<int>, days: set<int>) returns (d: int)
    requires Increasing(v) && v != []
    requires forall n :: n in days <==> n in v
    ensures d in days && RunLength(days, d) == DayLongestUpTo(v, |v| - 1)
  {
    var i := LongestAttained(v, |v| - 1);
    DayRunAtLength(v, days, i);
    d := v[i];
  }

  /** So that maximum is the longest run of consecutive days. */
  lemma LongestOfDays(v: seq<int>, days: set<int>)
    requires Increasing(v) && v != []
    requires forall n :: n in days <==> n in v
    ensures IsLongestRun(days, DayLongestUpTo(v, |v| - 1))
  {
    forall d | d in days
      ensures RunLength(days, d) <= DayLongestUpTo(v, |v| - 1)
    {
      LongestBounds(v, days, d);
    }
    var d := LongestReached(v, days);
  }

  /** For well-formed ticks, the best streak is the longest run of
      consecutive ticked days. */
  lemma BestIsLongest(ticks: set<string>, s: seq<string>)
    requires SortedTicks(ticks, s)
    ensures IsLongestRun(DaySet(ticks), LongestRun(s))
  {
    var v := DaysOfEntries(ticks, s);
    EntriesAreDays(ticks, s, v);
    if s != [] {
      StepsOfEntries(s, v);
      LongestUpToDays(s, v, |s| - 1);
      LongestOfDays(v, DaySet(ticks));
    } else {
      assert forall n :: n !in DaySet(ticks);
    }
  }

  /** The current streak never exceeds the best streak. */
  lemma CurrentWithinBest(ticks: set<string>, s: seq<string>, today: int)
    requires SortedTicks(ticks, s)
    ensures CurrentRun(ticks, today) <= LongestRun(s)
  {
    BestIsLongest(ticks, s);
  }

}
