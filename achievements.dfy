/** The achievement badges (`getAchievements` and `unlockedCount` in
    app/page.tsx): six fixed entries, each unlocked when its counter, the
    number of ticks or the best streak, reaches its threshold. */
module Achievements {
  import opened Numbers

  /** What an entry counts. */
  datatype Counter = TickCount | BestStreakDays

  /** An entry as the app builds it. `first-step` has no progress bar; the
      others carry `progress` and `total`. */
  datatype Achievement =
    | Unlock(id: string, title: string, description: string, unlocked: bool)
    | Milestone(id: string, title: string, description: string, unlocked: bool, progress: nat, total: nat)

  /** A catalogue row: the entry's id, what it counts, its threshold, and
      whether it shows progress. */
  datatype Rule = Rule(id: string, counter: Counter, threshold: nat, tracked: bool)

  /** The six entries, in the order the app lists them. */
  const Catalogue: seq<Rule> := [
    Rule("first-step", TickCount, 1, false),
    Rule("week-warrior", BestStreakDays, 7, true),
    Rule("monthly-master", BestStreakDays, 30, true),
    Rule("century-club", TickCount, 100, true),
    Rule("unstoppable", BestStreakDays, 100, true),
    Rule("legend", BestStreakDays, 365, true)
  ]

  /** The value of a counter, given the number of ticks and the best streak. */
  function CounterValue(c: Counter, tickCount: nat, bestStreak: nat): nat {
    match c
    case TickCount => tickCount
    case BestStreakDays => bestStreak
  }

  /** Entry `a` follows catalogue row `r` for these counters. */
  predicate Follows(a: Achievement, r: Rule, tickCount: nat, bestStreak: nat) {
    var v := CounterValue(r.counter, tickCount, bestStreak);
    a.id == r.id
    && a.unlocked == (v >= r.threshold)
    && a.Milestone? == r.tracked
    && (a.Milestone? ==> a.progress == Min(v, r.threshold) && a.total == r.threshold)
  }

  /** `getAchievements(ticks, streak, bestStreak)`. The current `streak` is
      accepted and not used. */
  function GetAchievements(ticks: set<string>, streak: nat, bestStreak: nat): (r: seq<Achievement>)
    ensures |r| == |Catalogue|
    ensures forall i :: 0 <= i < |r| ==> Follows(r[i], Catalogue[i], |ticks|, bestStreak)
  {
    var tickCount := |ticks|;
    var r := [
      Unlock("first-step", "First Step", "Complete your first day", tickCount >= 1),
      Milestone("week-warrior", "Week Warrior", "Maintain a 7-day streak",
        bestStreak >= 7, Min(bestStreak, 7), 7),
      Milestone("monthly-master", "Monthly Master", "Maintain a 30-day streak",
        bestStreak >= 30, Min(bestStreak, 30), 30),
      Milestone("century-club", "Century Club", "Complete 100 total days",
        tickCount >= 100, Min(tickCount, 100), 100),
      Milestone("unstoppable", "Unstoppable", "Maintain a 100-day streak",
        bestStreak >= 100, Min(bestStreak, 100), 100),
      Milestone("legend", "Legend", "Maintain a 365-day streak",
        bestStreak >= 365, Min(bestStreak, 365), 365)
    ];
    assert Follows(r[0], Catalogue[0], tickCount, bestStreak);
    assert Follows(r[1], Catalogue[1], tickCount, bestStreak);
    assert Follows(r[2], Catalogue[2], tickCount, bestStreak);
    assert Follows(r[3], Catalogue[3], tickCount, bestStreak);
    assert Follows(r[4], Catalogue[4], tickCount, bestStreak);
    assert Follows(r[5], Catalogue[5], tickCount, bestStreak);
    r
  }

  /** The current streak has no influence on the entries. */
  lemma StreakUnused(ticks: set<string>, streak: nat, other: nat, bestStreak: nat)
    ensures GetAchievements(ticks, streak, bestStreak) == GetAchievements(ticks, other, bestStreak)
  {
  }

  /** `achievements.filter(a => a.unlocked).length`. */
  function UnlockedCount(a: seq<Achievement>): (n: nat)
    ensures n <= |a|
    ensures n == 0 <==> forall i :: 0 <= i < |a| ==> !a[i].unlocked
    ensures n == |a| <==> forall i :: 0 <= i < |a| ==> a[i].unlocked
  {
    if a == [] then 0
    else (if a[0].unlocked then 1 else 0) + UnlockedCount(a[1..])
  }

  /** The positions of the unlocked entries. */
  ghost function UnlockedIndices(a: seq<Achievement>): set<int> {
    set i | 0 <= i < |a| && a[i].unlocked
  }

  /** Appending one entry adds one to the count exactly when it is unlocked. */
  lemma {:induction false} UnlockedCountSnoc(a: seq<Achievement>, x: Achievement)
    ensures UnlockedCount(a + [x]) == UnlockedCount(a) + (if x.unlocked then 1 else 0)
    decreases |a|
  {
    if a != [] {
      assert (a + [x])[1..] == a[1..] + [x];
      UnlockedCountSnoc(a[1..], x);
    }
  }

  /** The count is the number of unlocked entries. */
  lemma {:induction false} UnlockedCountIsSize(a: seq<Achievement>)
    ensures UnlockedCount(a) == |UnlockedIndices(a)|
    decreases |a|
  {
    if a != [] {
      var p, x := a[..|a| - 1], a[|a| - 1];
      assert a == p + [x];
      UnlockedCountSnoc(p, x);
      UnlockedCountIsSize(p);
      IndicesSnoc(p, x);
    }
  }

  /** Appending one entry adds its position exactly when it is unlocked. */
  lemma IndicesSnoc(p: seq<Achievement>, x: Achievement)
    ensures |UnlockedIndices(p + [x])| == |UnlockedIndices(p)| + (if x.unlocked then 1 else 0)
  {
    var a := p + [x];
    var extra: set<int> := if x.unlocked then {|p|} else {};
    forall i
      ensures i in UnlockedIndices(a) <==> i in UnlockedIndices(p) + extra
    {
      if 0 <= i < |p| {
        assert a[i] == p[i];
      }
    }
    assert UnlockedIndices(a) == UnlockedIndices(p) + extra;
    assert |p| !in UnlockedIndices(p);
  }

  /** Unlocking is pointwise: if every entry unlocked in `a` is unlocked in
      `b`, `b` has at least as many. */
  lemma {:induction false} UnlockedCountMonotone(a: seq<Achievement>, b: seq<Achievement>)
    requires |a| == |b|
    requires forall i :: 0 <= i < |a| ==> a[i].unlocked ==> b[i].unlocked
    ensures UnlockedCount(a) <= UnlockedCount(b)
  {
    if a != [] {
      UnlockedCountMonotone(a[1..], b[1..]);
    }
  }

  /** More ticks or a longer best streak never lock a badge again. */
  lemma AchievementsMonotone(ticks: set<string>, bestStreak: nat, ticks': set<string>, bestStreak': nat, streak: nat)
    requires |ticks| <= |ticks'| && bestStreak <= bestStreak'
    ensures UnlockedCount(GetAchievements(ticks, streak, bestStreak))
         <= UnlockedCount(GetAchievements(ticks', streak, bestStreak'))
  {
    UnlockedCountMonotone(GetAchievements(ticks, streak, bestStreak), GetAchievements(ticks', streak, bestStreak'));
  }

  /** Since a best streak is never longer than the number of ticks, a
      `legend` badge always comes with a `century-club` badge, and every
      unlocked streak badge with `first-step`. */
  lemma StreakBadgesImplyCounts(ticks: set<string>, streak: nat, bestStreak: nat)
    requires bestStreak <= |ticks|
    ensures var r := GetAchievements(ticks, streak, bestStreak);
      (r[5].unlocked ==> r[3].unlocked)
      && (r[1].unlocked ==> r[0].unlocked)
  {
  }
}
