/** The state of the tracker page (`Home` in app/page.tsx) and the handlers
    that change it: ticking a date for the selected habit, saving a note,
    and paging the month shown. Persisting to storage after each change is
    not part of this model. */
module Tracker {
  import opened IsoDate
  import opened Calendar
  import opened Streak
  import opened BestRun
  import opened Numbers
  import opened Achievements

  datatype Habit = Habit(id: string, name: string, color: string, icon: string)

  /** A note the user left on one day of one habit. */
  datatype DayNote = DayNote(date: string, note: string, habitId: string)

  /** The ticks of habit `id`; a habit with no entry has none
      (`habitData[id] || new Set()`). */
  function TicksOf(data: map<string, set<string>>, id: string): (t: set<string>)
    ensures id !in data ==> t == {}
  {
    if id in data then data[id] else {}
  }

  /** The set with `x` added if it was missing and removed if it was present. */
  function Toggled(ticks: set<string>, x: string): (r: set<string>)
    ensures x in r <==> x !in ticks
    ensures forall y :: y != x ==> (y in r <==> y in ticks)
  {
    if x in ticks then ticks - {x} else ticks + {x}
  }

  /** Toggling the same date twice gives the set back. */
  lemma ToggleTwice(ticks: set<string>, x: string)
    ensures Toggled(Toggled(ticks, x), x) == ticks
  {
    assert forall y :: y in Toggled(Toggled(ticks, x), x) <==> y in ticks;
  }

  /** The streak lengths that set off the celebration. */
  const Milestones: seq<int> := [7, 30, 50, 100]

  /** `[7, 30, 50, 100].includes(n)`. */
  predicate IsMilestone(n: int)
    ensures IsMilestone(n) <==> n == 7 || n == 30 || n == 50 || n == 100
  {
    n in Milestones
  }

  /** The celebration rule: the toggle added `isoDate`, and the (365-capped)
      streak of the new set is a milestone. Every milestone is below the cap,
      so the cap never decides it. */
  ghost predicate Celebrates(before: set<string>, isoDate: string, today: int)
    ensures Celebrates(before, isoDate, today) <==>
      isoDate !in before && IsMilestone(CurrentRun(before + {isoDate}, today))
    ensures Celebrates(before, isoDate, today) ==> 7 <= CurrentRun(before + {isoDate}, today) <= 100
  {
    isoDate !in before && IsMilestone(Min(CurrentRun(before + {isoDate}, today), Lookback))
  }

  /** Unticking never celebrates, and ticking today celebrates exactly when
      it brings yesterday's streak up to a milestone. */
  lemma CelebratesTickingToday(before: set<string>, today: int)
    requires 0 <= today < MaxDay
    ensures DayIso(today) in before ==> !Celebrates(before, DayIso(today), today)
    ensures DayIso(today) !in before ==>
      (Celebrates(before, DayIso(today), today) <==> IsMilestone(CurrentRun(before, today - 1) + 1))
  {
    if DayIso(today) !in before {
      CurrentRunTickToday(before, today);
    }
  }

  /** `notes.filter(n => !(n.date === date && n.habitId === habitId))`. */
  function WithoutNote(notes: seq<DayNote>, date: string, habitId: string): (r: seq<DayNote>)
    ensures |r| <= |notes|
    ensures forall n :: n in r <==> n in notes && !(n.date == date && n.habitId == habitId)
  {
    if notes == [] then []
    else
      var rest := WithoutNote(notes[1..], date, habitId);
      if notes[0].date == date && notes[0].habitId == habitId then rest else [notes[0]] + rest
  }

  /** The notes after `onAddNote(date, note, habitId)`: the new note last,
      before it exactly the old notes on other days or habits. */
  function Upsert(notes: seq<DayNote>, date: string, note: string, habitId: string): (r: seq<DayNote>)
    ensures 1 <= |r| <= |notes| + 1
    ensures r[|r| - 1] == DayNote(date, note, habitId)
    ensures forall n :: n in r[..|r| - 1] <==> n in notes && !(n.date == date && n.habitId == habitId)
  {
    var kept := WithoutNote(notes, date, habitId);
    assert (kept + [DayNote(date, note, habitId)])[..|kept|] == kept;
    kept + [DayNote(date, note, habitId)]
  }

  /** How many notes are on day `date` of habit `habitId`. */
  function NotesFor(notes: seq<DayNote>, date: string, habitId: string): nat {
    if notes == [] then 0
    else
      var here := if notes[0].date == date && notes[0].habitId == habitId then 1 else 0;
      here + NotesFor(notes[1..], date, habitId)
  }

  lemma {:induction false} WithoutNoteNone(notes: seq<DayNote>, date: string, habitId: string)
    ensures NotesFor(WithoutNote(notes, date, habitId), date, habitId) == 0
  {
    if notes != [] {
      WithoutNoteNone(notes[1..], date, habitId);
      var rest := WithoutNote(notes[1..], date, habitId);
      if !(notes[0].date == date && notes[0].habitId == habitId) {
        assert ([notes[0]] + rest)[1..] == rest;
      }
    }
  }

  lemma {:induction false} NotesForAppend(a: seq<DayNote>, b: seq<DayNote>, date: string, habitId: string)
    ensures NotesFor(a + b, date, habitId) == NotesFor(a, date, habitId) + NotesFor(b, date, habitId)
  {
    if a != [] {
      assert (a + b)[0] == a[0] && (a + b)[1..] == a[1..] + b;
      NotesForAppend(a[1..], b, date, habitId);
    } else {
      assert a + b == b;
    }
  }

  /** Notes of other days or habits keep their number of copies. */
  lemma {:induction false} WithoutNoteKeeps(notes: seq<DayNote>, date: string, habitId: string, n: DayNote)
    requires !(n.date == date && n.habitId == habitId)
    ensures multiset(WithoutNote(notes, date, habitId))[n] == multiset(notes)[n]
  {
    if notes != [] {
      WithoutNoteKeeps(notes[1..], date, habitId, n);
      assert notes == [notes[0]] + notes[1..];
    }
  }

  /** After saving a note there is exactly one note for that day and habit,
      the last one, carrying the new text; every other note is kept. */
  lemma UpsertLeavesOne(notes: seq<DayNote>, date: string, note: string, habitId: string)
    ensures var r := Upsert(notes, date, note, habitId);
      NotesFor(r, date, habitId) == 1
      && r[|r| - 1] == DayNote(date, note, habitId)
      && forall n: DayNote :: !(n.date == date && n.habitId == habitId) ==> multiset(r)[n] == multiset(notes)[n]
  {
    var rest := WithoutNote(notes, date, habitId);
    WithoutNoteNone(notes, date, habitId);
    NotesForAppend(rest, [DayNote(date, note, habitId)], date, habitId);
    assert ([DayNote(date, note, habitId)])[1..] == [];
    forall n: DayNote | !(n.date == date && n.habitId == habitId)
      ensures multiset(Upsert(notes, date, note, habitId))[n] == multiset(notes)[n]
    {
      WithoutNoteKeeps(notes, date, habitId, n);
    }
  }

  /** The heatmap's `getIntensity(date)`: 1 for a ticked date of the
      selected habit, 0 otherwise or when no habit is selected. */
  function Intensity(data: map<string, set<string>>, selected: Option<Habit>, date: string): (v: int)
    ensures v == 1 <==> selected.Some? && date in TicksOf(data, selected.value.id)
    ensures v == 0 || v == 1
  {
    if selected.None? then 0
    else if date in TicksOf(data, selected.value.id) then 1 else 0
  }

  /** The page component's state. `currentMonth` is 0-based as
      `Date.prototype.getMonth` returns it. */
  class Home {
    var address: Option<string>
    var habitData: map<string, set<string>>
    var selectedHabit: Option<Habit>
    var notes: seq<DayNote>
    var showConfetti: bool
    var currentMonth: int
    var currentYear: int

    /** The shown month is a 0-based month index, as `getMonth` gives it;
        every method keeps it so. */
    ghost predicate Valid()
      reads this
    {
      0 <= currentMonth < 12
    }

    /** A wallet is connected: `address` is set and not empty. */
    predicate Connected()
      reads this
    {
      address.Some? && address.value != ""
    }

    /** The ticks on show: those of the selected habit, none without one. */
    function SelectedTicks(): (t: set<string>)
      reads this
      ensures selectedHabit.None? ==> t == {}
      ensures selectedHabit.Some? ==> t == TicksOf(habitData, selectedHabit.value.id)
    {
      if selectedHabit.Some? then TicksOf(habitData, selectedHabit.value.id) else {}
    }

    /** The figures the page derives from the ticks on show on day `today`:
        the current streak, the best streak, the badges and how many of them
        are unlocked. For date strings the current streak is within the best. */
    method Summary(today: int) returns (streak: nat, best: nat, badges: seq<Achievement>, unlocked: nat)
      ensures streak == Min(CurrentRun(SelectedTicks(), today), Lookback)
      ensures SelectedTicks() == {} <==> best == 0
      ensures best <= |SelectedTicks()|
      ensures WellFormed(SelectedTicks()) ==> IsLongestRun(DaySet(SelectedTicks()), best)
      ensures WellFormed(SelectedTicks()) ==> streak <= best
      ensures badges == GetAchievements(SelectedTicks(), streak, best)
      ensures unlocked == UnlockedCount(badges) && unlocked <= 6
    {
      var ticks := SelectedTicks();
      streak := CurrentStreakCapped(ticks, today);
      ghost var sorted;
      best, sorted := BestStreak(ticks);
      if WellFormed(ticks) {
        BestIsLongest(ticks, sorted);
        CurrentWithinBest(ticks, sorted, today);
      }
      badges := GetAchievements(ticks, streak, best);
      unlocked := UnlockedCount(badges);
    }

    /** The state before a wallet is connected, showing the month of `today`. */
    constructor (today: Date)
      requires ValidDate(today)
      ensures Valid()
      ensures address == None && habitData == map[] && selectedHabit == None
      ensures notes == [] && !showConfetti
      ensures currentYear == today.year && currentMonth == today.month - 1
    {
      address := None;
      habitData := map[];
      selectedHabit := None;
      notes := [];
      showConfetti := false;
      currentMonth := today.month - 1;
      currentYear := today.year;
    }

    /** `onToggleDate(isoDate)` with `today` the current day's number: flip
        `isoDate` in the selected habit's ticks, and set off the celebration
        when that added the date and the new streak is a milestone. Nothing
        happens without a wallet or a selected habit. */
    method OnToggleDate(isoDate: string, today: int)
      requires Valid()
      modifies this
      ensures Valid()
      ensures !old(Connected()) || old(selectedHabit).None? ==>
        habitData == old(habitData) && showConfetti == old(showConfetti)
      ensures old(Connected()) && old(selectedHabit).Some? ==>
        var id := old(selectedHabit).value.id;
        habitData == old(habitData)[id := Toggled(TicksOf(old(habitData), id), isoDate)]
        && showConfetti == (old(showConfetti) || Celebrates(TicksOf(old(habitData), id), isoDate, today))
      ensures address == old(address) && selectedHabit == old(selectedHabit) && notes == old(notes)
      ensures currentMonth == old(currentMonth) && currentYear == old(currentYear)
    {
      if !Connected() || selectedHabit.None? {
        return;
      }
      var id := selectedHabit.value.id;
      var habitTicks := TicksOf(habitData, id);
      var wasAdding := isoDate !in habitTicks;
      if isoDate in habitTicks {
        habitTicks := habitTicks - {isoDate};
      } else {
        habitTicks := habitTicks + {isoDate};
        var newStreak := CurrentStreakCapped(habitTicks, today);
        if wasAdding && IsMilestone(newStreak) {
          showConfetti := true;
        }
      }
      habitData := habitData[id := habitTicks];
    }

    /** `onAddNote(date, note, habitId)`: replace the note of that day and
        habit by the new one, placed last. Nothing happens without a wallet. */
    method OnAddNote(date: string, note: string, habitId: string)
      requires Valid()
      modifies this
      ensures Valid()
      ensures notes == if old(Connected()) then Upsert(old(notes), date, note, habitId) else old(notes)
      ensures address == old(address) && habitData == old(habitData) && selectedHabit == old(selectedHabit)
      ensures showConfetti == old(showConfetti)
      ensures currentMonth == old(currentMonth) && currentYear == old(currentYear)
    {
      if !Connected() {
        return;
      }
      notes := WithoutNote(notes, date, habitId) + [DayNote(date, note, habitId)];
    }

    /** `changeMonth(delta)`: move the shown month by `delta`, carrying
        into the year. */
    method ChangeMonth(delta: int)
      requires Valid()
      modifies this
      ensures Valid()
      ensures (currentYear, currentMonth) == AddMonths(old(currentYear), old(currentMonth), delta)
      ensures 12 * currentYear + currentMonth == 12 * old(currentYear) + old(currentMonth) + delta
      ensures address == old(address) && habitData == old(habitData) && selectedHabit == old(selectedHabit)
      ensures notes == old(notes) && showConfetti == old(showConfetti)
    {
      var next := AddMonths(currentYear, currentMonth, delta);
      currentMonth := next.1;
      currentYear := next.0;
    }
  }

  /** Toggling a date twice leaves the selected habit's ticks as they were
      (a habit that had no entry gets an empty one). */
  lemma ToggleTwiceData(data: map<string, set<string>>, id: string, x: string)
    ensures var once := data[id := Toggled(TicksOf(data, id), x)];
      var twice := once[id := Toggled(TicksOf(once, id), x)];
      TicksOf(twice, id) == TicksOf(data, id)
      && forall other :: other != id ==> TicksOf(twice, other) == TicksOf(data, other)
  {
    ToggleTwice(TicksOf(data, id), x);
  }
}
