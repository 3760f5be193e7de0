# Streak Chain: a verified model of the habit-streak core

Streak Chain is a habit tracker. For each habit the user ticks calendar days,
stored as a set of `YYYY-MM-DD` strings. From that set the app derives:

- the current streak (consecutive ticked days ending today);
- the best streak (the longest run of consecutive ticked days);
- six achievement badges;
- per-weekday and per-month counts.

It also lays a month out as a calendar grid, and lets the user page between
months.

This project models that core in Dafny:

| file | module | what it holds |
|---|---|---|
| `calendar.dfy` | `Calendar` | Proleptic Gregorian dates and day numbers (day 0 is 0000-01-01), month lengths, weekdays (0 is Sunday), month arithmetic with year carry. |
| `iso_date.dfy` | `IsoDate` | The `YYYY-MM-DD` form of a date: its formatting, a strict reader, and the default string order of `Array.prototype.sort`. Also the set of days a set of tick strings denotes. |
| `streak.dfy` | `Streak` | `calcCurrentStreak` of `lib/streak.ts` (unbounded) and of `app/page.tsx` (stops after 365 days), both proved against one specification `CurrentRun`. |
| `best_streak.dfy` | `BestRun` | `calcBestStreak`: sort the strings, then scan neighbours one day apart. For date strings, the result is proved to be the longest run of consecutive ticked days. |
| `achievements.dfy` | `Achievements` | `getAchievements` and the unlocked count. |
| `tracker.dfy` | `Tracker` | The page state (`Home`): `onToggleDate` with its celebration rule, `onAddNote`, `changeMonth`, the derived figures, and the heatmap's `getIntensity`. |
| `calendar_grid.dfy` | `CalendarGrid` | `CalendarGrid.tsx` (`startOfMonth`, `daysInMonth`, the cell layout, previous/next month), the page's inline grid and `getMonthDays`. |
| `analytics.dfy` | `Analytics` | The weekday and month counts of the analytics view. |
| `numbers.dfy` | `Numbers` | `Math.min` and `Math.max`. |

"Today" is always a parameter, either a day number or a `Date`. It is never
read from a clock.

Two notes on how the model reads the code:

- The page's streak is `min(run, 365)`, not the run itself. Its loop tests at
  most 365 days, so a longer run is reported as 365.
- A tick string that is not a date has no day. It never extends a streak. In
  the best-streak scan it breaks a run, because the day difference it
  produces is `NaN`.

## Model

| member | source | states |
|---|---|---|
| Streak.CurrentStreak | lib/streak.ts:1-13 | The count equals `CurrentRun(ticks, today)`: the number of consecutive days ending at `today` whose `YYYY-MM-DD` string is in the set. It is 0 for an empty set or when today is not ticked. |
| Streak.CurrentStreakCapped | app/page.tsx:313-329 | The count equals `min(CurrentRun(ticks, today), 365)`. |
| Streak.CurrentRun | lib/streak.ts:2-10 | The streak is 0 exactly when today is not one of the ticked days. |
| Streak.CurrentRunZero | lib/streak.ts:8-10 | The streak is 0 exactly when today's `YYYY-MM-DD` string is not ticked. |
| Streak.CurrentRunCovers | lib/streak.ts:6-10 | Every one of the last `k` days, up to today, is ticked. |
| Streak.CurrentRunStops | lib/streak.ts:9-10 | The day just before the streak (`k` days before today) is not ticked. |
| Streak.CurrentRunBound | lib/streak.ts:6-10 | The streak is never longer than the number of ticks, so the open-ended walk ends. |
| Streak.CurrentRunAdd | app/page.tsx:415-418 | Adding any string never shortens the streak. |
| Streak.CurrentRunTickToday | app/page.tsx:415-419 | Ticking today, when it was unticked, gives a streak of one more than yesterday's streak. |
| Streak.CurrentRunUntickToday | app/page.tsx:415 | Removing today's string makes the streak 0. |
| Streak.RunLength | lib/streak.ts:6-10 | The run of consecutive days in a set, ending at a day, is no longer than the set. |
| Streak.RunLengthCovers | lib/streak.ts:6-10 | Every day of the run is in the set. |
| Streak.RunLengthStops | lib/streak.ts:9-10 | The day before the run is not in the set. |
| Streak.RunLengthUnique | lib/streak.ts:6-12 | The two facts above determine the run's length. |
| Streak.RunLengthBelow | lib/streak.ts:6-10 | The run depends only on the days up to its last day. |
| Streak.RunLengthMonotone | lib/streak.ts:6-10 | A superset has a run at least as long. |
| BestRun.BestStreak | app/page.tsx:331-348 | The result is `LongestRun` of a sorted listing of the ticks. It is 0 exactly when there are no ticks, and never more than the number of ticks. |
| BestRun.SortTicks | app/page.tsx:333 | The result lists every tick exactly once, in strictly ascending string order. |
| BestRun.Insert | app/page.tsx:333 | Inserting a new string keeps the sequence ascending and adds exactly that string. |
| BestRun.DayDiff | app/page.tsx:337-339 | The difference in days is defined exactly when both strings are dates (otherwise it is `NaN`). |
| BestRun.RunAt | app/page.tsx:340-345 | The run counter at entry `i` is between 1 and `i + 1`. |
| BestRun.LongestUpTo | app/page.tsx:334-342 | The maximum after entry `i` is between 1 and `i + 1`. |
| BestRun.LongestRun | app/page.tsx:332-347 | The result is 0 exactly for an empty list, and at most the list's length. |
| BestRun.BestIsLongest | app/page.tsx:331-348 | When every tick is a date: every day's run is at most the best streak, some ticked day attains it, and it is 0 only for no ticks. |
| BestRun.CurrentWithinBest | app/page.tsx:462-463 | When every tick is a date, the current streak on any day is at most the best streak. |
| BestRun.DayIncreasingStep | app/page.tsx:333-339 | Neighbours in the sorted list are strictly increasing days. |
| BestRun.DaysOfEntries | app/page.tsx:337-339 | The days of the sorted entries form a strictly increasing sequence. |
| BestRun.DayRunAtLength | app/page.tsx:340-345 | The scan's run at entry `i` is the run of consecutive days ending at that entry's day. |
| BestRun.EntriesAreDays | app/page.tsx:333 | The days of the sorted entries are exactly the ticked days. |
| BestRun.StepsOfEntries | app/page.tsx:337-340 | Two neighbouring entries are one day apart by `DayDiff` exactly when their day numbers differ by 1. |
| BestRun.RunAtDays | app/page.tsx:336-345 | The string scan and the day scan keep the same counter. |
| BestRun.DayLongestUpTo | app/page.tsx:342 | The day scan's maximum is at least 1. |
| BestRun.LongestUpToDays | app/page.tsx:334-345 | The string scan and the day scan keep the same maximum. |
| BestRun.LongestCovers | app/page.tsx:342 | In the day scan, the maximum is at least every run counter seen so far. |
| BestRun.LongestAttained | app/page.tsx:342 | In the day scan, some run counter seen so far equals the maximum. |
| BestRun.LongestBounds | app/page.tsx:334-345 | No ticked day ends a run of consecutive days longer than the scan's maximum. |
| BestRun.LongestReached | app/page.tsx:334-345 | Some ticked day ends a run exactly as long as the scan's maximum. |
| BestRun.LongestOfDays | app/page.tsx:334-345 | The scan's maximum over all the ticked days, in increasing order, is their longest run of consecutive days. |
| BestRun.EntryInDays | app/page.tsx:333 | Every sorted entry is a ticked day. |
| BestRun.EntryOf | app/page.tsx:333 | Every ticked day appears in the sorted list. |
| Achievements.GetAchievements | app/page.tsx:350-359 | Six entries in catalogue order. Each has its id, is unlocked exactly when its counter (tick count or best streak) reaches its threshold, and for the five tracked ones has progress `min(counter, threshold)` out of the threshold. |
| Achievements.StreakUnused | app/page.tsx:350 | The current-streak argument does not affect the result. |
| Achievements.UnlockedCount | app/page.tsx:465 | The count is at most the number of badges. It is 0 exactly when none is unlocked, and the full length exactly when all are. Its exact value is stated by `UnlockedCountIsSize`. |
| Achievements.UnlockedCountSnoc | app/page.tsx:465 | Appending one badge adds one to the count exactly when it is unlocked. |
| Achievements.IndicesSnoc | app/page.tsx:465 | Appending one badge adds one unlocked position exactly when it is unlocked. |
| Achievements.UnlockedCountIsSize | app/page.tsx:465 | The count is exactly the number of positions holding an unlocked badge, as `filter(a => a.unlocked).length` gives. |
| Achievements.UnlockedCountMonotone | app/page.tsx:465 | Pointwise more unlocked badges give at least as large a count. |
| Achievements.AchievementsMonotone | app/page.tsx:350-359 | More ticks or a longer best streak never lower the unlocked count. |
| Achievements.StreakBadgesImplyCounts | app/page.tsx:352-357 | With best streak at most the tick count, `legend` implies `century-club`, and `week-warrior` implies `first-step`. |
| Tracker.TicksOf | app/page.tsx:461 | A habit with no entry has no ticks. |
| Tracker.Toggled | app/page.tsx:412-417 | The date is in the result exactly when it was not in the set; every other string is kept as it was. |
| Tracker.ToggleTwice | app/page.tsx:412-417 | Toggling the same date twice gives the set back. |
| Tracker.ToggleTwiceData | app/page.tsx:409-426 | Two toggles of one date leave every habit's ticks as they were. |
| Tracker.IsMilestone | app/page.tsx:419 | `[7, 30, 50, 100].includes(n)` holds exactly for 7, 30, 50 and 100. |
| Tracker.Celebrates | app/page.tsx:413-419 | The toggle celebrates exactly when it added the date and the new streak is a milestone; the 365 cap never decides it, and a celebrated streak is 7 to 100 days long. |
| Tracker.CelebratesTickingToday | app/page.tsx:413-422 | Unticking today never celebrates. Ticking today celebrates exactly when yesterday's streak plus one is 7, 30, 50 or 100. |
| Tracker.WithoutNote | app/page.tsx:432 | Keeps exactly the notes not on that date and habit. |
| Tracker.Upsert | app/page.tsx:432-433 | The new note comes last, and before it stand exactly the old notes on other days or habits. |
| Tracker.UpsertLeavesOne | app/page.tsx:430-436 | After saving, there is exactly one note for the date and habit, the last one, with the new text. Every other note keeps its number of copies. |
| Tracker.Intensity | app/page.tsx:74-78 | The intensity is 1 exactly when a habit is selected and the date is among its ticks, and 0 otherwise. |
| Tracker.Home.SelectedTicks | app/page.tsx:461 | The ticks on show are those of the selected habit, or none when no habit is selected. |
| Tracker.Home.Summary | app/page.tsx:461-465 | The derived figures: the capped current streak, and a best streak that is 0 exactly for no ticks and at most the tick count. For date strings the best streak is the longest run of consecutive ticked days, and the current streak is at most the best. Also the badges and their unlocked count (at most 6). |
| Tracker.Home.constructor | app/page.tsx:369-377 | The initial state: no wallet, no data, no selection, no notes, no confetti, and the month of today (0-based). |
| Tracker.Home.OnToggleDate | app/page.tsx:406-428 | Without a wallet or a selected habit, nothing changes. Otherwise the selected habit's ticks are toggled, and the confetti is set exactly when the toggle added the date and the new capped streak is 7, 30, 50 or 100. Other fields are unchanged. |
| Tracker.Home.OnAddNote | app/page.tsx:430-436 | With a wallet, the notes become the old notes minus those for that date and habit, plus the new note at the end. Without one, nothing changes. |
| Tracker.Home.ChangeMonth | app/page.tsx:467-471 | The (year, month) moves by `delta` months. The month stays in 0..11 and `12 * year + month` grows by exactly `delta`. |
| CalendarGrid.StartOfMonth | app/components/CalendarGrid.tsx:9-11 | The first day of the same month, `day - 1` days earlier. |
| CalendarGrid.StepMonth | app/components/CalendarGrid.tsx:38-44 | A valid first-of-month whose month count differs by exactly `delta`. |
| CalendarGrid.StepMonthInverse | app/components/CalendarGrid.tsx:38-44 | Stepping by `delta` and back gives the start of the original month. |
| CalendarGrid.StepMonthNext | app/components/CalendarGrid.tsx:42-44 | One month on is the first of the next month, or January 1st of the next year after December. |
| CalendarGrid.LastDayOfMonth | app/components/CalendarGrid.tsx:13-17 | The month's last day is the day before the first of the next month. |
| CalendarGrid.MonthLength | app/components/CalendarGrid.tsx:13-17 | `daysInMonth`, `new Date(y, m + 1, 0).getDate()` (the day before the first of the next month, read back without the two-digit-year rule), is the Gregorian length of the month (`DaysInMonth`). |
| CalendarGrid.DateLayoutColumns | app/components/CalendarGrid.tsx:26-36 | In the cell layout every date sits in the column of its weekday (cell `i` in column `i % 7`). |
| CalendarGrid.MonthCells | app/components/CalendarGrid.tsx:26-36 | The cells are: one empty cell per weekday before the 1st, then every date of the month in order. |
| CalendarGrid.PageMonthCells | app/page.tsx:122-130 | The same layout, with day numbers 1..n for the 0-based month. |
| CalendarGrid.MonthDays | app/page.tsx:65-72 | The days 1..n of the month, with n its Gregorian length. |
| CalendarGrid.CalendarView.constructor | app/components/CalendarGrid.tsx:24 | The view starts at the first of today's month. |
| CalendarGrid.CalendarView.PrevMonth | app/components/CalendarGrid.tsx:38-40 | The view goes to the first of the previous month, and January goes back to December of the year before. |
| CalendarGrid.CalendarView.NextMonth | app/components/CalendarGrid.tsx:42-44 | The view goes to the first of the next month, and December goes on to January of the year after. |
| CalendarGrid.NextPrevRoundTrip | app/components/CalendarGrid.tsx:38-44 | Next then previous, or previous then next, returns to the same month. |
| CalendarGrid.JsStepMonth | app/components/CalendarGrid.tsx:38-44 | The month step as the constructor evaluates it gives the first of a month whose month count is the base's plus `delta`, where a base year 0..99 counts as 1900 + year (section 21.4.2.1 of ECMA-262). |
| CalendarGrid.JsStepMonthAgrees | app/components/CalendarGrid.tsx:38-44 | Outside years 0..99, that step equals `StepMonth`. |
| CalendarGrid.JsStepMonthRoundTripFails | app/components/CalendarGrid.tsx:38-44 | From January of year 100, going previous then next lands on January 2000. |
| Calendar.DaysInMonth | app/page.tsx:122 | Month lengths: 28 or 29 for February (by leap year), 30 for April, June, September and November, 31 otherwise. The page's `new Date(year, month + 1, 0).getDate()` carries the year-0 February difference described on the CalendarGrid.MonthLength line under Left out. |
| Calendar.DayNumber | lib/streak.ts:7 | A date's day number lies within its year's days. |
| Calendar.DayNumberBefore | lib/streak.ts:7 | A date before another has a smaller day number. |
| Calendar.DayNumberOrder | lib/streak.ts:7 | Day numbers follow calendar order, in both directions, and are injective. |
| Calendar.FromDayNumber | lib/streak.ts:7 | For every day number from 0 on, a valid date with that day number. |
| Calendar.DayNumberRoundTrip | lib/streak.ts:7 | A date read back from its day number is the same date. |
| Calendar.DaysBeforeYearStep | lib/streak.ts:7 | Consecutive years are a year's length apart. |
| Calendar.DaysBeforeMonthStep | lib/streak.ts:7 | Consecutive months are a month's length apart, and the months fill the year. |
| Calendar.Weekday | app/page.tsx:123 | `getDay()` is in 0..6. |
| Calendar.WeekdayAnchors | app/page.tsx:123 | 1970-01-01 is a Thursday (4) and 2024-01-01 a Monday (1), as `getDay` numbers them. |
| Calendar.WeekdayNext | app/page.tsx:123 | The next day has the next weekday, Saturday (6) wrapping to Sunday (0). |
| Calendar.AddMonths | app/page.tsx:468 | The month is in 0..11 and the month count moves by exactly `delta`. |
| Calendar.AddMonthsCompose | app/page.tsx:467-471 | Steps compose, and a step followed by its opposite returns to the start. |
| Calendar.MonthCountDetermines | app/page.tsx:468-470 | A month count determines (year, month). |
| IsoDate.Parse | app/page.tsx:337-338 | A parsed date is printable and formats back to the same string. |
| IsoDate.IsoOfFields | app/page.tsx:337-338 | A string of the `YYYY-MM-DD` shape whose fields form a valid date is printable, and it is the formatting of that date. |
| IsoDate.ParseIso | lib/streak.ts:8 | Formatting a date and reading it back gives the date. |
| IsoDate.IsoInjective | lib/streak.ts:8 | Different dates have different strings. |
| IsoDate.LexLessIrreflexive | app/page.tsx:333 | The sort order is irreflexive. |
| IsoDate.LexLessTransitive | app/page.tsx:333 | The sort order is transitive. |
| IsoDate.LexLessTotal | app/page.tsx:333 | Of two different strings, exactly one comes first. |
| IsoDate.IsoOrder | app/page.tsx:333-339 | For printable dates, string order is day order, in both directions. |
| IsoDate.DayOfOrder | app/page.tsx:333-339 | For date strings, string order is day-number order. |
| IsoDate.DayIso | lib/streak.ts:8 | `toISOString().slice(0, 10)` gives 10 characters. |
| IsoDate.ParseDayIso | lib/streak.ts:8 | Reading a day's string gives the date of that day. |
| IsoDate.DayIsoInjective | lib/streak.ts:8 | Two days have the same string exactly when they are the same day. |
| IsoDate.DayOf | app/page.tsx:337-338 | A date string's day number is in the printable range. |
| IsoDate.DayIsoOf | app/page.tsx:337-338 | A date string is the string of its own day. |
| IsoDate.InDaySet | lib/streak.ts:8-9 | A day is in the ticked days exactly when its string is ticked. |
| IsoDate.NotInDaySet | lib/streak.ts:8-9 | A day that is not among the ticked days has no ticked string. |
| IsoDate.DaySetSplit | lib/streak.ts:8-9 | The days of a non-empty set of strings are the days of one member plus the days of the rest. |
| IsoDate.DaySetSize | lib/streak.ts:8-9 | There are no more ticked days than ticked strings. |
| IsoDate.DaySetAdd | app/page.tsx:417 | Ticking a day's string adds exactly that day. |
| IsoDate.DaySetRemove | app/page.tsx:415 | Unticking a day's string removes exactly that day. |
| IsoDate.HasDay | lib/streak.ts:9 | `ticks.has(iso)` answers whether the day is ticked. |
| Analytics.BucketOf | app/page.tsx:249 | A string has a weekday or month bucket exactly when it is a date, and the bucket is in range. |
| Analytics.InBucketAdd | app/page.tsx:248-250 | A new string adds one to its own bucket and nothing to the others. |
| Analytics.Bump | app/page.tsx:250 | `stats[key]++` adds one to the keyed counter and leaves every other counter as it was; a string without a key changes nothing. |
| Analytics.Increment | app/page.tsx:250 | The in-place increment leaves the array equal to `Bump` of its old contents. |
| Analytics.TalliesNone | app/page.tsx:247 | The all-zero array is the right count for no strings. |
| Analytics.SumBump | app/page.tsx:250 | Incrementing one count raises the total by 1. Skipping a string keeps it. |
| Analytics.BucketsStep | app/page.tsx:248-250 | After `stats[key]++`, each count is the size of its bucket in the strings counted so far plus the new one. |
| Analytics.SumStep | app/page.tsx:248-250 | After `stats[key]++`, the counts add up to the number of date strings counted so far plus the new one. |
| Analytics.TallyStep | app/page.tsx:248-250 | Counts that are right for the strings seen so far stay right after one `stats[key]++` for a new string. |
| Analytics.CountOne | app/page.tsx:249-250 | Counting one string in place keeps every count equal to the size of its bucket. |
| Analytics.Tally | app/page.tsx:246-263 | Seven weekday counts or twelve month counts. Each is the number of ticks in that bucket, and together they add up to the number of date strings. |
| Numbers.Min | app/page.tsx:353 | `Math.min` is at most both arguments and is one of them. |
| Numbers.Max | app/page.tsx:342 | `Math.max` is at least both arguments and is one of them. |

## Left out

- Time zones:
  - The sources format local midnight with `toISOString`, which is UTC.
  - They step days by 86400000 ms.
  - They read UTC-parsed strings back with local getters (`getDay`, `getMonth`).
  - The model treats a day and its `YYYY-MM-DD` string as one calendar day in one zone.
  - The day-shift and DST artefacts these mixes cause in some zones are not modelled.
- The clock (`new Date()`) is a parameter (`today`). Randomness (`addHabit`'s colours and icons) is not part of this model.
- Years outside 0000..9999 have no `YYYY-MM-DD` form. Days outside that range count as unticked. JavaScript would produce `+010000-…` strings there.
- `Date.parse` leniency: only exact `YYYY-MM-DD` strings of real dates are read as dates. Other strings a JavaScript engine may accept count as not dates.
- The sort order compares characters as code points. JavaScript compares UTF-16 code units. The two differ only for characters outside the Basic Multilingual Plane, never for date strings.
- Persistence (`loadData`, `saveData`, the `address` effect that reloads state) and the MetaMask connection are not modelled: they are I/O. `address` is a field that is set or not.
- Other page state is not modelled: `habits`, `addHabit`, dark mode, `view`, `showAchievements`, the note modal and `goToToday`. So are rendering, JSX and the achievements' `icon` emoji.
- Tracker.Home.OnToggleDate: `showConfetti` is never reset. The three-second `setTimeout` that clears it is a timer and is not modelled.
- Analytics.Tally: the `percentage` floats and the `Math.max(...stats, 1)` scale of the weekday chart are left out, because they are floating point. For a non-date string, JavaScript increments a `NaN` property of the array. That property is not one of the counts, so the model skips such a string.
- BestRun.BestIsLongest: the longest-run property is proved only when every tick is a date string. For other sets, `BestStreak` still equals `LongestRun` of the sorted listing, where a non-date neighbour breaks a run (`NaN !== 1`).
- CalendarGrid.MonthLength (and Calendar.DaysInMonth where the page uses it): defined (and proved equal to `DaysInMonth`) only for years from 0 on, and without the `Date` constructor's rule that reads a year 0..99 as 1900 + year. For years 0..99 `new Date(y, m + 1, 0)` uses year 1900 + y. The lengths agree there except February of year 0: 28 in JavaScript (February 1900) and 29 here. No `base` the component reaches is in year 0. The grid methods use `DaysInMonth` directly.
- Calendar.AddMonths: models the month arithmetic of `new Date(year, month0 + delta, 1)` without the constructor's reading of a year 0..99 as 1900 + year (see Findings). Those years are reached only by paging back about 23,000 months; the model follows the evidently intended calendar there.
- Tracker.Home.ChangeMonth: uses `AddMonths`, so from (year 99, December) one month on is January of year 100 in the model and January 2000 in JavaScript, and one month back is November 99 in the model and November 1999 in JavaScript.
- CalendarGrid.StartOfMonth: for a date in years 0..99, `new Date(y, m, 1)` gives year 1900 + y; the model keeps the year.
- CalendarGrid.MonthCells: for a base in years 0..99 (reachable by paging back past January 100), JavaScript lays out the same month of year 1900 + y; the model lays out year y.
- CalendarGrid.PageMonthCells: for `currentYear` 0..99, `new Date(currentYear, currentMonth, 1)` lays out the month of year 1900 + `currentYear`; December 99 gets 3 leading empty cells in JavaScript and 2 in the model.
- CalendarGrid.CalendarView.PrevMonth, CalendarGrid.CalendarView.NextMonth: their contracts use `StepMonth`, so they carry the same gap as the `CalendarGrid.StepMonth` line below.
- CalendarGrid.StepMonth: models `new Date(y, m ± 1, 1)` without the constructor's two-digit-year rule. `JsStepMonth` models that rule; see Findings.
- The `!ticks` null guards: a set here is never null.

## Findings

| source | as written | input that shows it | evidently intended | confidence | as-written member | corrected member |
|---|---|---|---|---|---|---|
| app/components/CalendarGrid.tsx:38-44 | `new Date(base.getFullYear(), base.getMonth() ± 1, 1)` passes the year to the `Date` constructor, which reads a year 0..99 as 1900..1999 (section 21.4.2.1 of ECMA-262). The same expression is at app/page.tsx:468. | Showing January of year 100: Prev shows December 99. Next then shows January 2000, not January 100. | Prev then Next returns to the month shown. | medium; not executed | CalendarGrid.JsStepMonthRoundTripFails | CalendarGrid.NextPrevRoundTrip |
