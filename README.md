# Darshan OS daily tracker: a Dafny model

Darshan OS is a single-page tracker. Each calendar day has one entry. An entry holds up to
three tasks, a journal and an AI reflection. Each task has a status (Not Started, In
Progress, Done) and a focus level from 1 to 10. The app keeps every entry in a record keyed
by date. It shows today's entry for editing, and a scoreboard computed from the whole
history sorted newest first. This project models that core and proves properties of it:

- `Types` holds the records: task status, task, daily entry. A date `YYYY-MM-DD` is an
  integer day number.
- `JsText` holds the parts of JavaScript's string functions that the core relies on:
  - `String.prototype.trim`, over the ECMAScript white-space and line-terminator set;
  - decimal `parseInt` on a string of digits, and the decimal rendering of a natural number.
- `Sorting` is an insertion sort by a descending integer key, proved stable
  (`SortDescStable`), as `Array.prototype.sort` is; here it is used with a "newest first"
  comparator.
- `TaskItem` holds the task row's handlers: the status buttons and the focus slider.
- `DailyCommandCenter` holds the daily view's handlers: add, update and delete a task, and
  edit the journal. Each one computes the entry it hands to `onUpdate`.
- `Scoreboard` holds the statistics:
  - consistency, average focus and the focus chart over the 30 newest entries;
  - the current streak.

  `Scoreboard.ComputeStats` is the imperative loop of the source: four counters updated
  while the chart is built, then the streak loop with its two `break`s. It is proved equal
  to the functional specification `StatsOf`. The lemmas about `StatsOf` state what the
  figures mean:
  - consistency is within 0..100; it is 0 when there are no tasks, and 100 exactly when
    there is at least one task and every task is Done;
  - average focus is either 0 or between 1 and the largest focus level;
  - the chart is the recent entries, oldest first;
  - entries beyond the newest 30 do not count;
  - the streak is the length of the run of days ending today that each have an entry with
    a Done task. This holds when dates are distinct and none lies after today, and it
    describes the source at UTC offset 0 only (see "Left out").

  `LaterEntryResetsStreak` shows why the second proviso is needed: one entry dated after
  today makes the streak 0.
- `App` holds the store and its two views:
  - `TodayEntry` is the stored entry for today, or a blank skeleton.
  - `AllEntries` is the stored values sorted newest first.
  - `EntryStore` is a class whose map field is the date-keyed record. `Upsert` is its only
    writer, and `Interact` connects the daily view's actions to it.

  The lemmas show that, in a store where every entry sits under its own date, each stored
  entry appears in the history exactly once. They also tie the scoreboard's streak to the
  store's contents.

Inputs that the browser or the runtime supplies are parameters: today's date and a new
task's `Date.now()` id.

## Model

| member | source | states |
|---|---|---|
| Sorting.Insert | App.tsx:30 | inserting into a list sorted newest first keeps it sorted, adds exactly that element (multiset) and grows the length by one |
| Sorting.SortDesc | App.tsx:30 | the sort returns a permutation of its input (same length, same multiset) ordered by non-increasing key |
| Sorting.SortOfSorted | components/Scoreboard.tsx:58 | sorting a list that is already sorted leaves it unchanged (stability on sorted input) |
| Sorting.WithKey | App.tsx:30 | defines the elements of a list that have a given key, in their order in the list |
| Sorting.InsertWithKey | App.tsx:30 | inserting `x` puts it in front of all elements with its key and changes the order of no key's elements |
| Sorting.SortDescStable | App.tsx:30 | the sort is stable: for every key, the elements with that key appear in the same order as in the input |
| JsText.IsWhitespace | components/DailyCommandCenter.tsx:20 | defines the characters `trim()` removes: the ECMAScript white-space (tab, vertical tab, form feed, space, no-break space, byte-order mark, the Unicode space separators) and line terminators (LF, CR, U+2028, U+2029) |
| JsText.TrimStart | components/DailyCommandCenter.tsx:20 | the result is a suffix of the input; every removed character is white space; the result does not start with white space |
| JsText.TrimEnd | components/DailyCommandCenter.tsx:20 | the result is a prefix of the input; every removed character is white space; the result does not end with white space |
| JsText.Trim | components/DailyCommandCenter.tsx:23 | the trimmed text is no longer than the input and neither starts nor ends with white space |
| JsText.TrimIsSlice | components/DailyCommandCenter.tsx:23 | the trimmed text is a slice `s[i..j]` whose outside characters are all white space |
| JsText.TrimEmptyIff | components/DailyCommandCenter.tsx:20 | `trim()` is empty (falsy) exactly when every character is white space |
| JsText.TrimIdempotent | components/DailyCommandCenter.tsx:20-23 | trimming twice equals trimming once |
| JsText.DigitValue | components/TaskItem.tsx:19 | a digit's value is below 10 |
| JsText.DigitChar | components/TaskItem.tsx:19 | the digit character for d < 10 is a digit whose value is d |
| JsText.DigitsValue | components/TaskItem.tsx:19 | defines the value of a digit string read left to right in base 10 |
| JsText.ParseInt | components/TaskItem.tsx:19 | defines `parseInt(s, 10)` on a string of decimal digits as its base-10 value |
| JsText.Decimal | components/TaskItem.tsx:57-60 | the decimal rendering of a natural number is a non-empty digit string without a leading zero |
| JsText.ParseIntDecimal | components/TaskItem.tsx:19 | `parseInt(String(n), 10)` gives back n |
| TaskItem.StatusOptionsListEachStatusOnce | components/TaskItem.tsx:11 | the status buttons list the three statuses, each exactly once, in the order Not Started, In Progress, Done |
| TaskItem.ChangeStatus | components/TaskItem.tsx:14-16 | the task sent up has the chosen status; id, text and focus are unchanged |
| TaskItem.ChangeStatusLastWins | components/TaskItem.tsx:14-16 | of two status changes the last wins; choosing the current status changes nothing |
| TaskItem.SliderValue | components/TaskItem.tsx:55-61 | the range input's value is a decimal digit string |
| TaskItem.ChangeFocus | components/TaskItem.tsx:18-20 | the task sent up has the parsed focus level; id, text and status are unchanged |
| TaskItem.SliderFocusInRange | components/TaskItem.tsx:18-20 | a focus set through the slider lies in 1..10, and is the requested value whenever that is within 1..10 |
| DailyCommandCenter.AddTask | components/DailyCommandCenter.tsx:19-29 | an entry is sent exactly when the trimmed draft is non-empty and there are fewer than 3 tasks; the sent entry is the old one with one new task appended (the given id, the trimmed text, Not Started, focus 5) and the draft is cleared; otherwise the draft is kept |
| DailyCommandCenter.ReplaceById | components/DailyCommandCenter.tsx:33 | same length; each task whose id matches is replaced by the updated task, every other task stays |
| DailyCommandCenter.RemoveById | components/DailyCommandCenter.tsx:38 | no task with the id is left and the list does not grow |
| DailyCommandCenter.RemoveByIdCounts | components/DailyCommandCenter.tsx:38 | every task with another id keeps its multiplicity; tasks with the id occur zero times |
| DailyCommandCenter.RemoveByIdSubsequence | components/DailyCommandCenter.tsx:38 | the surviving tasks keep their relative order (a subsequence of the original) |
| DailyCommandCenter.UpdateTask | components/DailyCommandCenter.tsx:32-35 | the entry sent has the tasks replaced by id and the same date, journal and reflection |
| DailyCommandCenter.DeleteTask | components/DailyCommandCenter.tsx:37-40 | the entry sent has no task with the id, keeps all other tasks in order, and has the same date, journal and reflection |
| DailyCommandCenter.ChangeJournal | components/DailyCommandCenter.tsx:42-44 | the entry sent has the new journal and everything else unchanged |
| DailyCommandCenter.RemoveAbsentId | components/DailyCommandCenter.tsx:38 | filtering out an id that no task has changes nothing |
| DailyCommandCenter.RemoveByIdAppend | components/DailyCommandCenter.tsx:38 | filtering distributes over concatenation |
| DailyCommandCenter.DeleteUndoesAdd | components/DailyCommandCenter.tsx:19-40 | deleting a task just added under a fresh id gives back the original entry |
| DailyCommandCenter.DeleteIdempotent | components/DailyCommandCenter.tsx:37-40 | deleting the same id twice equals deleting it once |
| DailyCommandCenter.UpdateLaws | components/DailyCommandCenter.tsx:32-35 | updating with an id no task has changes nothing; updating twice equals updating once |
| DailyCommandCenter.Handle | components/DailyCommandCenter.tsx:19-44 | adding sends what `AddTask` sends; the other actions always send an entry; a sent entry keeps the date and the reflection, and never has more than 3 tasks if the original had at most 3 |
| Scoreboard.HasDone | components/Scoreboard.tsx:68 | defines `tasks.some(t => t.status === Done)`: some task is Done |
| Scoreboard.FocusSum | components/Scoreboard.tsx:35-36 | defines `dayFocus`: the sum of the day's positive focus levels |
| Scoreboard.DayAverage | components/Scoreboard.tsx:40 | defines `avgDayFocus`: the day's focus sum over its count of positive focus levels, 0 when there are none |
| Scoreboard.CompletedTasks | components/Scoreboard.tsx:33 | defines `completedTasks`: the number of Done tasks over the given entries |
| Scoreboard.TotalTasks | components/Scoreboard.tsx:34 | defines `totalTasks`: the number of tasks over the given entries |
| Scoreboard.FocusTotal | components/Scoreboard.tsx:41-42 | defines `totalFocus`: the sum of the positive day averages |
| Scoreboard.FocusDays | components/Scoreboard.tsx:41-43 | defines `focusEntries`: the number of days with a positive average |
| Scoreboard.Chart | components/Scoreboard.tsx:29-49 | defines `chartData` of a slice: one point per entry, last entry first, each with its date and day average |
| Scoreboard.Recent | components/Scoreboard.tsx:29 | defines `entries.slice(0, 30)`: the first min(n, 30) entries |
| Scoreboard.Consistency | components/Scoreboard.tsx:51 | defines `consistency`: completed over total tasks times 100, 0 when there are no tasks |
| Scoreboard.AverageFocus | components/Scoreboard.tsx:52 | defines `avgFocus`: the total of positive day averages over their count, 0 when there are none |
| Scoreboard.SortedDates | components/Scoreboard.tsx:58 | defines `sortedDates`: the entries' dates sorted newest first by the stable sort |
| Scoreboard.CompletedOn | components/Scoreboard.tsx:68 | defines `hasCompletedTask`: the first entry with date d exists and has a Done task |
| Scoreboard.WalkFrom | components/Scoreboard.tsx:60-77 | defines the streak loop from index i: it counts a step while the i-th sorted date is today - i and that day has a Done task, and stops otherwise or at the end |
| Scoreboard.Streak | components/Scoreboard.tsx:55-77 | defines `streak`: the steps of that loop from index 0 |
| Scoreboard.StatsOf | components/Scoreboard.tsx:13-86 | defines the statistics: consistency, average focus and chart of the newest 30 entries, and the streak over all entries |
| Scoreboard.DoneCount | components/Scoreboard.tsx:33 | the number of Done tasks is at most the number of tasks |
| Scoreboard.FocusCount | components/Scoreboard.tsx:35-37 | the number of tasks with positive focus is at most the number of tasks |
| Scoreboard.Dates | components/Scoreboard.tsx:58 | one date per entry, in entry order |
| Scoreboard.FirstIndexOn | components/Scoreboard.tsx:68 | `find` semantics: the index of the first entry with that date, or the length when there is none |
| Scoreboard.EmptyStats | components/Scoreboard.tsx:14-22 | no entries give consistency 0, average focus 0, streak 0 and an empty chart |
| Scoreboard.ComputeStats | components/Scoreboard.tsx:13-86 | the loops compute exactly `StatsOf(entries, today)` |
| Scoreboard.TallyDay | components/Scoreboard.tsx:30-39 | the `forEach` over a day's tasks adds its Done tasks and its task count to the running totals and sums its positive focus levels and their count |
| Scoreboard.WalkStreak | components/Scoreboard.tsx:55-77 | the streak loop with its two `break`s returns the number of steps of the walk `WalkFrom` from index 0 |
| Scoreboard.PercentFacts | components/Scoreboard.tsx:51 | a ratio of c to t with 0 <= c <= t gives a percentage within 0..100, and 100 exactly when c = t |
| Scoreboard.CompletedAtMostTotal | components/Scoreboard.tsx:33-34 | completed tasks never exceed total tasks |
| Scoreboard.AllTasksDone | components/Scoreboard.tsx:33 | defines a day on which every task has status Done |
| Scoreboard.AllEntriesDone | components/Scoreboard.tsx:32-33 | defines entries all of whose tasks have status Done |
| Scoreboard.DoneCountAll | components/Scoreboard.tsx:33 | a day's Done count equals its number of tasks exactly when every task has status Done |
| Scoreboard.CompletedAllDone | components/Scoreboard.tsx:33-34 | `completedTasks` equals `totalTasks` exactly when every task of every entry has status Done |
| Scoreboard.ConsistencyInRange | components/Scoreboard.tsx:51 | consistency lies within 0..100; it is 0 when there are no tasks, and 100 exactly when there is at least one task and every task of every entry has status Done |
| Scoreboard.FocusCountAtMostSum | components/Scoreboard.tsx:35-37 | the count of positive focus levels is at most their sum |
| Scoreboard.FocusSumAtMostBound | components/Scoreboard.tsx:35-37 | the sum of positive focus levels is at most the bound times their count |
| Scoreboard.FocusCountPositive | components/Scoreboard.tsx:35-37 | a day has a focus count above 0 exactly when some task has positive focus |
| Scoreboard.DayAverageRange | components/Scoreboard.tsx:40 | a day's average focus is 0 or at least 1; it is positive exactly when some task has positive focus; it is at most any bound on the focus levels |
| Scoreboard.FocusDaysAtMostTotal | components/Scoreboard.tsx:41-44 | the count of focused days is at most the sum of their averages |
| Scoreboard.FocusTotalAtMostBound | components/Scoreboard.tsx:41-44 | the sum of day averages is at most the bound times the number of focused days |
| Scoreboard.FocusDaysPositive | components/Scoreboard.tsx:41-44 | some day counts towards the average exactly when some entry has a task with positive focus |
| Scoreboard.AverageFocusRange | components/Scoreboard.tsx:52 | average focus is 0 or at least 1; it is 0 exactly when no entry has positive focus; it is at most any bound on the focus levels |
| Scoreboard.ChartIsReversed | components/Scoreboard.tsx:29-49 | the chart has one point per entry, and point i is the entry at position n-1-i (oldest first) with that day's average focus |
| Scoreboard.ChartOfRecent | components/Scoreboard.tsx:29 | the chart has min(n, 30) points, taken from the newest 30 entries, oldest first; for a list sorted newest first the chart's dates do not decrease |
| Scoreboard.OnlyRecentCount | components/Scoreboard.tsx:29-52 | entries past the newest 30 change neither consistency, nor average focus, nor the chart |
| Scoreboard.WalkFromFacts | components/Scoreboard.tsx:60-77 | from index i the streak loop stops within the sorted dates; every index it passes holds date today - j, and every day it passes has a Done task; it stops at a date that is either not today - r or has no Done task |
| Scoreboard.StreakAtMostEntries | components/Scoreboard.tsx:60 | the streak never exceeds the number of entries |
| Scoreboard.StreakDaysCompleted | components/Scoreboard.tsx:67-70 | every day of the streak, counted back from today, has an entry with a Done task |
| Scoreboard.StreakNeedsToday | components/Scoreboard.tsx:67-75 | with no entry dated today, or with no Done task today, the streak is 0 |
| Scoreboard.SortedDatesDistinct | components/Scoreboard.tsx:58 | sorting distinct dates keeps them distinct |
| Scoreboard.SortedDateOfEntry | components/Scoreboard.tsx:58 | every sorted date is some entry's date |
| Scoreboard.EntryDateIsSorted | components/Scoreboard.tsx:58 | every entry's date occurs among the sorted dates |
| Scoreboard.SortedDatesOfSortedEntries | components/Scoreboard.tsx:58 | for entries already newest first the sorted dates are the entries' dates in order |
| Scoreboard.SortedDatesDescending | components/Scoreboard.tsx:58 | the sorted dates are newest first |
| Scoreboard.NextSortedDate | components/Scoreboard.tsx:60-67 | when the first k sorted dates are today, today - 1, ..., and some entry is dated today - k, the next sorted date is today - k (given distinct dates, none after today) |
| Scoreboard.StreakStopsAtFirstGap | components/Scoreboard.tsx:67-75 | given distinct dates, none after today, the day just before the streak has no entry with a Done task |
| Scoreboard.StreakIsCurrentRun | components/Scoreboard.tsx:55-77 | given distinct dates, none after today, the streak is k exactly when the k days ending today all have an entry with a Done task and the day before them does not |
| Scoreboard.LaterEntryResetsStreak | components/Scoreboard.tsx:64-67 | any entry dated after today makes the streak 0 |
| Scoreboard.CompletedOnDistinct | components/Scoreboard.tsx:68 | with distinct dates, the entry `find` returns for a date has a Done task exactly when the entry with that date has one |
| Scoreboard.StreakOfTwo | components/Scoreboard.tsx:55-77 | an entry for today and one for yesterday, newest first, each with a Done task, give a streak of 2 |
| Scoreboard.TwoDaysStreak | components/Scoreboard.tsx:55-77 | the two-day example has a streak of 2 |
| Scoreboard.TwoDaysFigures | components/Scoreboard.tsx:29-52 | the same two days give consistency 100, average focus 6 and the chart [(yesterday, 4), (today, 8)] |
| Scoreboard.TwoDayExample | components/Scoreboard.tsx:13-86 | the whole statistics of the two-day example |
| App.KeysMatchDates | App.tsx:32-37 | defines a correctly keyed store: every entry sits under its own date |
| App.Skeleton | App.tsx:22-27 | defines the blank entry for today: dated today, no tasks, empty journal and reflection |
| App.TodayEntry | App.tsx:21-28 | the stored entry for today when there is one, otherwise the blank skeleton dated today with no tasks and empty texts |
| App.TodayEntryIsDatedToday | App.tsx:21-28 | in a store whose entries sit under their own dates, today's entry is dated today |
| App.UpsertLaws | App.tsx:32-37 | after the upsert today's entry is the upserted one; the keys gain at most today; other keys keep their entries; a second upsert overwrites the first |
| App.UpsertKeepsKeysMatchingDates | App.tsx:32-37 | upserting an entry dated today keeps every entry under its own date |
| App.MaxKey | App.tsx:30 | the largest key of a non-empty key set |
| App.KeysDesc | App.tsx:30 | the keys, each once, strictly decreasing |
| App.ValuesOf | App.tsx:30 | one stored value per key |
| App.AllEntries | App.tsx:30 | the history is a permutation of the stored values (same length, same multiset), sorted newest first |
| App.ValuesOfAt | App.tsx:30 | position i of the values is the entry stored under the i-th largest key |
| App.ValuesOfKeyedStore | App.tsx:30 | in a correctly keyed store the values have strictly decreasing dates, each is the entry stored under its own date, and every stored entry is among them |
| App.AllEntriesOfKeyedStore | App.tsx:30 | in a correctly keyed store the history lists each stored entry once, dates strictly decreasing |
| App.UpsertThenAllEntries | App.tsx:30-37 | after upserting today's entry the history contains it, it is the only entry dated today, and dates are distinct |
| App.StreakOfStore | App.tsx:30 | for a correctly keyed store with nothing after today, the scoreboard streak is the run of days ending today stored with a Done task, and the day before that run is not stored with one |
| App.CompletedOnStore | App.tsx:30 | the history's first entry with date d has a Done task exactly when the entry stored under d has one |
| App.EntryStore.constructor | App.tsx:17 | the store starts as the empty record, correctly keyed |
| App.EntryStore.Upsert | App.tsx:32-37 | the new contents are the old contents with today's key set to the updated entry |
| App.EntryStore.Interact | App.tsx:47 | the daily view acting on today's entry: whatever it sends is upserted under today, nothing else changes, and the store stays correctly keyed |

Proof helpers that model nothing by themselves have no row: `Sorting.SortedCons`,
`Sorting.WithKeyCons`, `JsText.SliceOfTrimmed`,
`Sorting.InsertedBelowHead`, `Sorting.InsertBelowHeadWithKey`, `Scoreboard.QuotientAtLeast`,
`Scoreboard.QuotientAtMost`, `Scoreboard.MeanBounds`, `Scoreboard.MeanOfDays`,
`Scoreboard.OneMoreDay`, `Scoreboard.FocusAtMostSplit`, `Scoreboard.DistinctCountsAtMostOne`,
`Scoreboard.RepeatCountsTwice`, `App.NonEmptyHasElement` and `App.KeysDescStep`. The
`TaskItem.StatusOptions` constant (components/TaskItem.tsx:11) is pinned down by
`TaskItem.StatusOptionsListEachStatusOnce`.

## Left out

- The Gemini service, the weekly insights view and `handleGenerateReflection` are left out.
  They are network calls whose text is not computed by the app.
- The UI components (header, buttons, cards, the circular progress ring) are left out, and
  so are `getStatusColor` and the rendering of JSX. They only present values.
- The `isGenerating` flag and the view switch are left out. They are UI state.
- Time zones, `Date` parsing, `toISOString` and `setHours(0,0,0,0)` are left out. A date is
  a day number, so the model compares days, not instants. This is the behaviour of the
  source only when the local UTC offset is 0. The streak loop normalises each sorted date
  to local midnight (components/Scoreboard.tsx:61-62). The `find` at
  components/Scoreboard.tsx:68 then compares that local midnight with `new Date(e.date)`,
  which parses a date-only string as UTC midnight. The two instants are equal only at
  offset 0. At any other offset `find` returns `undefined`, the loop breaks at its first
  step, and the streak as written is always 0. The streak lemmas (`StreakIsCurrentRun`,
  `StreakOfStore`) describe the offset-0 behaviour.
- Strings are sequences of Unicode scalar values, while JavaScript strings are sequences of
  UTF-16 code units, so a lone surrogate cannot be represented. Every character `trim`
  removes lies in the Basic Multilingual Plane, so trimming and id comparison are not affected.
- Consistency, the day averages and the average focus are exact reals. In the source they
  are IEEE double-precision numbers, so their rounding is not modelled.
- Scoreboard.ChartPoint: a chart point carries the day number rather than the
  `toLocaleDateString` label. It also carries the exact day average rather than the value
  rounded by `toFixed(1)`.
- `Date.now().toString()` and today's date are parameters, not clock reads.
- `useLocalStorage` persistence (JSON serialisation and the storage key) is left out. The
  store is an in-memory map.
- App.AllEntries: `Object.values` lists keys in insertion order, and this is not modelled.
  The values are taken by descending key instead. This affects only the relative order of
  entries with equal dates after the stable sort. In a correctly keyed store no two
  entries share a date. `AllEntries` is a ghost function because choosing an element of a
  set is not compilable.
- TaskItem.ChangeFocus: requires a digit string. The range input only ever delivers one,
  so `parseInt` on other text (NaN, signs, leading spaces) is not modelled.
- TaskItem.SliderValue: models the browser clamping a range input's value to `min`..`max`.
  That clamping is the browser's behaviour, not code of the app.
