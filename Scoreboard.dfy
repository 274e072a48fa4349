/** The scoreboard's statistics: completion rate ("consistency"), average focus, the chart
    of per-day focus and the current day streak, all derived from the list of entries the
    app hands over (newest first). Values are exact reals; the one-decimal rounding of the
    chart values is display formatting and is not modelled. */
module Scoreboard {
  import opened Types
  import opened Sorting

  /** Consistency, average focus and the chart cover only this many of the newest entries. */
  const ChartWindow := 30

  /** One point of the focus chart: the day (standing for its short date label) and that
      day's average focus. */
  datatype ChartPoint = ChartPoint(date: int, focus: real)

  datatype Stats = Stats(consistency: real, avgFocus: real, streak: nat, chartData: seq<ChartPoint>)

  // ---------------------------------------------------------------------------------------
  // Per-day figures, accumulated task by task (the order of `tasks.forEach`).

  /** How many tasks are Done. */
  function DoneCount(tasks: seq<Task>): (n: nat)
    ensures n <= |tasks|
  {
    if tasks == [] then 0
    else DoneCount(tasks[..|tasks| - 1]) + (if tasks[|tasks| - 1].status == Done then 1 else 0)
  }

  /** The sum of the positive focus levels. */
  function FocusSum(tasks: seq<Task>): int
  {
    if tasks == [] then 0
    else FocusSum(tasks[..|tasks| - 1]) + (if tasks[|tasks| - 1].focusLevel > 0 then tasks[|tasks| - 1].focusLevel else 0)
  }

  /** How many tasks have a positive focus level. */
  function FocusCount(tasks: seq<Task>): (n: nat)
    ensures n <= |tasks|
  {
    if tasks == [] then 0
    else FocusCount(tasks[..|tasks| - 1]) + (if tasks[|tasks| - 1].focusLevel > 0 then 1 else 0)
  }

  /** A day's average focus: the mean of its positive focus levels, 0 when it has none. */
  function DayAverage(tasks: seq<Task>): real
  {
    if FocusCount(tasks) > 0 then FocusSum(tasks) as real / FocusCount(tasks) as real else 0.0
  }

  // ---------------------------------------------------------------------------------------
  // Figures over a list of entries, newest first. The chart callback visits the entries
  // oldest first, so each figure is defined by peeling off the newest entry: the figure of
  // `entries` is that entry's contribution on top of the figure of the older ones.

  function CompletedTasks(entries: seq<DailyEntry>): nat
  {
    if entries == [] then 0 else DoneCount(entries[0].tasks) + CompletedTasks(entries[1..])
  }

  function TotalTasks(entries: seq<DailyEntry>): nat
  {
    if entries == [] then 0 else |entries[0].tasks| + TotalTasks(entries[1..])
  }

  /** The sum of the positive day averages. */
  function FocusTotal(entries: seq<DailyEntry>): real
  {
    if entries == [] then 0.0
    else (if DayAverage(entries[0].tasks) > 0.0 then DayAverage(entries[0].tasks) else 0.0) + FocusTotal(entries[1..])
  }

  /** How many days have a positive day average. */
  function FocusDays(entries: seq<DailyEntry>): nat
  {
    if entries == [] then 0
    else (if DayAverage(entries[0].tasks) > 0.0 then 1 else 0) + FocusDays(entries[1..])
  }

  /** The chart: one point per entry, oldest entry first. */
  function Chart(entries: seq<DailyEntry>): seq<ChartPoint>
  {
    if entries == [] then []
    else Chart(entries[1..]) + [ChartPoint(entries[0].date, DayAverage(entries[0].tasks))]
  }

  /** `entries.slice(0, 30)`. */
  function Recent(entries: seq<DailyEntry>): seq<DailyEntry>
  {
    entries[..if |entries| < ChartWindow then |entries| else ChartWindow]
  }

  /** Done tasks over all tasks, as a percentage; 0 when there are no tasks. */
  function Consistency(entries: seq<DailyEntry>): real
  {
    if TotalTasks(entries) > 0 then (CompletedTasks(entries) as real / TotalTasks(entries) as real) * 100.0 else 0.0
  }

  /** The mean of the positive day averages (each day weighs the same); 0 when there are none. */
  function AverageFocus(entries: seq<DailyEntry>): real
  {
    if FocusDays(entries) > 0 then FocusTotal(entries) / FocusDays(entries) as real else 0.0
  }

  // ---------------------------------------------------------------------------------------
  // The streak walk.

  function Dates(entries: seq<DailyEntry>): (ds: seq<int>)
    ensures |ds| == |entries| && forall i :: 0 <= i < |entries| ==> ds[i] == entries[i].date
  {
    seq(|entries|, i requires 0 <= i < |entries| => entries[i].date)
  }

  /** `entries.map(e => e.date).sort(newest first)`. */
  function SortedDates(entries: seq<DailyEntry>): seq<int>
  {
    SortDesc(Dates(entries), (d: int) => d)
  }

  /** The index `entries.find` stops at for date `d`; `|entries|` when no entry has that date. */
  function FirstIndexOn(entries: seq<DailyEntry>, d: int): (i: nat)
    ensures i <= |entries|
    ensures i < |entries| ==> entries[i].date == d
    ensures forall j :: 0 <= j < i ==> entries[j].date != d
  {
    if entries == [] then 0
    else if entries[0].date == d then 0
    else 1 + FirstIndexOn(entries[1..], d)
  }

  /** `tasks.some(t => t.status === Done)`. */
  predicate HasDone(tasks: seq<Task>)
  {
    exists i :: 0 <= i < |tasks| && tasks[i].status == Done
  }

  /** The `find` by date followed by `?.tasks.some(Done)`: the first entry dated `d` exists
      and has a Done task. The source compares the instant `new Date(e.date)` (UTC midnight)
      with the sorted date normalised to local midnight; on day numbers that comparison is
      equality of days, which is what the source does at UTC offset 0 only. */
  predicate CompletedOn(entries: seq<DailyEntry>, d: int)
  {
    var i := FirstIndexOn(entries, d);
    i < |entries| && HasDone(entries[i].tasks)
  }

  /** Entries already newest first have their dates sorted as they stand. */
  lemma SortedDatesOfSortedEntries(entries: seq<DailyEntry>)
    requires SortedDesc(entries, EntryDate)
    ensures SortedDates(entries) == Dates(entries)
  {
    var ds := Dates(entries);
    assert SortedDesc(ds, (d: int) => d) by {
      forall i, j | 0 <= i < j < |ds| ensures ds[i] >= ds[j] {
        assert EntryDate(entries[i]) >= EntryDate(entries[j]);
      }
    }
    SortOfSorted(ds, (d: int) => d);
  }

  /** Where the streak loop stops when it reaches index `i` of the sorted dates: it goes on
      while the date at index `i` is `today - i` and that day has a Done task. */
  function WalkFrom(sortedDates: seq<int>, entries: seq<DailyEntry>, today: int, i: nat): nat
    requires i <= |sortedDates|
    decreases |sortedDates| - i
  {
    if i < |sortedDates| && sortedDates[i] == today - i && CompletedOn(entries, sortedDates[i])
    then WalkFrom(sortedDates, entries, today, i + 1)
    else i
  }

  function Streak(entries: seq<DailyEntry>, today: int): nat
  {
    WalkFrom(SortedDates(entries), entries, today, 0)
  }

  /** What the scoreboard shows for `entries` (newest first) on day `today`. */
  function StatsOf(entries: seq<DailyEntry>, today: int): Stats
  {
    var recent := Recent(entries);
    Stats(Consistency(recent), AverageFocus(recent), Streak(entries, today), Chart(recent))
  }

  // ---------------------------------------------------------------------------------------
  // The computation itself.

  /** No entries: every figure is 0 and the chart is empty, the early return of the source. */
  lemma EmptyStats(today: int)
    ensures StatsOf([], today) == Stats(0.0, 0.0, 0, [])
  {
    assert Dates([]) == [];
    assert SortedDates([]) == [];
  }

  /** The body of the scoreboard's `useMemo`: four counters updated while the chart is built
      from the 30 newest entries taken oldest first, then the streak loop over the sorted
      dates. */
  method ComputeStats(entries: seq<DailyEntry>, today: int) returns (stats: Stats)
    ensures stats == StatsOf(entries, today)
  {
    if |entries| == 0 {
      EmptyStats(today);
      return Stats(0.0, 0.0, 0, []);
    }

    var completedTasks: nat, totalTasks: nat := 0, 0;
    var totalFocus: real, focusEntries: nat := 0.0, 0;

    var recent := Recent(entries);
    var n := |recent|;
    var chartData: seq<ChartPoint> := [];
    var i := 0;
    while i < n
      invariant 0 <= i <= n
      invariant completedTasks == CompletedTasks(recent[n - i..])
      invariant totalTasks == TotalTasks(recent[n - i..])
      invariant totalFocus == FocusTotal(recent[n - i..])
      invariant focusEntries == FocusDays(recent[n - i..])
      invariant chartData == Chart(recent[n - i..])
    {
      var entry := recent[n - 1 - i];
      var dayFocus, dayTasksWithFocus;
      completedTasks, totalTasks, dayFocus, dayTasksWithFocus := TallyDay(entry.tasks, completedTasks, totalTasks);
      var avgDayFocus := if dayTasksWithFocus > 0 then dayFocus as real / dayTasksWithFocus as real else 0.0;
      assert avgDayFocus == DayAverage(entry.tasks);
      if avgDayFocus > 0.0 {
        totalFocus := totalFocus + avgDayFocus;
        focusEntries := focusEntries + 1;
      }
      chartData := chartData + [ChartPoint(entry.date, avgDayFocus)];
      ghost var older := recent[n - (i + 1)..];
      assert older[0] == entry && older[1..] == recent[n - i..];
      i := i + 1;
    }
    assert recent[n - i..] == recent;

    var consistency := if totalTasks > 0 then (completedTasks as real / totalTasks as real) * 100.0 else 0.0;
    var avgFocus := if focusEntries > 0 then totalFocus / focusEntries as real else 0.0;
    var streak := WalkStreak(SortedDates(entries), entries, today);
    stats := Stats(consistency, avgFocus, streak, chartData);
    assert consistency == Consistency(recent) && avgFocus == AverageFocus(recent);
  }

  /** The `tasks.forEach` callback run over one day: it adds the day's Done tasks and tasks to
      the two running totals, and sums the day's positive focus levels. */
  method TallyDay(tasks: seq<Task>, completedIn: nat, totalIn: nat)
    returns (completed: nat, total: nat, dayFocus: int, dayTasksWithFocus: nat)
    ensures completed == completedIn + DoneCount(tasks)
    ensures total == totalIn + |tasks|
    ensures dayFocus == FocusSum(tasks) && dayTasksWithFocus == FocusCount(tasks)
  {
    completed, total, dayFocus, dayTasksWithFocus := completedIn, totalIn, 0, 0;
    var j := 0;
    while j < |tasks|
      invariant 0 <= j <= |tasks|
      invariant completed == completedIn + DoneCount(tasks[..j])
      invariant total == totalIn + j
      invariant dayFocus == FocusSum(tasks[..j])
      invariant dayTasksWithFocus == FocusCount(tasks[..j])
    {
      var task := tasks[j];
      assert tasks[..j + 1][..j] == tasks[..j];
      if task.status == Done {
        completed := completed + 1;
      }
      total := total + 1;
      if task.focusLevel > 0 {
        dayFocus := dayFocus + task.focusLevel;
        dayTasksWithFocus := dayTasksWithFocus + 1;
      }
      j := j + 1;
    }
    assert tasks[..j] == tasks;
  }

  /** The streak loop: walk the sorted dates while the date at index `k` is `today - k` and
      that day has a Done task; the two `break`s end it otherwise. */
  method WalkStreak(sortedDates: seq<int>, entries: seq<DailyEntry>, today: int) returns (streak: nat)
    ensures streak == WalkFrom(sortedDates, entries, today, 0)
  {
    streak := 0;
    var k := 0;
    while k < |sortedDates|
      invariant 0 <= k <= |sortedDates|
      invariant streak == k
      invariant WalkFrom(sortedDates, entries, today, k) == WalkFrom(sortedDates, entries, today, 0)
    {
      var entryDate := sortedDates[k];
      var expectedDate := today - k;
      if entryDate == expectedDate {
        var hasCompletedTask := CompletedOn(entries, entryDate);
        if hasCompletedTask {
          streak := streak + 1;
        } else {
          break;
        }
      } else {
        break;
      }
      k := k + 1;
    }
  }

  // ---------------------------------------------------------------------------------------
  // Two facts about exact division.

  lemma QuotientAtLeast(x: real, y: real, lo: real)
    requires y > 0.0 && lo * y <= x
    ensures lo <= x / y
  {
    assert (x / y) * y == x;
  }

  lemma QuotientAtMost(x: real, y: real, hi: real)
    requires y > 0.0 && x <= hi * y
    ensures x / y <= hi
  {
    assert (x / y) * y == x;
  }

  lemma PercentFacts(c: real, t: real)
    requires 0.0 <= c <= t && t > 0.0
    ensures 0.0 <= (c / t) * 100.0 <= 100.0
    ensures (c / t) * 100.0 == 100.0 <==> c == t
  {
    assert (c / t) * t == c;
  }

  // ---------------------------------------------------------------------------------------
  // Consistency.

  lemma {:induction false} CompletedAtMostTotal(entries: seq<DailyEntry>)
    ensures CompletedTasks(entries) <= TotalTasks(entries)
  {
    if entries != [] {
      CompletedAtMostTotal(entries[1..]);
    }
  }

  /** Every task of the day is Done. */
  predicate AllTasksDone(tasks: seq<Task>)
  {
    forall j :: 0 <= j < |tasks| ==> tasks[j].status == Done
  }

  /** The Done count reaches the number of tasks exactly when every task is Done. */
  lemma {:induction false} DoneCountAll(tasks: seq<Task>)
    ensures DoneCount(tasks) == |tasks| <==> AllTasksDone(tasks)
  {
    if tasks != [] {
      var init := tasks[..|tasks| - 1];
      DoneCountAll(init);
      assert forall j :: 0 <= j < |init| ==> init[j] == tasks[j];
    }
  }

  /** Every task of every entry is Done. */
  predicate AllEntriesDone(entries: seq<DailyEntry>)
  {
    forall i :: 0 <= i < |entries| ==> AllTasksDone(entries[i].tasks)
  }

  /** The completed count reaches the total exactly when every task of every entry is Done. */
  lemma {:induction false} CompletedAllDone(entries: seq<DailyEntry>)
    ensures CompletedTasks(entries) == TotalTasks(entries) <==> AllEntriesDone(entries)
  {
    if entries != [] {
      var rest := entries[1..];
      CompletedAllDone(rest);
      CompletedAtMostTotal(rest);
      DoneCountAll(entries[0].tasks);
      assert AllEntriesDone(entries) <==> AllTasksDone(entries[0].tasks) && AllEntriesDone(rest) by {
        assert forall i :: 0 <= i < |rest| ==> rest[i] == entries[i + 1];
        if AllTasksDone(entries[0].tasks) && AllEntriesDone(rest) {
          forall i | 0 <= i < |entries| ensures AllTasksDone(entries[i].tasks) {
            if i > 0 {
              assert entries[i] == rest[i - 1];
            }
          }
        }
      }
    }
  }

  /** Consistency is a percentage: between 0 and 100, 0 without tasks, and 100 exactly when
      there are tasks and all of them are Done. */
  lemma ConsistencyInRange(entries: seq<DailyEntry>)
    ensures 0.0 <= Consistency(entries) <= 100.0
    ensures TotalTasks(entries) == 0 ==> Consistency(entries) == 0.0
    ensures Consistency(entries) == 100.0 <==> TotalTasks(entries) > 0 && AllEntriesDone(entries)
  {
    CompletedAtMostTotal(entries);
    CompletedAllDone(entries);
    var c, t := CompletedTasks(entries) as real, TotalTasks(entries) as real;
    if TotalTasks(entries) > 0 {
      PercentFacts(c, t);
    }
  }

  // ---------------------------------------------------------------------------------------
  // Average focus.

  /** Every focus level stored in `entries` is at most `bound`. */
  predicate FocusAtMost(entries: seq<DailyEntry>, bound: int)
  {
    forall i :: 0 <= i < |entries| ==> DayFocusAtMost(entries[i].tasks, bound)
  }

  /** Every focus level of the day is at most `bound`. */
  predicate DayFocusAtMost(tasks: seq<Task>, bound: int)
  {
    forall j :: 0 <= j < |tasks| ==> tasks[j].focusLevel <= bound
  }

  /** Some task of the day has a positive focus level. */
  predicate HasPositiveFocus(tasks: seq<Task>)
  {
    exists j :: 0 <= j < |tasks| && tasks[j].focusLevel > 0
  }

  lemma {:induction false} FocusCountAtMostSum(tasks: seq<Task>)
    ensures FocusCount(tasks) <= FocusSum(tasks)
  {
    if tasks != [] {
      FocusCountAtMostSum(tasks[..|tasks| - 1]);
    }
  }

  lemma {:induction false} FocusSumAtMostBound(tasks: seq<Task>, bound: int)
    requires DayFocusAtMost(tasks, bound)
    ensures FocusSum(tasks) <= bound * FocusCount(tasks)
  {
    if tasks != [] {
      var init := tasks[..|tasks| - 1];
      assert forall j :: 0 <= j < |init| ==> init[j] == tasks[j];
      FocusSumAtMostBound(init, bound);
      assert bound * FocusCount(tasks) == bound * FocusCount(init) + (if tasks[|tasks| - 1].focusLevel > 0 then bound else 0);
    }
  }

  lemma {:induction false} FocusCountPositive(tasks: seq<Task>)
    ensures FocusCount(tasks) > 0 <==> HasPositiveFocus(tasks)
  {
    if tasks != [] {
      var init := tasks[..|tasks| - 1];
      FocusCountPositive(init);
      if FocusCount(init) > 0 {
        var j :| 0 <= j < |init| && init[j].focusLevel > 0;
        assert tasks[j] == init[j];
      }
      if HasPositiveFocus(tasks) {
        var j :| 0 <= j < |tasks| && tasks[j].focusLevel > 0;
        if j < |init| {
          assert init[j] == tasks[j];
        }
      }
    }
  }

  /** A day's average is 0 when no task has a positive focus level, and otherwise lies
      between 1 and the largest focus level. */
  lemma DayAverageRange(tasks: seq<Task>, bound: int)
    ensures DayAverage(tasks) == 0.0 || 1.0 <= DayAverage(tasks)
    ensures DayAverage(tasks) > 0.0 <==> HasPositiveFocus(tasks)
    ensures 0 <= bound && DayFocusAtMost(tasks, bound) ==> DayAverage(tasks) <= bound as real
  {
    FocusCountPositive(tasks);
    if FocusCount(tasks) > 0 {
      FocusCountAtMostSum(tasks);
      if DayFocusAtMost(tasks, bound) {
        FocusSumAtMostBound(tasks, bound);
      }
      MeanBounds(FocusSum(tasks), FocusCount(tasks), bound);
    }
  }

  /** The mean of `c` positive integer levels summing to `s` is at least 1, and at most any
      bound on the levels. */
  lemma MeanBounds(s: int, c: int, bound: int)
    requires 0 < c <= s
    ensures 1.0 <= s as real / c as real
    ensures s <= bound * c ==> s as real / c as real <= bound as real
  {
    QuotientAtLeast(s as real, c as real, 1.0);
    if s <= bound * c {
      assert (bound * c) as real == bound as real * c as real;
      QuotientAtMost(s as real, c as real, bound as real);
    }
  }

  lemma {:induction false} FocusDaysAtMostTotal(entries: seq<DailyEntry>)
    ensures FocusDays(entries) as real <= FocusTotal(entries)
  {
    if entries != [] {
      FocusDaysAtMostTotal(entries[1..]);
      DayAverageRange(entries[0].tasks, 0);
    }
  }

  lemma {:induction false} FocusTotalAtMostBound(entries: seq<DailyEntry>, bound: int)
    requires 0 <= bound && FocusAtMost(entries, bound)
    ensures FocusTotal(entries) <= bound as real * FocusDays(entries) as real
  {
    if entries != [] {
      var rest := entries[1..];
      FocusAtMostSplit(entries, bound);
      FocusTotalAtMostBound(rest, bound);
      var a := DayAverage(entries[0].tasks);
      DayAverageRange(entries[0].tasks, bound);
      var b, n := bound as real, FocusDays(rest) as real;
      if a > 0.0 {
        assert FocusTotal(entries) == a + FocusTotal(rest);
        assert FocusDays(entries) as real == n + 1.0;
        OneMoreDay(a, FocusTotal(rest), b, n, FocusTotal(entries), FocusDays(entries) as real);
      } else {
        assert FocusTotal(entries) == FocusTotal(rest);
        assert FocusDays(entries) as real == n;
      }
    } else {
      assert bound as real * 0.0 == 0.0;
    }
  }

  /** One more day whose average is at most `b` raises the bound `b * n` by `b`. */
  lemma OneMoreDay(a: real, t: real, b: real, n: real, total: real, days: real)
    requires a <= b && t <= b * n
    requires total == a + t && days == n + 1.0
    ensures total <= b * days
  {
    assert b * (n + 1.0) == b * n + b;
  }

  /** A bound on the focus levels of a list holds for its first day and for the rest. */
  lemma FocusAtMostSplit(entries: seq<DailyEntry>, bound: int)
    requires entries != [] && FocusAtMost(entries, bound)
    ensures DayFocusAtMost(entries[0].tasks, bound)
    ensures FocusAtMost(entries[1..], bound)
  {
    var rest := entries[1..];
    forall i | 0 <= i < |rest| ensures DayFocusAtMost(rest[i].tasks, bound) {
      assert rest[i] == entries[i + 1];
    }
  }

  lemma {:induction false} FocusDaysPositive(entries: seq<DailyEntry>)
    ensures FocusDays(entries) > 0 <==> exists i :: 0 <= i < |entries| && HasPositiveFocus(entries[i].tasks)
  {
    if entries != [] {
      var rest := entries[1..];
      FocusDaysPositive(rest);
      DayAverageRange(entries[0].tasks, 0);
      if FocusDays(rest) > 0 {
        var i :| 0 <= i < |rest| && HasPositiveFocus(rest[i].tasks);
        assert entries[i + 1] == rest[i];
      }
      if exists i :: 0 <= i < |entries| && HasPositiveFocus(entries[i].tasks) {
        var i :| 0 <= i < |entries| && HasPositiveFocus(entries[i].tasks);
        if i > 0 {
          assert rest[i - 1] == entries[i];
        }
      }
    }
  }

  /** The mean of `d` day averages, each at least 1, summing to `t` is at least 1, and at
      most any bound on the averages. */
  lemma MeanOfDays(t: real, d: int, bound: int)
    requires 0 < d && d as real <= t
    ensures 1.0 <= t / d as real
    ensures t <= bound as real * d as real ==> t / d as real <= bound as real
  {
    QuotientAtLeast(t, d as real, 1.0);
    if t <= bound as real * d as real {
      QuotientAtMost(t, d as real, bound as real);
    }
  }

  /** The average focus is 0 exactly when no task has a positive focus level; otherwise it
      lies between 1 and the largest focus level, so with the slider's levels 1 to 10 it is
      at most 10. */
  lemma AverageFocusRange(entries: seq<DailyEntry>, bound: int)
    ensures AverageFocus(entries) == 0.0 || 1.0 <= AverageFocus(entries)
    ensures AverageFocus(entries) == 0.0 <==> forall i :: 0 <= i < |entries| ==> !HasPositiveFocus(entries[i].tasks)
    ensures 0 <= bound && FocusAtMost(entries, bound) ==> AverageFocus(entries) <= bound as real
  {
    FocusDaysPositive(entries);
    if FocusDays(entries) > 0 {
      var t, d := FocusTotal(entries), FocusDays(entries);
      assert AverageFocus(entries) == t / d as real;
      FocusDaysAtMostTotal(entries);
      MeanOfDays(t, d, bound);
      assert 0 <= bound && FocusAtMost(entries, bound) ==> t / d as real <= bound as real by {
        if 0 <= bound && FocusAtMost(entries, bound) {
          FocusTotalAtMostBound(entries, bound);
        }
      }
    } else {
      assert AverageFocus(entries) == 0.0;
    }
  }

  // ---------------------------------------------------------------------------------------
  // The chart.

  /** The chart lists the entries in reverse, each with its day average. */
  lemma {:induction false} ChartIsReversed(entries: seq<DailyEntry>)
    ensures |Chart(entries)| == |entries|
    ensures forall i :: 0 <= i < |entries| ==>
      Chart(entries)[i] == ChartPoint(entries[|entries| - 1 - i].date, DayAverage(entries[|entries| - 1 - i].tasks))
  {
    if entries != [] {
      ChartIsReversed(entries[1..]);
    }
  }

  /** The chart has one point for each of the (at most 30) newest entries, oldest first;
      on entries sorted newest first its dates increase. */
  lemma ChartOfRecent(entries: seq<DailyEntry>)
    ensures |Chart(Recent(entries))| == if |entries| < ChartWindow then |entries| else ChartWindow
    ensures forall i :: 0 <= i < |Recent(entries)| ==>
      var e := entries[|Recent(entries)| - 1 - i];
      Chart(Recent(entries))[i] == ChartPoint(e.date, DayAverage(e.tasks))
    ensures SortedDesc(entries, EntryDate) ==>
      forall i, j :: 0 <= i < j < |Chart(Recent(entries))| ==> Chart(Recent(entries))[i].date <= Chart(Recent(entries))[j].date
  {
    ChartIsReversed(Recent(entries));
  }

  /** Entries beyond the 30 newest change neither consistency, average focus nor the chart. */
  lemma OnlyRecentCount(entries: seq<DailyEntry>, older: seq<DailyEntry>, today: int)
    requires |entries| >= ChartWindow
    ensures StatsOf(entries + older, today).consistency == StatsOf(entries, today).consistency
    ensures StatsOf(entries + older, today).avgFocus == StatsOf(entries, today).avgFocus
    ensures StatsOf(entries + older, today).chartData == StatsOf(entries, today).chartData
  {
    assert Recent(entries + older) == Recent(entries);
  }

  // ---------------------------------------------------------------------------------------
  // The streak.

  /** The walk from index `i` visits consecutive days that each have a Done task, and stops
      at the end of the dates or at the first index where the date is not the expected day
      or that day has no Done task. */
  lemma {:induction false} WalkFromFacts(sortedDates: seq<int>, entries: seq<DailyEntry>, today: int, i: nat)
    requires i <= |sortedDates|
    ensures i <= WalkFrom(sortedDates, entries, today, i) <= |sortedDates|
    ensures forall j :: i <= j < WalkFrom(sortedDates, entries, today, i) ==> sortedDates[j] == today - j
    ensures forall d :: today - WalkFrom(sortedDates, entries, today, i) < d <= today - i ==> CompletedOn(entries, d)
    ensures var r := WalkFrom(sortedDates, entries, today, i);
      r == |sortedDates| || sortedDates[r] != today - r || !CompletedOn(entries, sortedDates[r])
    decreases |sortedDates| - i
  {
    if i < |sortedDates| && sortedDates[i] == today - i && CompletedOn(entries, sortedDates[i]) {
      WalkFromFacts(sortedDates, entries, today, i + 1);
    }
  }

  /** The streak never exceeds the number of entries. */
  lemma StreakAtMostEntries(entries: seq<DailyEntry>, today: int)
    ensures Streak(entries, today) <= |entries|
  {
    WalkFromFacts(SortedDates(entries), entries, today, 0);
  }

  /** Each of the last `streak` days, today included, has an entry with a Done task. */
  lemma StreakDaysCompleted(entries: seq<DailyEntry>, today: int)
    ensures forall d :: today - Streak(entries, today) < d <= today ==> CompletedOn(entries, d)
  {
    WalkFromFacts(SortedDates(entries), entries, today, 0);
  }

  /** No entry for today, or no Done task in it, means no streak, whatever came before. */
  lemma StreakNeedsToday(entries: seq<DailyEntry>, today: int)
    ensures (forall i :: 0 <= i < |entries| ==> entries[i].date != today) ==> Streak(entries, today) == 0
    ensures !CompletedOn(entries, today) ==> Streak(entries, today) == 0
  {
    StreakDaysCompleted(entries, today);
  }

  /** The dates of the entries are pairwise different. */
  predicate DistinctDates(entries: seq<DailyEntry>)
  {
    forall i, j :: 0 <= i < j < |entries| ==> entries[i].date != entries[j].date
  }

  /** No entry is dated after `today`. */
  predicate NoneAfter(entries: seq<DailyEntry>, today: int)
  {
    forall i :: 0 <= i < |entries| ==> entries[i].date <= today
  }

  lemma {:induction false} DistinctCountsAtMostOne(s: seq<int>)
    requires forall i, j :: 0 <= i < j < |s| ==> s[i] != s[j]
    ensures forall v :: multiset(s)[v] <= 1
  {
    if s != [] {
      var init := s[..|s| - 1];
      DistinctCountsAtMostOne(init);
      assert s == init + [s[|s| - 1]];
      assert s[|s| - 1] !in init;
    }
  }

  lemma RepeatCountsTwice(s: seq<int>, i: nat, j: nat)
    requires i < j < |s| && s[i] == s[j]
    ensures multiset(s)[s[i]] >= 2
  {
    assert s == s[..j] + s[j..];
    assert s[i] in s[..j];
    assert s[j..][0] == s[j];
  }

  /** Sorting distinct dates keeps them distinct, so the sorted dates strictly decrease. */
  lemma SortedDatesDistinct(entries: seq<DailyEntry>)
    requires DistinctDates(entries)
    ensures forall i, j :: 0 <= i < j < |SortedDates(entries)| ==> SortedDates(entries)[i] != SortedDates(entries)[j]
  {
    var sd := SortedDates(entries);
    DistinctCountsAtMostOne(Dates(entries));
    forall i, j | 0 <= i < j < |sd| ensures sd[i] != sd[j] {
      if sd[i] == sd[j] {
        RepeatCountsTwice(sd, i, j);
      }
    }
  }

  /** A sorted date is the date of some entry. */
  lemma SortedDateOfEntry(entries: seq<DailyEntry>, p: nat) returns (q: nat)
    requires p < |SortedDates(entries)|
    ensures q < |entries| && entries[q].date == SortedDates(entries)[p]
  {
    var sd := SortedDates(entries);
    assert sd[p] in multiset(Dates(entries));
    q :| 0 <= q < |entries| && Dates(entries)[q] == sd[p];
  }

  /** The date of an entry is one of the sorted dates. */
  lemma EntryDateIsSorted(entries: seq<DailyEntry>, i: nat) returns (p: nat)
    requires i < |entries|
    ensures p < |SortedDates(entries)| && SortedDates(entries)[p] == entries[i].date
  {
    var sd := SortedDates(entries);
    assert Dates(entries)[i] == entries[i].date;
    assert entries[i].date in multiset(sd);
    p :| 0 <= p < |sd| && sd[p] == entries[i].date;
  }

  /** The sorted dates never increase. */
  lemma SortedDatesDescending(entries: seq<DailyEntry>)
    ensures forall i, j :: 0 <= i < j < |SortedDates(entries)| ==> SortedDates(entries)[i] >= SortedDates(entries)[j]
  {
    var key := (d: int) => d;
    assert SortedDesc(SortDesc(Dates(entries), key), key);
  }

  /** If the first `k` sorted dates are today, yesterday, ... and some entry is dated
      `today - k`, then (with distinct dates, none after today) the next sorted date is
      `today - k`. */
  lemma NextSortedDate(entries: seq<DailyEntry>, today: int, k: nat, i: nat)
    requires DistinctDates(entries) && NoneAfter(entries, today)
    requires k <= |SortedDates(entries)|
    requires forall j :: 0 <= j < k ==> SortedDates(entries)[j] == today - j
    requires i < |entries| && entries[i].date == today - k
    ensures k < |SortedDates(entries)| && SortedDates(entries)[k] == today - k
  {
    var sd := SortedDates(entries);
    var p := EntryDateIsSorted(entries, i);
    assert k <= p;
    SortedDatesDescending(entries);
    assert sd[k] >= today - k;
    var q := SortedDateOfEntry(entries, k);
    if k > 0 {
      SortedDatesDistinct(entries);
      assert sd[k] < sd[k - 1];
    }
  }

  /** With distinct dates none of which lies after today, the walk stops exactly at the
      first day going back from today that has no entry with a Done task. */
  lemma StreakStopsAtFirstGap(entries: seq<DailyEntry>, today: int)
    requires DistinctDates(entries) && NoneAfter(entries, today)
    ensures !CompletedOn(entries, today - Streak(entries, today))
  {
    var sd := SortedDates(entries);
    var k := Streak(entries, today);
    WalkFromFacts(sd, entries, today, 0);
    var i := FirstIndexOn(entries, today - k);
    if i < |entries| {
      NextSortedDate(entries, today, k, i);
    }
  }

  /** The streak is the length of the run of days ending today that each have an entry with
      a Done task, provided dates are distinct and none lies after today. */
  lemma StreakIsCurrentRun(entries: seq<DailyEntry>, today: int, k: nat)
    requires DistinctDates(entries) && NoneAfter(entries, today)
    ensures Streak(entries, today) == k <==>
      (forall d :: today - k < d <= today ==> CompletedOn(entries, d)) && !CompletedOn(entries, today - k)
  {
    StreakDaysCompleted(entries, today);
    StreakStopsAtFirstGap(entries, today);
  }

  /** Why the proviso matters: a single entry dated after today makes the streak 0, because
      the walk compares the newest date with today first. */
  lemma LaterEntryResetsStreak(entries: seq<DailyEntry>, today: int, i: nat)
    requires i < |entries| && entries[i].date > today
    ensures Streak(entries, today) == 0
  {
    var sd := SortedDates(entries);
    assert Dates(entries)[i] in multiset(sd);
    var p :| 0 <= p < |sd| && sd[p] == entries[i].date;
    assert sd[0] >= sd[p];
  }

  /** With distinct dates, "the first entry dated d has a Done task" is "the entry dated d
      has a Done task". */
  lemma CompletedOnDistinct(entries: seq<DailyEntry>, i: nat)
    requires DistinctDates(entries) && i < |entries|
    ensures CompletedOn(entries, entries[i].date) <==> HasDone(entries[i].tasks)
  {
    var f := FirstIndexOn(entries, entries[i].date);
    assert f == i;
  }

  // ---------------------------------------------------------------------------------------
  // Two examples.

  /** Two days, today (day 3) and yesterday, with one Done task each, of focus 8 and 4. */
  function TwoDays(): seq<DailyEntry>
  {
    [DailyEntry(3, [Task("a", "write", Done, 8)], "", ""), DailyEntry(2, [Task("b", "read", Done, 4)], "", "")]
  }

  /** Yesterday and today, in that order newest first, each with a Done task: a streak of 2. */
  lemma StreakOfTwo(e0: DailyEntry, e1: DailyEntry, today: int)
    requires e0.date == today && e1.date == today - 1
    requires HasDone(e0.tasks) && HasDone(e1.tasks)
    ensures Streak([e0, e1], today) == 2
  {
    var entries := [e0, e1];
    assert Dates(entries) == [today, today - 1];
    SortedDatesOfSortedEntries(entries);
    var sd := SortedDates(entries);
    assert FirstIndexOn(entries, today) == 0;
    assert FirstIndexOn(entries, today - 1) == 1;
    assert WalkFrom(sd, entries, today, 2) == 2;
    assert WalkFrom(sd, entries, today, 1) == 2;
  }

  lemma TwoDaysStreak()
    ensures Streak(TwoDays(), 3) == 2
  {
    var entries := TwoDays();
    assert entries[0].tasks[0].status == Done && entries[1].tasks[0].status == Done;
    StreakOfTwo(entries[0], entries[1], 3);
    assert [entries[0], entries[1]] == entries;
  }

  lemma TwoDaysFigures()
    ensures Consistency(TwoDays()) == 100.0
    ensures AverageFocus(TwoDays()) == 6.0
    ensures Chart(TwoDays()) == [ChartPoint(2, 4.0), ChartPoint(3, 8.0)]
  {
    var entries := TwoDays();
    var t1, t2 := entries[0].tasks, entries[1].tasks;
    assert t1[..0] == [] && t2[..0] == [];
    assert DoneCount(t1) == 1 && DoneCount(t2) == 1;
    assert DayAverage(t1) == 8.0 && DayAverage(t2) == 4.0;
    assert entries[1..][1..] == [];
    assert CompletedTasks(entries) == 2 && TotalTasks(entries) == 2;
    assert FocusTotal(entries) == 12.0 && FocusDays(entries) == 2;
  }

  /** The two-day example: streak 2, average focus (8 + 4) / 2 = 6, consistency 100. */
  lemma TwoDayExample()
    ensures StatsOf(TwoDays(), 3) == Stats(100.0, 6.0, 2, [ChartPoint(2, 4.0), ChartPoint(3, 8.0)])
  {
    TwoDaysStreak();
    TwoDaysFigures();
    assert Recent(TwoDays()) == TwoDays();
  }
}
