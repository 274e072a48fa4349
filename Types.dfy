/** The records the journal keeps: a task, a day's entry, and the three task statuses.
    Dates are day numbers (days since some fixed epoch) rather than "YYYY-MM-DD" strings.
    Comparing day numbers is what the views' date comparisons amount to only when the
    local time zone is UTC: the scoreboard's streak mixes UTC and local midnights, and at
    any other offset its `find` never matches, so the streak shown there is always 0. */
module Types {

  datatype Option<T> = None | Some(value: T)

  /** The three values of the TaskStatus enumeration. */
  datatype TaskStatus = NotStarted | InProgress | Done

  /** `id` is an opaque string; `focusLevel` is whatever number was last stored
      (the slider only ever produces 1..10, but nothing in the record forces it). */
  datatype Task = Task(id: string, text: string, status: TaskStatus, focusLevel: int)

  /** One calendar day's record. */
  datatype DailyEntry = DailyEntry(date: int, tasks: seq<Task>, journal: string, aiReflection: string)

  /** The sort key of the history views. */
  function EntryDate(e: DailyEntry): int { e.date }
}
