/** The handlers of the daily view. Each one builds a new entry from the current one and
    passes it to the `onUpdate` callback; none of them changes anything in place. */
module DailyCommandCenter {
  import opened Types
  import opened JsText

  /** At most this many tasks can be added to a day. */
  const MaxTasks := 3
  /** The focus level a new task starts with. */
  const DefaultFocus := 5

  /** What the add button does: the entry sent to `onUpdate`, if any, and the text left in
      the draft field afterwards (cleared after a successful add). */
  datatype AddOutcome = AddOutcome(sent: Option<DailyEntry>, draft: string)

  /** Adding a task from the draft text, with `id` the identifier produced for it. */
  function AddTask(entry: DailyEntry, draft: string, id: string): (r: AddOutcome)
    ensures r.sent.Some? <==> Trim(draft) != [] && |entry.tasks| < MaxTasks
    ensures r.sent.None? ==> r.draft == draft
    ensures r.sent.Some? ==>
      && r.draft == ""
      && r.sent.value.date == entry.date
      && r.sent.value.journal == entry.journal
      && r.sent.value.aiReflection == entry.aiReflection
      && |r.sent.value.tasks| == |entry.tasks| + 1 <= MaxTasks
      && r.sent.value.tasks[..|entry.tasks|] == entry.tasks
      && r.sent.value.tasks[|entry.tasks|] == Task(id, Trim(draft), NotStarted, DefaultFocus)
  {
    if Trim(draft) != [] && |entry.tasks| < MaxTasks then
      var task := Task(id, Trim(draft), NotStarted, DefaultFocus);
      AddOutcome(Some(entry.(tasks := entry.tasks + [task])), "")
    else
      AddOutcome(None, draft)
  }

  /** `tasks.map(t => t.id === updated.id ? updated : t)`. */
  function ReplaceById(tasks: seq<Task>, updated: Task): (r: seq<Task>)
    ensures |r| == |tasks|
    ensures forall i :: 0 <= i < |tasks| ==> r[i] == if tasks[i].id == updated.id then updated else tasks[i]
  {
    if tasks == [] then []
    else [if tasks[0].id == updated.id then updated else tasks[0]] + ReplaceById(tasks[1..], updated)
  }

  /** `s` can be obtained from `t` by deleting elements, without reordering. */
  ghost predicate IsSubsequence<T>(s: seq<T>, t: seq<T>)
    decreases |t|
  {
    s == [] || (t != [] && ((s[0] == t[0] && IsSubsequence(s[1..], t[1..])) || IsSubsequence(s, t[1..])))
  }

  /** `tasks.filter(t => t.id !== id)`: every task with another id, each as often as before,
      in the original order, and nothing else. */
  function RemoveById(tasks: seq<Task>, id: string): (r: seq<Task>)
    ensures |r| <= |tasks|
    ensures forall i :: 0 <= i < |r| ==> r[i].id != id
  {
    if tasks == [] then []
    else if tasks[0].id == id then RemoveById(tasks[1..], id)
    else [tasks[0]] + RemoveById(tasks[1..], id)
  }

  /** The filter keeps every task with another id exactly as often as it occurs. */
  lemma {:induction false} RemoveByIdCounts(tasks: seq<Task>, id: string)
    ensures forall t: Task :: multiset(RemoveById(tasks, id))[t] == if t.id == id then 0 else multiset(tasks)[t]
  {
    if tasks != [] {
      RemoveByIdCounts(tasks[1..], id);
      assert tasks == [tasks[0]] + tasks[1..];
    }
  }

  /** The filter keeps the survivors in their original order. */
  lemma {:induction false} RemoveByIdSubsequence(tasks: seq<Task>, id: string)
    ensures IsSubsequence(RemoveById(tasks, id), tasks)
  {
    if tasks != [] {
      var rest := RemoveById(tasks[1..], id);
      RemoveByIdSubsequence(tasks[1..], id);
      if tasks[0].id != id {
        assert ([tasks[0]] + rest)[1..] == rest;
      }
    }
  }

  /** A status or focus change coming from one of the task rows. */
  function UpdateTask(entry: DailyEntry, updated: Task): (r: DailyEntry)
    ensures r.date == entry.date && r.journal == entry.journal && r.aiReflection == entry.aiReflection
    ensures |r.tasks| == |entry.tasks|
    ensures forall i :: 0 <= i < |entry.tasks| ==>
      r.tasks[i] == if entry.tasks[i].id == updated.id then updated else entry.tasks[i]
  {
    entry.(tasks := ReplaceById(entry.tasks, updated))
  }

  /** The delete button of a task row. */
  function DeleteTask(entry: DailyEntry, id: string): (r: DailyEntry)
    ensures r.date == entry.date && r.journal == entry.journal && r.aiReflection == entry.aiReflection
    ensures |r.tasks| <= |entry.tasks|
    ensures forall i :: 0 <= i < |r.tasks| ==> r.tasks[i].id != id
    ensures forall t: Task :: t.id != id ==> multiset(r.tasks)[t] == multiset(entry.tasks)[t]
    ensures IsSubsequence(r.tasks, entry.tasks)
  {
    RemoveByIdCounts(entry.tasks, id);
    RemoveByIdSubsequence(entry.tasks, id);
    entry.(tasks := RemoveById(entry.tasks, id))
  }

  /** Typing in the journal box: only the journal text changes. */
  function ChangeJournal(entry: DailyEntry, text: string): (r: DailyEntry)
    ensures r.journal == text
    ensures r.date == entry.date && r.tasks == entry.tasks && r.aiReflection == entry.aiReflection
  {
    entry.(journal := text)
  }

  /** Removing an id that no task carries gives back the same list. */
  lemma {:induction false} RemoveAbsentId(tasks: seq<Task>, id: string)
    requires forall i :: 0 <= i < |tasks| ==> tasks[i].id != id
    ensures RemoveById(tasks, id) == tasks
  {
    if tasks != [] {
      RemoveAbsentId(tasks[1..], id);
    }
  }

  /** Removing distributes over appending. */
  lemma {:induction false} RemoveByIdAppend(tasks: seq<Task>, more: seq<Task>, id: string)
    ensures RemoveById(tasks + more, id) == RemoveById(tasks, id) + RemoveById(more, id)
  {
    if tasks != [] {
      var h, t := tasks[0], tasks[1..];
      assert (tasks + more)[0] == h;
      assert (tasks + more)[1..] == t + more;
      RemoveByIdAppend(t, more, id);
      if h.id == id {
        assert RemoveById(tasks + more, id) == RemoveById(t + more, id);
        assert RemoveById(tasks, id) == RemoveById(t, id);
      } else {
        assert RemoveById(tasks + more, id) == [h] + RemoveById(t + more, id);
        assert RemoveById(tasks, id) == [h] + RemoveById(t, id);
      }
    } else {
      assert tasks + more == more;
    }
  }

  /** Deleting a task right after adding it with a fresh id undoes the add. */
  lemma DeleteUndoesAdd(entry: DailyEntry, draft: string, id: string)
    requires forall i :: 0 <= i < |entry.tasks| ==> entry.tasks[i].id != id
    requires AddTask(entry, draft, id).sent.Some?
    ensures DeleteTask(AddTask(entry, draft, id).sent.value, id) == entry
  {
    var task := Task(id, Trim(draft), NotStarted, DefaultFocus);
    RemoveByIdAppend(entry.tasks, [task], id);
    RemoveAbsentId(entry.tasks, id);
    assert RemoveById([task], id) == [];
  }

  /** Deleting twice is deleting once. */
  lemma DeleteIdempotent(entry: DailyEntry, id: string)
    ensures DeleteTask(DeleteTask(entry, id), id) == DeleteTask(entry, id)
  {
    RemoveAbsentId(DeleteTask(entry, id).tasks, id);
  }

  /** An update for an id no task carries changes nothing; updating twice with the same
      task is updating once. */
  lemma UpdateLaws(entry: DailyEntry, updated: Task)
    ensures (forall i :: 0 <= i < |entry.tasks| ==> entry.tasks[i].id != updated.id) ==> UpdateTask(entry, updated) == entry
    ensures UpdateTask(UpdateTask(entry, updated), updated) == UpdateTask(entry, updated)
  {
    if forall i :: 0 <= i < |entry.tasks| ==> entry.tasks[i].id != updated.id {
      assert UpdateTask(entry, updated).tasks == entry.tasks;
    }
    assert UpdateTask(UpdateTask(entry, updated), updated).tasks == UpdateTask(entry, updated).tasks;
  }

  /** The user actions of the daily view that reach `onUpdate`. */
  datatype Action =
    | Add(draft: string, id: string)
    | Update(task: Task)
    | Delete(id: string)
    | EditJournal(text: string)

  /** The entry an action sends to `onUpdate`; `None` when the action sends nothing. */
  function Handle(entry: DailyEntry, action: Action): (sent: Option<DailyEntry>)
    ensures action.Add? ==> sent == AddTask(entry, action.draft, action.id).sent
    ensures !action.Add? ==> sent.Some?
    ensures sent.Some? ==> sent.value.date == entry.date && sent.value.aiReflection == entry.aiReflection
    ensures sent.Some? && |entry.tasks| <= MaxTasks ==> |sent.value.tasks| <= MaxTasks
  {
    match action
    case Add(draft, id) => AddTask(entry, draft, id).sent
    case Update(task) => Some(UpdateTask(entry, task))
    case Delete(id) => Some(DeleteTask(entry, id))
    case EditJournal(text) => Some(ChangeJournal(entry, text))
  }
}
