/** The per-task controls: the three status buttons and the focus slider. Each control
    builds a copy of the task with one field changed and hands it to the entry's update
    handler. */
module TaskItem {
  import opened Types
  import opened JsText

  /** The status buttons, left to right. */
  const StatusOptions: seq<TaskStatus> := [NotStarted, InProgress, Done]

  /** Every status has exactly one button, in the order NotStarted, InProgress, Done. */
  lemma StatusOptionsListEachStatusOnce()
    ensures |StatusOptions| == 3
    ensures forall s: TaskStatus :: s in StatusOptions
    ensures forall i, j :: 0 <= i < j < |StatusOptions| ==> StatusOptions[i] != StatusOptions[j]
    ensures StatusOptions[0] == NotStarted && StatusOptions[1] == InProgress && StatusOptions[2] == Done
  {
    forall s: TaskStatus ensures s in StatusOptions {
      match s
      case NotStarted => assert StatusOptions[0] == s;
      case InProgress => assert StatusOptions[1] == s;
      case Done => assert StatusOptions[2] == s;
    }
  }

  /** Clicking a status button: the task with its status replaced. */
  function ChangeStatus(task: Task, status: TaskStatus): (r: Task)
    ensures r.status == status
    ensures r.id == task.id && r.text == task.text && r.focusLevel == task.focusLevel
  {
    task.(status := status)
  }

  /** The last click wins, and clicking the current status gives back the same task. */
  lemma ChangeStatusLastWins(task: Task, s1: TaskStatus, s2: TaskStatus)
    ensures ChangeStatus(ChangeStatus(task, s1), s2) == ChangeStatus(task, s2)
    ensures ChangeStatus(task, task.status) == task
  {
  }

  /** The slider's `min` and `max` attributes. */
  const FocusMin := 1
  const FocusMax := 10

  /** The value string a range input with min 1, max 10 and the default step 1 reports
      when its thumb is moved to `requested`: the browser clamps the value into range. */
  function SliderValue(requested: int): (s: string)
    ensures IsDigits(s)
  {
    var v := if requested < FocusMin then FocusMin else if requested > FocusMax then FocusMax else requested;
    Decimal(v)
  }

  /** Moving the slider: the task with its focus level replaced by `parseInt(value, 10)`.
      The range input only ever reports digit strings, hence the precondition. */
  function ChangeFocus(task: Task, value: string): (r: Task)
    requires IsDigits(value)
    ensures r.focusLevel == ParseInt(value)
    ensures r.id == task.id && r.text == task.text && r.status == task.status
  {
    task.(focusLevel := ParseInt(value))
  }

  /** Whatever the user does with the slider, the stored focus level is an integer in
      [1, 10], and it is the requested position whenever that lies in range. */
  lemma SliderFocusInRange(task: Task, requested: int)
    ensures FocusMin <= ChangeFocus(task, SliderValue(requested)).focusLevel <= FocusMax
    ensures FocusMin <= requested <= FocusMax ==> ChangeFocus(task, SliderValue(requested)).focusLevel == requested
  {
    var v := if requested < FocusMin then FocusMin else if requested > FocusMax then FocusMax else requested;
    ParseIntDecimal(v);
  }
}
