/** The task record and its priority, as the store keeps them. */
module Tasks {
  import opened Wrappers
  import opened Text

  /** Ids are the opaque strings the application generates; the model receives them ready-made. */
  type TaskId = string

  datatype Priority = Low | Medium | High

  /** The two urgency tiers the deadline scan writes into a task (`notificationLevel`). */
  datatype Level = Critical | Warning

  /**
   * One task. Times are milliseconds since the epoch: `due` is the due date as a point
   * in time, `createdAt` the creation time, `lastNotified` the time of the last
   * delivered reminder. `level` is the tier the most recent deadline scan wrote.
   */
  datatype Task = Task(
    id: TaskId,
    text: string,
    priority: Priority,
    due: Option<int>,
    completed: bool,
    createdAt: int,
    lastNotified: Option<int>,
    level: Option<Level>)

  function IsCompleted(): Task -> bool {
    (t: Task) => t.completed
  }

  function IsPending(): Task -> bool {
    (t: Task) => !t.completed
  }

  /** The priority as the forms and the stored records spell it. */
  function PriorityName(p: Priority): string {
    match p
    case Low => "low"
    case Medium => "medium"
    case High => "high"
  }

  /** `getPriorityText`: the priority's name with its first letter capitalised. */
  function PriorityText(p: Priority): (r: string)
    ensures |r| == |PriorityName(p)| && r != []
    ensures IsUpper(r[0]) && LowerChar(r[0]) == PriorityName(p)[0]
    ensures r[1..] == PriorityName(p)[1..]
  {
    match p
    case High => "High"
    case Medium => "Medium"
    case Low => "Low"
  }

  /** Lower-casing the displayed text gives back the stored name. */
  lemma PriorityTextLower(p: Priority)
    ensures Lower(PriorityText(p)) == PriorityName(p)
  {
    var r := PriorityText(p);
    assert Lower(r)[0] == PriorityName(p)[0];
    assert forall i :: 1 <= i < |r| ==> Lower(r)[i] == r[i];
  }

  /** Different priorities are displayed differently. */
  lemma PriorityTextInjective(p: Priority, q: Priority)
    ensures PriorityText(p) == PriorityText(q) ==> p == q
  {
    if PriorityText(p) == PriorityText(q) {
      PriorityTextLower(p);
      PriorityTextLower(q);
    }
  }

  /**
   * `createTask`: a fresh pending task with trimmed text, created at `now`,
   * never notified.
   */
  function NewTask(id: TaskId, text: string, priority: Priority, due: Option<int>, now: int): (t: Task)
    ensures t.id == id && t.priority == priority && t.due == due && t.createdAt == now
    ensures t.text == Trim(text) && IsTrimmed(t.text) && |t.text| <= |text|
    ensures !t.completed && t.lastNotified.None? && t.level.None?
  {
    Task(id, Trim(text), priority, due, false, now, None, None)
  }
}
