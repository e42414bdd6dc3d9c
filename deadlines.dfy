/**
 * The deadline classifier (`checkUpcomingDeadlines`' filter) and `isDueSoon`,
 * over integer milliseconds.
 */
module Deadlines {
  import opened Wrappers
  import opened Seqs
  import opened Tasks

  const HOUR_MS: int := 3600000   // 60 * 60 * 1000
  const DAY_MS: int := 86400000   // 24 * 60 * 60 * 1000

  function Abs(x: int): nat {
    if x < 0 then -x else x
  }

  /**
   * The tier a task is given at time `now`, or None when it is left out of the scan.
   * Only pending tasks with a due date are classified; with `d = due - now`:
   * Critical when due within the hour or overdue by at most a day, Warning when due
   * within the day but not within the hour. Both tests are strict at `d == 0`, so a
   * task due exactly now is left out.
   */
  function Classify(t: Task, now: int): (r: Option<Level>)
    ensures r.Some? ==> !t.completed && t.due.Some?
    ensures r == Some(Critical) <==>
      !t.completed && t.due.Some? &&
      (0 < t.due.value - now <= HOUR_MS || -DAY_MS <= t.due.value - now < 0)
    ensures r == Some(Warning) <==>
      !t.completed && t.due.Some? && HOUR_MS < t.due.value - now <= DAY_MS
  {
    if t.due.None? || t.completed then None
    else
      var d := t.due.value - now;
      if d > 0 && d <= HOUR_MS then Some(Critical)
      else if d > 0 && d <= DAY_MS then Some(Warning)
      else if d < 0 && Abs(d) <= DAY_MS then Some(Critical)
      else None
  }

  /** The tasks the scan never reports: due exactly now, more than a day overdue, or more than a day ahead. */
  lemma ClassifyLeavesOut(t: Task, now: int)
    requires !t.completed && t.due.Some?
    requires var d := t.due.value - now; d == 0 || d < -DAY_MS || d > DAY_MS
    ensures Classify(t, now).None?
  {
  }

  /** The classification reads only the due date and the completed flag. */
  lemma ClassifyIgnoresOtherFields(t: Task, u: Task, now: int)
    requires t.due == u.due && t.completed == u.completed
    ensures Classify(t, now) == Classify(u, now)
  {
  }

  /** Whether the scan reports the task at time `now`. */
  function IsAlert(now: int): Task -> bool {
    t => Classify(t, now).Some?
  }

  /** The number of tasks the scan reports (the badge and the "due soon" counter). */
  function AlertCount(ts: seq<Task>, now: int): (r: nat)
    ensures r <= |ts|
    ensures r == 0 <==> forall i :: 0 <= i < |ts| ==> Classify(ts[i], now).None?
  {
    var alerts := Filter(ts, IsAlert(now));
    assert alerts != [] ==> IsAlert(now)(alerts[0]);
    |alerts|
  }

  /** The side effect of the scan on one task: the tier it was given is written into it. */
  function Stamp(t: Task, now: int): (r: Task)
    ensures r.(level := t.level) == t
    ensures Classify(t, now).Some? ==> r.level == Classify(t, now)
    ensures Classify(t, now).None? ==> r == t
  {
    match Classify(t, now)
    case Some(l) => t.(level := Some(l))
    case None => t
  }

  /** `isDueSoon`: due in the future, at most 24 hours from now. */
  function IsDueSoon(due: Option<int>, now: int): (r: bool)
    ensures r ==> due.Some? && due.value > now
  {
    due.Some? && due.value - now > 0 && due.value - now <= DAY_MS
  }

  /**
   * A pending task that is due soon is always reported by the scan; conversely a reported
   * task that is not yet due is due soon.
   */
  lemma DueSoonIsAlert(t: Task, now: int)
    requires !t.completed
    ensures IsDueSoon(t.due, now) ==> Classify(t, now).Some?
    ensures Classify(t, now).Some? && t.due.value > now ==> IsDueSoon(t.due, now)
  {
  }
}
