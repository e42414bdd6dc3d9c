/**
 * One step of the reminder dispatch at the end of `updateNotificationsPanel`: a task
 * reported by the deadline scan is handed to the notification sink unless it was
 * notified less than 30 minutes ago, and `lastNotified` records the delivery.
 * The sink (the browser's notification service) is a parameter: it answers whether
 * the reminder was delivered.
 */
module Dispatch {
  import opened Wrappers
  import opened Tasks
  import opened Deadlines

  const COOLDOWN_MS: int := 1800000   // 30 * 60 * 1000

  /** The notification sink: given the task and its tier, reports whether a reminder was shown. */
  type Sink = (Task, Level) -> bool

  /** The task was notified less than 30 minutes before `now` (or, with a clock set back, after it). */
  function Suppressed(t: Task, now: int): (r: bool)
    ensures t.lastNotified.None? ==> !r
    ensures t.lastNotified.Some? && now >= t.lastNotified.value + COOLDOWN_MS ==> !r
  {
    t.lastNotified.Some? && now - t.lastNotified.value < COOLDOWN_MS
  }

  /** The tier handed to the sink: the one the scan wrote, Warning when there is none. */
  function LevelOf(t: Task): Level {
    t.level.GetOr(Warning)
  }

  /** Whether the dispatch step delivers a reminder for this (already stamped) task. */
  predicate Delivers(t: Task, now: int, sink: Sink) {
    !Suppressed(t, now) && sink(t, LevelOf(t))
  }

  /** The dispatch step on one reported task: `lastNotified` becomes `now` exactly when a reminder is delivered. */
  function Notified(t: Task, now: int, sink: Sink): (r: Task)
    ensures r.(lastNotified := t.lastNotified) == t
    ensures Suppressed(t, now) ==> r == t
    ensures r.lastNotified == if Delivers(t, now, sink) then Some(now) else t.lastNotified
  {
    if Suppressed(t, now) then t
    else if sink(t, LevelOf(t)) then t.(lastNotified := Some(now))
    else t
  }

  /** Whether a whole notification tick delivers a reminder for `t`. */
  predicate SentOnTick(t: Task, now: int, sink: Sink) {
    Classify(t, now).Some? && Delivers(Stamp(t, now), now, sink)
  }

  /** What one notification tick does to one task: the scan stamps it, then the dispatch step runs on it. */
  function Tick(t: Task, now: int, sink: Sink): (r: Task)
    ensures Classify(t, now).None? ==> r == t
    ensures Classify(t, now).Some? ==> r.level == Classify(t, now)
  {
    if Classify(t, now).Some? then Notified(Stamp(t, now), now, sink) else t
  }

  /** A tick changes no field of a task but its tier and its last-notified time. */
  lemma TickKeepsTaskData(t: Task, now: int, sink: Sink)
    ensures Tick(t, now, sink).(level := t.level, lastNotified := t.lastNotified) == t
  {
  }

  /**
   * A tick moves `lastNotified` to `now` exactly when it delivers a reminder, and leaves it
   * alone otherwise; in particular a suppressed task keeps it.
   */
  lemma TickLastNotified(t: Task, now: int, sink: Sink)
    ensures SentOnTick(t, now, sink) ==> Tick(t, now, sink).lastNotified == Some(now)
    ensures !SentOnTick(t, now, sink) ==> Tick(t, now, sink).lastNotified == t.lastNotified
    ensures Suppressed(t, now) ==> !SentOnTick(t, now, sink)
  {
  }

  /** A delivery is at least 30 minutes after the previous one, so `lastNotified` only grows. */
  lemma TickLastNotifiedGrows(t: Task, now: int, sink: Sink)
    requires t.lastNotified.Some?
    ensures Tick(t, now, sink).lastNotified.Some?
    ensures Tick(t, now, sink).lastNotified.value >= t.lastNotified.value
    ensures SentOnTick(t, now, sink) ==> Tick(t, now, sink).lastNotified.value >= t.lastNotified.value + COOLDOWN_MS
  {
  }

  /**
   * The suppression window: once delivered at `at`, a reminder is suppressed at every time
   * before `at` plus 30 minutes, and not suppressed from then on.
   */
  lemma CooldownWindow(t: Task, at: int, later: int)
    requires t.lastNotified == Some(at)
    ensures Suppressed(t, later) <==> later < at + COOLDOWN_MS
  {
  }
}
