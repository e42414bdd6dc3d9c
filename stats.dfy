/** The counters of `updateStats`. */
module Stats {
  import opened Seqs
  import opened Tasks
  import opened Deadlines

  datatype Counters = Counters(total: nat, completed: nat, pending: nat, dueSoon: nat)

  /**
   * `updateStats`: the number of tasks, of completed tasks, of pending tasks (computed as
   * the difference, which is the number of tasks not completed) and of tasks the deadline
   * scan reports, which are all pending.
   */
  function ComputeStats(ts: seq<Task>, now: int): (r: Counters)
    ensures r.total == |ts|
    ensures r.completed + r.pending == r.total
    ensures r.pending == Count(ts, IsPending())
    ensures r.dueSoon == AlertCount(ts, now)
    ensures r.dueSoon <= r.pending
  {
    var completed := Count(ts, IsCompleted());
    FilterPartition(ts, IsCompleted());
    FilterAgree(ts, Not(IsCompleted()), IsPending());
    FilterMonotone(ts, IsPending(), IsAlert(now));
    Counters(|ts|, completed, |ts| - completed, AlertCount(ts, now))
  }
}
