/**
 * The focus selection of `updateFocusMode`: the pending high-priority tasks, stably
 * sorted by due date with undated tasks last, of which the first three are shown.
 */
module Focus {
  import opened Wrappers
  import opened Seqs
  import opened Tasks

  const FOCUS_SIZE: nat := 3

  predicate IsFocusCandidate(t: Task) {
    t.priority == High && !t.completed
  }

  function FocusCandidate(): Task -> bool {
    (t: Task) => IsFocusCandidate(t)
  }

  /**
   * The comparator's order: `a` may stand before `b` (the comparator is not positive).
   * A missing due date sorts after every date; two missing dates compare equal.
   */
  predicate DueNoLater(a: Option<int>, b: Option<int>) {
    b.None? || (a.Some? && a.value <= b.value)
  }

  predicate SortedByDue(s: seq<Task>) {
    forall i, j :: 0 <= i < j < |s| ==> DueNoLater(s[i].due, s[j].due)
  }

  /** Insert `t` before the first element that is not strictly earlier than it. */
  function InsertByDue(t: Task, s: seq<Task>): (r: seq<Task>)
    ensures multiset(r) == multiset(s) + multiset{t}
    ensures |r| == |s| + 1
  {
    if s == [] then [t]
    else if DueNoLater(t.due, s[0].due) then [t] + s
    else
      assert s == [s[0]] + s[1..];
      [s[0]] + InsertByDue(t, s[1..])
  }

  /** `Array.prototype.sort` with the due-date comparator (a stable sort), as an insertion sort. */
  function SortByDue(s: seq<Task>): (r: seq<Task>)
    ensures multiset(r) == multiset(s)
    ensures |r| == |s|
  {
    if s == [] then []
    else
      assert s == [s[0]] + s[1..];
      InsertByDue(s[0], SortByDue(s[1..]))
  }

  lemma {:induction false} InsertKeepsSorted(t: Task, s: seq<Task>)
    requires SortedByDue(s)
    ensures SortedByDue(InsertByDue(t, s))
  {
    if s != [] && !DueNoLater(t.due, s[0].due) {
      InsertKeepsSorted(t, s[1..]);
      var r := InsertByDue(t, s[1..]);
      forall x | x in r ensures DueNoLater(s[0].due, x.due) {
        assert x in multiset(r);
        assert x == t || x in s[1..];
      }
    }
  }

  /** The sort orders by due date, undated tasks last. */
  lemma {:induction false} SortIsSorted(s: seq<Task>)
    ensures SortedByDue(SortByDue(s))
  {
    if s != [] {
      SortIsSorted(s[1..]);
      InsertKeepsSorted(s[0], SortByDue(s[1..]));
    }
  }

  function DueIs(k: Option<int>): Task -> bool {
    (t: Task) => t.due == k
  }

  lemma {:induction false} InsertStable(t: Task, s: seq<Task>, k: Option<int>)
    requires SortedByDue(s)
    ensures Filter(InsertByDue(t, s), DueIs(k)) == Filter([t], DueIs(k)) + Filter(s, DueIs(k))
  {
    if s == [] {
    } else if DueNoLater(t.due, s[0].due) {
      FilterAppend([t], s, DueIs(k));
    } else {
      InsertStable(t, s[1..], k);
      FilterAppend([s[0]], InsertByDue(t, s[1..]), DueIs(k));
      FilterAppend([s[0]], s[1..], DueIs(k));
      assert s == [s[0]] + s[1..];
    }
  }

  /**
   * The sort is stable: for every due date (and for "no due date"), the tasks with that
   * due date appear in the same relative order as before.
   */
  lemma {:induction false} SortIsStable(s: seq<Task>, k: Option<int>)
    ensures Filter(SortByDue(s), DueIs(k)) == Filter(s, DueIs(k))
  {
    if s != [] {
      SortIsStable(s[1..], k);
      SortIsSorted(s[1..]);
      InsertStable(s[0], SortByDue(s[1..]), k);
      FilterAppend([s[0]], s[1..], DueIs(k));
      assert s == [s[0]] + s[1..];
    }
  }

  function Min(a: nat, b: nat): nat {
    if a <= b then a else b
  }

  /** The candidates in focus order. */
  function Ranked(ts: seq<Task>): seq<Task> {
    SortByDue(Filter(ts, FocusCandidate()))
  }

  /** The tasks shown in the focus section. */
  function FocusTasks(ts: seq<Task>): (r: seq<Task>)
    ensures |r| <= FOCUS_SIZE
  {
    Ranked(ts)[..Min(FOCUS_SIZE, |Ranked(ts)|)]
  }

  /**
   * The focus section shows min(3, number of pending high-priority tasks) tasks: the first
   * ones of the stably sorted candidates, earliest due first, and none due later than a
   * candidate left out.
   */
  lemma FocusSelection(ts: seq<Task>)
    ensures |FocusTasks(ts)| == Min(FOCUS_SIZE, |Filter(ts, FocusCandidate())|)
    ensures FocusTasks(ts) == Ranked(ts)[..|FocusTasks(ts)|]
    ensures SortedByDue(FocusTasks(ts))
    ensures forall i, j :: 0 <= i < |FocusTasks(ts)| <= j < |Ranked(ts)| ==>
      DueNoLater(FocusTasks(ts)[i].due, Ranked(ts)[j].due)
  {
    var ranked := Ranked(ts);
    SortIsSorted(Filter(ts, FocusCandidate()));
    var r := FocusTasks(ts);
    forall i, j | 0 <= i < j < |r| ensures DueNoLater(r[i].due, r[j].due) {
      assert r[i] == ranked[i] && r[j] == ranked[j];
    }
  }

  /** Every task shown is a pending high-priority task of the store. */
  lemma FocusFromStore(ts: seq<Task>)
    ensures forall i :: 0 <= i < |FocusTasks(ts)| ==> FocusTasks(ts)[i] in ts && IsFocusCandidate(FocusTasks(ts)[i])
  {
    var cands := Filter(ts, FocusCandidate());
    var ranked := Ranked(ts);
    var r := FocusTasks(ts);
    forall i | 0 <= i < |r| ensures r[i] in ts && IsFocusCandidate(r[i]) {
      assert r[i] == ranked[i];
      assert ranked[i] in multiset(ranked);
      assert ranked[i] in multiset(cands);
      var k :| 0 <= k < |cands| && cands[k] == ranked[i];
    }
  }
}
