/**
 * The filter engine (`getFilteredTasks`): the tasks that pass the status filter, the
 * priority filter and the case-insensitive search, in the store's order.
 */
module FilterEngine {
  import opened Wrappers
  import opened Text
  import opened Seqs
  import opened Tasks

  datatype StatusFilter = AllStatuses | CompletedOnly | PendingOnly
  datatype PriorityFilter = AnyPriority | OnlyPriority(priority: Priority)

  predicate StatusMatch(f: StatusFilter, t: Task) {
    f == AllStatuses || (f == CompletedOnly && t.completed) || (f == PendingOnly && !t.completed)
  }

  predicate PriorityMatch(f: PriorityFilter, t: Task) {
    f == AnyPriority || (f.OnlyPriority? && t.priority == f.priority)
  }

  /** The empty term matches everything; otherwise the lower-cased text must contain the lower-cased term. */
  predicate SearchMatch(term: string, t: Task) {
    term == [] || Contains(Lower(t.text), Lower(term))
  }

  predicate Matches(status: StatusFilter, priority: PriorityFilter, term: string, t: Task) {
    StatusMatch(status, t) && PriorityMatch(priority, t) && SearchMatch(term, t)
  }

  function MatchesAll(status: StatusFilter, priority: PriorityFilter, term: string): Task -> bool {
    t => Matches(status, priority, term, t)
  }

  /**
   * `getFilteredTasks`: an order-preserving subsequence of the store holding every
   * occurrence of each task that passes all three filters and nothing else.
   */
  function GetFilteredTasks(ts: seq<Task>, status: StatusFilter, priority: PriorityFilter, term: string): (r: seq<Task>)
    ensures IsSubsequence(r, ts)
    ensures forall i :: 0 <= i < |r| ==> r[i] in ts && Matches(status, priority, term, r[i])
    ensures forall i :: 0 <= i < |ts| && Matches(status, priority, term, ts[i]) ==> ts[i] in r
    ensures forall x :: multiset(r)[x] == if Matches(status, priority, term, x) then multiset(ts)[x] else 0
  {
    var p := MatchesAll(status, priority, term);
    var r := Filter(ts, p);
    FilterIsSubsequence(ts, p);
    assert forall x :: multiset(r)[x] == if p(x) then multiset(ts)[x] else 0 by {
      forall x { FilterMultiset(ts, p, x); }
    }
    r
  }

  /** With every filter at its neutral setting the whole store is shown. */
  lemma NeutralFiltersShowAll(ts: seq<Task>)
    ensures GetFilteredTasks(ts, AllStatuses, AnyPriority, []) == ts
  {
    FilterKeepsAll(ts, MatchesAll(AllStatuses, AnyPriority, []));
  }

  /** The search does not depend on the case of the term. */
  lemma SearchIgnoresCase(term: string, t: Task)
    ensures SearchMatch(term, t) <==> SearchMatch(Lower(term), t)
  {
    LowerIdempotent(term);
  }

  /** The test for the empty term is a shortcut: the empty term occurs in every text. */
  lemma EmptyTermIsContained(term: string, t: Task)
    ensures SearchMatch(term, t) <==> Contains(Lower(t.text), Lower(term))
  {
    if term == [] {
      ContainsEmpty(Lower(t.text));
    }
  }

  /** Pending, high priority, searching "call": of two "Call mom" tasks and a completed "Call dad", only the high one is shown. */
  lemma CallMomExample(a: Task, b: Task, c: Task)
    requires a.text == "Call mom" && a.priority == High && !a.completed
    requires b.text == "Call mom" && b.priority == Low && !b.completed
    requires c.text == "Call dad" && c.priority == High && c.completed
    ensures GetFilteredTasks([a, b, c], PendingOnly, OnlyPriority(High), "call") == [a]
  {
    assert StartsWith(Lower(a.text), Lower("call"));
  }
}
