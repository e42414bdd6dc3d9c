/**
 * The task store: the ordered list of tasks (most recently created first) and the
 * operations that change it in place, with the deadline scan and the reminder dispatch
 * that write back into it. Persistence is recorded as a ghost snapshot, `saved`, that
 * each `saveTasks` call sets to the current list.
 */
module TaskStore {
  import opened Wrappers
  import opened Text
  import opened Seqs
  import opened Tasks
  import opened Deadlines
  import opened Dispatch

  predicate HasId(ts: seq<Task>, id: TaskId) {
    exists i :: 0 <= i < |ts| && ts[i].id == id
  }

  ghost predicate UniqueIds(ts: seq<Task>) {
    forall i, j :: 0 <= i < j < |ts| ==> ts[i].id != ts[j].id
  }

  ghost predicate AllTrimmed(ts: seq<Task>) {
    forall i :: 0 <= i < |ts| ==> IsTrimmed(ts[i].text)
  }

  /** What the store keeps true: ids are unique, and every text is trimmed. */
  ghost predicate StoreInvariant(ts: seq<Task>) {
    UniqueIds(ts) && AllTrimmed(ts)
  }

  /** Two lists that agree, position by position, on ids and texts. */
  ghost predicate SameIdsAndTexts(a: seq<Task>, b: seq<Task>) {
    |a| == |b| && forall j :: 0 <= j < |a| ==> a[j].id == b[j].id && a[j].text == b[j].text
  }

  lemma InvariantByIdsAndTexts(a: seq<Task>, b: seq<Task>)
    requires StoreInvariant(a) && SameIdsAndTexts(a, b)
    ensures StoreInvariant(b)
  {
  }

  /** `findIndex` on the id: the first position holding it, or -1. */
  function IndexOf(ts: seq<Task>, id: TaskId): (r: int)
    ensures -1 <= r < |ts|
    ensures r >= 0 ==> ts[r].id == id && forall j :: 0 <= j < r ==> ts[j].id != id
    ensures r < 0 <==> !HasId(ts, id)
  {
    if ts == [] then -1
    else if ts[0].id == id then 0
    else
      var k := IndexOf(ts[1..], id);
      assert HasId(ts, id) ==> HasId(ts[1..], id) by {
        if HasId(ts, id) {
          var i :| 0 <= i < |ts| && ts[i].id == id;
          assert ts[1..][i - 1].id == id;
        }
      }
      if k < 0 then -1 else k + 1
  }

  /** The position found depends only on the ids. */
  lemma {:induction false} IndexOfByIds(a: seq<Task>, b: seq<Task>, id: TaskId)
    requires |a| == |b| && forall j :: 0 <= j < |a| ==> a[j].id == b[j].id
    ensures IndexOf(a, id) == IndexOf(b, id)
  {
    if a != [] && a[0].id != id {
      IndexOfByIds(a[1..], b[1..], id);
    }
  }

  /** The duplicate test of `addTask`: some pending task's lower-cased text equals `key`. */
  function HasPendingText(ts: seq<Task>, key: string): (r: bool)
    ensures r ==> Lower(key) == key
    ensures r ==> exists i :: 0 <= i < |ts| && !ts[i].completed
  {
    var r := exists i :: 0 <= i < |ts| && !ts[i].completed && Lower(ts[i].text) == key;
    assert r ==> Lower(key) == key by {
      if r {
        var i :| 0 <= i < |ts| && !ts[i].completed && Lower(ts[i].text) == key;
        LowerIdempotent(ts[i].text);
      }
    }
    r
  }

  /** The result of `addTask`; both failures return false in the application and show a message. */
  datatype AddOutcome = Added | EmptyText | DuplicateText

  /** Find the first task with `id` and rewrite it with `f`; no change when there is none. */
  function WriteAt(ts: seq<Task>, id: TaskId, f: Task -> Task): (r: seq<Task>)
    ensures |r| == |ts|
  {
    var i := IndexOf(ts, id);
    if i < 0 then ts else ts[i := f(ts[i])]
  }

  function Flip(t: Task): Task {
    t.(completed := !t.completed)
  }

  /** The list after `toggleTaskCompletion(id)`. */
  function Toggled(ts: seq<Task>, id: TaskId): (r: seq<Task>)
    ensures |r| == |ts| && forall j :: 0 <= j < |ts| ==> r[j].id == ts[j].id && r[j].text == ts[j].text
  {
    WriteAt(ts, id, Flip)
  }

  /** The rewrite of `updateTask`: new text (trimmed), priority and due date, notification timer reset. */
  function Edit(text: string, priority: Priority, due: Option<int>): Task -> Task {
    (t: Task) => t.(text := Trim(text), priority := priority, due := due, lastNotified := None)
  }

  /** The list after `updateTask(id, text, priority, due)`. */
  function Updated(ts: seq<Task>, id: TaskId, text: string, priority: Priority, due: Option<int>): (r: seq<Task>)
    ensures |r| == |ts| && forall j :: 0 <= j < |ts| ==> r[j].id == ts[j].id && r[j].completed == ts[j].completed
  {
    WriteAt(ts, id, Edit(text, priority, due))
  }

  function IdIsNot(id: TaskId): Task -> bool {
    (t: Task) => t.id != id
  }

  /** The list after `deleteTask(id)` has been confirmed. */
  function Deleted(ts: seq<Task>, id: TaskId): (r: seq<Task>)
    ensures |r| <= |ts| && forall i :: 0 <= i < |r| ==> r[i].id != id
  {
    Filter(ts, IdIsNot(id))
  }

  /** The list after `clearCompletedTasks` has been confirmed. */
  function Cleared(ts: seq<Task>): (r: seq<Task>)
    ensures |r| <= |ts| && forall i :: 0 <= i < |r| ==> !r[i].completed
  {
    Filter(ts, IsPending())
  }

  /** The list part-way through the deadline scan: the first `i` tasks stamped, the rest untouched. */
  ghost function StampedUpTo(ts: seq<Task>, i: nat, now: int): (r: seq<Task>)
    ensures |r| == |ts|
    ensures SameIdsAndTexts(ts, r)
  {
    seq(|ts|, j requires 0 <= j < |ts| => if j < i then Stamp(ts[j], now) else ts[j])
  }

  /** The positions the deadline scan reports, in list order. */
  function AlertPositions(ts: seq<Task>, now: int): seq<nat>
    decreases |ts|
  {
    if ts == [] then []
    else
      var n := |ts| - 1;
      AlertPositions(ts[..n], now) + (if Classify(ts[n], now).Some? then [n] else [])
  }

  /**
   * The scan reports every classified task and nothing else, once each and in order,
   * so there are as many positions as alerts.
   */
  lemma AlertPositionsSpec(ts: seq<Task>, now: int)
    ensures var r := AlertPositions(ts, now);
      && (forall a, b :: 0 <= a < b < |r| ==> r[a] < r[b])
      && (forall k :: 0 <= k < |r| ==> r[k] < |ts|)
      && (forall j :: 0 <= j < |ts| ==> (j in r <==> Classify(ts[j], now).Some?))
      && |r| == AlertCount(ts, now)
  {
    AlertPositionsOrdered(ts, now);
    AlertPositionsExact(ts, now);
    AlertPositionsCount(ts, now);
  }

  lemma {:induction false} AlertPositionsOrdered(ts: seq<Task>, now: int)
    ensures forall a, b :: 0 <= a < b < |AlertPositions(ts, now)| ==> AlertPositions(ts, now)[a] < AlertPositions(ts, now)[b]
    ensures forall k :: 0 <= k < |AlertPositions(ts, now)| ==> AlertPositions(ts, now)[k] < |ts|
  {
    if ts != [] {
      var n := |ts| - 1;
      AlertPositionsOrdered(ts[..n], now);
      var q := AlertPositions(ts[..n], now);
      assert AlertPositions(ts, now) == q + (if Classify(ts[n], now).Some? then [n] else []);
    }
  }

  lemma {:induction false} AlertPositionsExact(ts: seq<Task>, now: int)
    ensures forall j :: 0 <= j < |ts| ==> (j in AlertPositions(ts, now) <==> Classify(ts[j], now).Some?)
  {
    if ts != [] {
      var n := |ts| - 1;
      AlertPositionsOrdered(ts[..n], now);
      AlertPositionsExact(ts[..n], now);
      var q := AlertPositions(ts[..n], now);
      var r := AlertPositions(ts, now);
      assert r == q + (if Classify(ts[n], now).Some? then [n] else []);
      assert n !in q;
      forall j | 0 <= j < |ts| ensures j in r <==> Classify(ts[j], now).Some? {
        if j < n {
          assert ts[..n][j] == ts[j];
        }
      }
    }
  }

  lemma {:induction false} AlertPositionsCount(ts: seq<Task>, now: int)
    ensures |AlertPositions(ts, now)| == AlertCount(ts, now)
  {
    if ts != [] {
      var n := |ts| - 1;
      AlertPositionsCount(ts[..n], now);
      AlertCountStep(ts, n, now);
      assert ts[..n + 1] == ts;
    }
  }

  /** The list after the dispatch loop has run over the positions `due`. */
  ghost function Dispatched(ts: seq<Task>, due: seq<nat>, now: int, sink: Sink): (r: seq<Task>)
    ensures |r| == |ts|
    ensures SameIdsAndTexts(ts, r)
  {
    seq(|ts|, j requires 0 <= j < |ts| => if j in due then Notified(ts[j], now, sink) else ts[j])
  }

  /** Whether the dispatch loop over `due` delivers at least one reminder. */
  ghost predicate AnyDelivers(ts: seq<Task>, due: seq<nat>, now: int, sink: Sink) {
    exists m :: 0 <= m < |due| && due[m] < |ts| && Delivers(ts[due[m]], now, sink)
  }

  /** One more position dispatched: the list changes only there. */
  lemma DispatchedStep(ts: seq<Task>, due: seq<nat>, k: nat, now: int, sink: Sink)
    requires k < |due| && due[k] < |ts|
    requires forall a, b :: 0 <= a < b < |due| ==> due[a] < due[b]
    ensures Dispatched(ts, due[..k], now, sink)[due[k]] == ts[due[k]]
    ensures Dispatched(ts, due[..k + 1], now, sink)
      == Dispatched(ts, due[..k], now, sink)[due[k] := Notified(ts[due[k]], now, sink)]
  {
    var i := due[k];
    assert due[..k + 1] == due[..k] + [i];
    assert i !in due[..k];
    var a := Dispatched(ts, due[..k], now, sink);
    var b := Dispatched(ts, due[..k + 1], now, sink);
    forall j | 0 <= j < |ts| ensures b[j] == a[i := Notified(ts[i], now, sink)][j] {
    }
  }

  /** One more position dispatched: a delivery so far, or one at that position. */
  lemma AnyDeliversStep(ts: seq<Task>, due: seq<nat>, k: nat, now: int, sink: Sink)
    requires k < |due| && due[k] < |ts|
    ensures AnyDelivers(ts, due[..k + 1], now, sink)
      == (AnyDelivers(ts, due[..k], now, sink) || Delivers(ts[due[k]], now, sink))
  {
    var d := due[..k + 1];
    assert d[k] == due[k];
    if AnyDelivers(ts, d, now, sink) && !Delivers(ts[due[k]], now, sink) {
      var m :| 0 <= m < k + 1 && d[m] < |ts| && Delivers(ts[d[m]], now, sink);
      assert m < k && due[..k][m] == d[m];
    }
    if AnyDelivers(ts, due[..k], now, sink) {
      var m :| 0 <= m < k && due[..k][m] < |ts| && Delivers(ts[due[..k][m]], now, sink);
      assert d[m] == due[..k][m];
    }
  }

  /** With no delivery, dispatching changes nothing. */
  lemma DispatchedNone(ts: seq<Task>, due: seq<nat>, now: int, sink: Sink)
    requires !AnyDelivers(ts, due, now, sink)
    ensures Dispatched(ts, due, now, sink) == ts
  {
    var r := Dispatched(ts, due, now, sink);
    forall j | 0 <= j < |ts| ensures r[j] == ts[j] {
      if j in due {
        var m :| 0 <= m < |due| && due[m] == j;
        assert !Delivers(ts[j], now, sink);
      }
    }
  }

  // ---------------------------------------------------------------------------
  // Adding

  /** Once a text has been added, adding it again, in any case and with any surrounding blanks, is a duplicate. */
  lemma AddedTextIsDuplicate(ts: seq<Task>, id: TaskId, text: string, again: string, priority: Priority, due: Option<int>, now: int)
    requires Trim(Lower(again)) == Trim(Lower(text))
    ensures HasPendingText([NewTask(id, text, priority, due, now)] + ts, Trim(Lower(again)))
  {
    LowerTrimCommute(text);
    assert ([NewTask(id, text, priority, due, now)] + ts)[0].text == Trim(text);
  }

  /** A pending task anywhere in the list whose lower-cased text is the key blocks an add. */
  lemma PendingTwinIsDuplicate(ts: seq<Task>, j: nat, text: string)
    requires j < |ts| && !ts[j].completed && Lower(ts[j].text) == Trim(Lower(text))
    ensures HasPendingText(ts, Trim(Lower(text)))
  {
  }

  /** A completed task never blocks an add: only pending tasks are compared. */
  lemma CompletedDoesNotBlock(ts: seq<Task>, key: string)
    requires forall i :: 0 <= i < |ts| && Lower(ts[i].text) == key ==> ts[i].completed
    ensures !HasPendingText(ts, key)
  {
  }

  /** Adding a task with a fresh id keeps the store's invariant. */
  lemma AddKeepsInvariant(ts: seq<Task>, id: TaskId, text: string, priority: Priority, due: Option<int>, now: int)
    requires StoreInvariant(ts) && !HasId(ts, id)
    ensures StoreInvariant([NewTask(id, text, priority, due, now)] + ts)
  {
    var t := NewTask(id, text, priority, due, now);
    var r := [t] + ts;
    assert forall j :: 0 < j < |r| ==> r[j] == ts[j - 1];
    forall i, j | 0 <= i < j < |r| ensures r[i].id != r[j].id {
      if i == 0 {
        assert r[j].id == ts[j - 1].id != id;
      }
    }
    assert IsTrimmed(r[0].text);
  }

  // ---------------------------------------------------------------------------
  // Toggling and updating

  lemma {:induction false} WriteAtKeepsIndex(ts: seq<Task>, id: TaskId, f: Task -> Task)
    requires forall t :: f(t).id == t.id
    ensures IndexOf(WriteAt(ts, id, f), id) == IndexOf(ts, id)
  {
    IndexOfByIds(ts, WriteAt(ts, id, f), id);
  }

  /** Toggling the same id twice gives back the original list. */
  lemma ToggleTwice(ts: seq<Task>, id: TaskId)
    ensures Toggled(Toggled(ts, id), id) == ts
  {
    WriteAtKeepsIndex(ts, id, Flip);
    var i := IndexOf(ts, id);
    if i >= 0 {
      assert Flip(Flip(ts[i])) == ts[i];
      assert Toggled(ts, id)[i := Flip(Flip(ts[i]))] == ts;
    }
  }

  /**
   * Toggling flips the `completed` flag of the first task with that id and changes nothing
   * else; for an unknown id nothing changes.
   */
  lemma ToggleChangesOnlyCompleted(ts: seq<Task>, id: TaskId)
    ensures var r := Toggled(ts, id);
      && |r| == |ts|
      && (forall j :: 0 <= j < |ts| ==> r[j].(completed := ts[j].completed) == ts[j])
      && (forall j :: 0 <= j < |ts| ==> (r[j].completed != ts[j].completed <==> j == IndexOf(ts, id)))
      && (!HasId(ts, id) ==> r == ts)
  {
  }

  /**
   * Updating a present id rewrites that task's text (trimmed), priority and due date and
   * clears its last-notified time, keeping its id, completed flag and creation time and
   * every other task; updating an unknown id changes nothing.
   */
  lemma UpdateChangesOnlyEditedFields(ts: seq<Task>, id: TaskId, text: string, priority: Priority, due: Option<int>)
    ensures var r := Updated(ts, id, text, priority, due);
      var i := IndexOf(ts, id);
      && |r| == |ts|
      && (!HasId(ts, id) ==> r == ts)
      && (HasId(ts, id) ==>
            && r[i].text == Trim(text) && r[i].priority == priority && r[i].due == due
            && r[i].lastNotified.None?
            && r[i].id == ts[i].id && r[i].completed == ts[i].completed && r[i].createdAt == ts[i].createdAt
            && (forall j :: 0 <= j < |ts| && j != i ==> r[j] == ts[j]))
  {
  }

  /** Where `updateTask` writes: nowhere for an unknown id, else at the position `findIndex` gives. */
  lemma UpdatedAt(ts: seq<Task>, id: TaskId, text: string, priority: Priority, due: Option<int>, i: int)
    requires i == IndexOf(ts, id)
    ensures i < 0 ==> Updated(ts, id, text, priority, due) == ts
    ensures i >= 0 ==> Updated(ts, id, text, priority, due) == ts[i := Edit(text, priority, due)(ts[i])]
  {
  }

  lemma ToggleKeepsInvariant(ts: seq<Task>, id: TaskId)
    requires StoreInvariant(ts)
    ensures StoreInvariant(Toggled(ts, id))
  {
    InvariantByIdsAndTexts(ts, Toggled(ts, id));
  }

  lemma UpdateKeepsInvariant(ts: seq<Task>, id: TaskId, text: string, priority: Priority, due: Option<int>)
    requires StoreInvariant(ts)
    ensures StoreInvariant(Updated(ts, id, text, priority, due))
  {
    var i := IndexOf(ts, id);
    if i >= 0 {
      var r := Updated(ts, id, text, priority, due);
      assert r == ts[i := Edit(text, priority, due)(ts[i])];
      assert r[i].id == ts[i].id && IsTrimmed(r[i].text);
      forall j | 0 <= j < |r| ensures r[j].id == ts[j].id && IsTrimmed(r[j].text) {
        if j != i { assert r[j] == ts[j]; }
      }
    }
  }

  /** One more task scanned: the alert count grows by one exactly when that task is reported. */
  lemma AlertCountStep(ts: seq<Task>, i: nat, now: int)
    requires i < |ts|
    ensures AlertCount(ts[..i + 1], now) == AlertCount(ts[..i], now) + (if Classify(ts[i], now).Some? then 1 else 0)
  {
    assert ts[..i + 1] == ts[..i] + [ts[i]];
    FilterAppend(ts[..i], [ts[i]], IsAlert(now));
  }

  // ---------------------------------------------------------------------------
  // Deleting and clearing

  lemma {:induction false} FilterKeepsInvariant(ts: seq<Task>, p: Task -> bool)
    requires StoreInvariant(ts)
    ensures StoreInvariant(Filter(ts, p))
  {
    if ts != [] {
      FilterKeepsInvariant(ts[1..], p);
      var rest := Filter(ts[1..], p);
      if p(ts[0]) {
        var r := Filter(ts, p);
        assert r == [ts[0]] + rest;
        forall j | 0 < j < |r| ensures r[0].id != r[j].id {
          assert r[j] == rest[j - 1] && rest[j - 1] in ts[1..];
        }
      }
    }
  }

  /**
   * Deleting removes every task with the id and keeps every other one, in order; with
   * unique ids it removes exactly one task when the id is present and none otherwise.
   */
  lemma {:induction false} DeleteRemovesOne(ts: seq<Task>, id: TaskId)
    requires UniqueIds(ts)
    ensures !HasId(Deleted(ts, id), id)
    ensures |Deleted(ts, id)| == if HasId(ts, id) then |ts| - 1 else |ts|
  {
    if ts != [] {
      DeleteRemovesOne(ts[1..], id);
      if ts[0].id == id {
        assert !HasId(ts[1..], id);
        FilterKeepsAll(ts[1..], IdIsNot(id));
      } else {
        assert HasId(ts, id) == HasId(ts[1..], id) by {
          if HasId(ts, id) {
            var i :| 0 <= i < |ts| && ts[i].id == id;
            assert ts[1..][i - 1].id == id;
          }
        }
      }
    }
  }

  /** Deleting keeps the order of what remains and every occurrence of the other tasks. */
  lemma DeleteKeepsOthers(ts: seq<Task>, id: TaskId)
    ensures IsSubsequence(Deleted(ts, id), ts)
    ensures forall x :: multiset(Deleted(ts, id))[x] == if x.id != id then multiset(ts)[x] else 0
  {
    FilterIsSubsequence(ts, IdIsNot(id));
    forall x { FilterMultiset(ts, IdIsNot(id), x); }
  }

  /** Clearing keeps the pending tasks, each occurrence of each, in their order. */
  lemma ClearKeepsPending(ts: seq<Task>)
    ensures IsSubsequence(Cleared(ts), ts)
    ensures forall x :: multiset(Cleared(ts))[x] == if !x.completed then multiset(ts)[x] else 0
  {
    FilterIsSubsequence(ts, IsPending());
    forall x { FilterMultiset(ts, IsPending(), x); }
  }

  /** Clearing leaves no completed task, removes exactly as many as were counted, and none when the count is 0. */
  lemma ClearRemovesCompleted(ts: seq<Task>)
    ensures forall i :: 0 <= i < |Cleared(ts)| ==> !Cleared(ts)[i].completed
    ensures |ts| - |Cleared(ts)| == Count(ts, IsCompleted())
    ensures Count(ts, IsCompleted()) == 0 ==> Cleared(ts) == ts
  {
    FilterPartition(ts, IsCompleted());
    FilterAgree(ts, Not(IsCompleted()), IsPending());
    if Count(ts, IsCompleted()) == 0 {
      FilterKeepsAll(ts, IsPending());
    }
  }

  // ---------------------------------------------------------------------------
  // Notification tick

  /** A tick keeps the store's invariant: it touches no id and no text. */
  lemma TickKeepsInvariant(ts: seq<Task>, us: seq<Task>, now: int, sink: Sink)
    requires StoreInvariant(ts)
    requires |us| == |ts| && forall j :: 0 <= j < |ts| ==> us[j] == Tick(ts[j], now, sink)
    ensures StoreInvariant(us)
  {
    forall j | 0 <= j < |ts| ensures us[j].id == ts[j].id && us[j].text == ts[j].text {
      TickKeepsTaskData(ts[j], now, sink);
    }
    InvariantByIdsAndTexts(ts, us);
  }

  class Store {
    var tasks: seq<Task>
    ghost var saved: seq<Task>

    ghost predicate Valid()
      reads this
    {
      StoreInvariant(tasks)
    }

    /** The store as `loadTasks` rebuilds it from a saved snapshot (empty when there is none). */
    constructor (snapshot: seq<Task>)
      requires StoreInvariant(snapshot)
      ensures Valid() && tasks == snapshot && saved == snapshot
    {
      tasks := snapshot;
      saved := snapshot;
    }

    /**
     * `addTask`: refuses an empty trimmed text and a text that some pending task already
     * has (compared lower-cased); otherwise puts the new task first and saves.
     */
    method AddTask(text: string, priority: Priority, due: Option<int>, freshId: TaskId, now: int) returns (outcome: AddOutcome)
      requires Valid() && !HasId(tasks, freshId)
      modifies this
      ensures Valid()
      ensures outcome == EmptyText <==> Trim(text) == []
      ensures outcome == DuplicateText <==> Trim(text) != [] && HasPendingText(old(tasks), Trim(Lower(text)))
      ensures outcome == Added ==> tasks == [NewTask(freshId, text, priority, due, now)] + old(tasks) && saved == tasks
      ensures outcome != Added ==> tasks == old(tasks) && saved == old(saved)
    {
      if Trim(text) == [] {
        return EmptyText;
      }
      if HasPendingText(tasks, Trim(Lower(text))) {
        return DuplicateText;
      }
      AddKeepsInvariant(tasks, freshId, text, priority, due, now);
      tasks := [NewTask(freshId, text, priority, due, now)] + tasks;
      saved := tasks;
      outcome := Added;
    }

    /** `updateTask`: rewrites the task with `id` in place and saves; false, with no change, for an unknown id. */
    method UpdateTask(id: TaskId, text: string, priority: Priority, due: Option<int>) returns (found: bool)
      requires Valid()
      modifies this
      ensures Valid()
      ensures found == HasId(old(tasks), id)
      ensures tasks == Updated(old(tasks), id, text, priority, due)
      ensures found ==> saved == tasks
      ensures !found ==> saved == old(saved)
    {
      var i := IndexOf(tasks, id);
      found := i != -1;
      UpdatedAt(tasks, id, text, priority, due, i);
      if !found {
        return;
      }
      UpdateKeepsInvariant(tasks, id, text, priority, due);
      tasks := tasks[i := Edit(text, priority, due)(tasks[i])];
      saved := tasks;
    }

    /** `deleteTask`, once confirmed: drops every task with `id` and saves. */
    method DeleteTask(id: TaskId)
      requires Valid()
      modifies this
      ensures Valid()
      ensures tasks == Deleted(old(tasks), id) && saved == tasks
    {
      FilterKeepsInvariant(tasks, IdIsNot(id));
      tasks := Filter(tasks, IdIsNot(id));
      saved := tasks;
    }

    /**
     * `toggleTaskCompletion`: flips the completed flag of the task with `id` in place and
     * saves; returns the updated task (for the confirmation message), or None for an unknown id.
     */
    method ToggleTaskCompletion(id: TaskId) returns (toggled: Option<Task>)
      requires Valid()
      modifies this
      ensures Valid()
      ensures tasks == Toggled(old(tasks), id)
      ensures toggled.Some? <==> HasId(old(tasks), id)
      ensures toggled.Some? ==> toggled.value == tasks[IndexOf(old(tasks), id)] && saved == tasks
      ensures toggled.None? ==> saved == old(saved)
    {
      var i := IndexOf(tasks, id);
      if i == -1 {
        return None;
      }
      ToggleKeepsInvariant(tasks, id);
      tasks := tasks[i := tasks[i].(completed := !tasks[i].completed)];
      saved := tasks;
      toggled := Some(tasks[i]);
    }

    /**
     * `clearCompletedTasks`, once confirmed: counts the completed tasks and, when there is
     * at least one, drops them all and saves once. Returns the count.
     */
    method ClearCompletedTasks() returns (cleared: nat)
      requires Valid()
      modifies this
      ensures Valid()
      ensures cleared == Count(old(tasks), IsCompleted())
      ensures tasks == Cleared(old(tasks))
      ensures cleared > 0 ==> saved == tasks
      ensures cleared == 0 ==> tasks == old(tasks) && saved == old(saved)
    {
      cleared := |Filter(tasks, IsCompleted())|;
      ClearRemovesCompleted(tasks);
      if cleared > 0 {
        FilterKeepsInvariant(tasks, IsPending());
        tasks := Filter(tasks, IsPending());
        saved := tasks;
      }
    }

    /**
     * `checkUpcomingDeadlines`: classifies every task, writes the tier into each one it
     * reports, and returns the positions of those tasks in the list, in order. Nothing is saved.
     */
    method CheckUpcomingDeadlines(now: int) returns (due: seq<nat>)
      requires Valid()
      modifies this
      ensures Valid()
      ensures |tasks| == |old(tasks)|
      ensures forall j :: 0 <= j < |tasks| ==> tasks[j] == Stamp(old(tasks)[j], now)
      ensures forall a, b :: 0 <= a < b < |due| ==> due[a] < due[b]
      ensures forall k :: 0 <= k < |due| ==> due[k] < |tasks|
      ensures forall j :: 0 <= j < |tasks| ==> (j in due <==> Classify(old(tasks)[j], now).Some?)
      ensures |due| == AlertCount(old(tasks), now)
      ensures saved == old(saved)
    {
      ghost var before := tasks;
      due := [];
      var i := 0;
      assert before[..0] == [];
      while i < |tasks|
        invariant 0 <= i <= |tasks| == |before|
        invariant tasks == StampedUpTo(before, i, now)
        invariant due == AlertPositions(before[..i], now)
        invariant saved == old(saved)
      {
        assert before[..i + 1][..i] == before[..i];
        var level := Classify(tasks[i], now);
        if level.Some? {
          tasks := tasks[i := tasks[i].(level := level)];
          due := due + [i];
        }
        assert tasks == StampedUpTo(before, i + 1, now);
        i := i + 1;
      }
      assert before[..i] == before;
      AlertPositionsSpec(before, now);
      InvariantByIdsAndTexts(before, tasks);
    }

    /**
     * One pass of the dispatch loop, on the task at position `i`: skipped when notified
     * less than 30 minutes ago; otherwise the sink is called, and only when it reports a
     * delivery is `lastNotified` set to `now` and the list saved.
     */
    method NotifyAt(i: nat, now: int, sink: Sink) returns (delivered: bool)
      requires i < |tasks|
      modifies this
      ensures tasks == old(tasks)[i := Notified(old(tasks)[i], now, sink)]
      ensures delivered == Delivers(old(tasks)[i], now, sink)
      ensures delivered ==> saved == tasks
      ensures !delivered ==> tasks == old(tasks) && saved == old(saved)
    {
      var task := tasks[i];
      delivered := false;
      if task.lastNotified.Some? && now - task.lastNotified.value < COOLDOWN_MS {
        // Already notified in the last 30 minutes.
      } else {
        delivered := sink(task, LevelOf(task));
        if delivered {
          tasks := tasks[i := task.(lastNotified := Some(now))];
          saved := tasks;
        }
      }
    }

    /**
     * The dispatch loop of `updateNotificationsPanel`, over the positions `due` the scan
     * returned, in order; the list is saved whenever a reminder is delivered.
     */
    method DispatchNotifications(due: seq<nat>, now: int, sink: Sink)
      requires Valid()
      requires forall a, b :: 0 <= a < b < |due| ==> due[a] < due[b]
      requires forall k :: 0 <= k < |due| ==> due[k] < |tasks|
      modifies this
      ensures Valid()
      ensures |tasks| == |old(tasks)|
      ensures forall j :: 0 <= j < |tasks| ==>
        tasks[j] == if j in due then Notified(old(tasks)[j], now, sink) else old(tasks)[j]
      ensures AnyDelivers(old(tasks), due, now, sink) ==> saved == tasks
      ensures !AnyDelivers(old(tasks), due, now, sink) ==> tasks == old(tasks) && saved == old(saved)
    {
      ghost var before := tasks;
      ghost var sent := false;
      var k := 0;
      assert due[..0] == [];
      assert Dispatched(before, [], now, sink) == before;
      while k < |due|
        invariant 0 <= k <= |due|
        invariant tasks == Dispatched(before, due[..k], now, sink)
        invariant sent == AnyDelivers(before, due[..k], now, sink)
        invariant sent ==> saved == tasks
        invariant !sent ==> saved == old(saved)
      {
        var i := due[k];
        DispatchedStep(before, due, k, now, sink);
        AnyDeliversStep(before, due, k, now, sink);
        var delivered := NotifyAt(i, now, sink);
        if delivered {
          sent := true;
        }
        k := k + 1;
      }
      assert due[..k] == due;
      if !sent {
        DispatchedNone(before, due, now, sink);
      }
      InvariantByIdsAndTexts(before, tasks);
    }

    /**
     * One notification tick (`updateNotificationsPanel`): the deadline scan, the badge
     * count, then the dispatch loop. The count covers every reported task, whether or not
     * its reminder is suppressed.
     */
    method UpdateNotificationsPanel(now: int, sink: Sink) returns (badge: nat)
      requires Valid()
      modifies this
      ensures Valid()
      ensures badge == AlertCount(old(tasks), now)
      ensures |tasks| == |old(tasks)|
      ensures forall j :: 0 <= j < |tasks| ==> tasks[j] == Tick(old(tasks)[j], now, sink)
      ensures (exists j :: 0 <= j < |old(tasks)| && SentOnTick(old(tasks)[j], now, sink)) ==> saved == tasks
      ensures (forall j :: 0 <= j < |old(tasks)| ==> !SentOnTick(old(tasks)[j], now, sink)) ==> saved == old(saved)
    {
      ghost var before := tasks;
      var due := CheckUpcomingDeadlines(now);
      ghost var stamped := tasks;
      badge := |due|;
      DispatchNotifications(due, now, sink);
      forall j | 0 <= j < |tasks| ensures tasks[j] == Tick(before[j], now, sink) {
        if j !in due {
          assert Classify(before[j], now).None?;
        }
      }
      if exists j :: 0 <= j < |before| && SentOnTick(before[j], now, sink) {
        var j :| 0 <= j < |before| && SentOnTick(before[j], now, sink);
        assert j in due;
        var k :| 0 <= k < |due| && due[k] == j;
        assert Delivers(stamped[due[k]], now, sink);
        assert AnyDelivers(stamped, due, now, sink);
      }
      if AnyDelivers(stamped, due, now, sink) {
        var k :| 0 <= k < |due| && due[k] < |stamped| && Delivers(stamped[due[k]], now, sink);
        assert SentOnTick(before[due[k]], now, sink);
      }
    }
  }
}
