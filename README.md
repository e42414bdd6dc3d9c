# TaskZen task engine, modelled in Dafny

TaskZen is a browser to-do list. Its `script.js` keeps an in-memory list of tasks
(most recently created first), lets the user add, edit, complete, delete and clear
tasks, shows a filtered view with counters and a "focus" selection, and every few
minutes scans the tasks for approaching deadlines, showing a badge count and handing
reminders to the browser's notification service with a 30-minute cooldown per task.

This project models that engine, with time as integer milliseconds:

- `tasks.dfy` (module `Tasks`): the task record, priorities, `createTask`, `getPriorityText`.
- `store.dfy` (module `TaskStore`): the class `Store` holding the task list as a `seq<Task>`
  field, with methods for `addTask`, `updateTask`, `deleteTask`, `toggleTaskCompletion`,
  `clearCompletedTasks`, the deadline scan `checkUpcomingDeadlines` (which writes each
  reported task's tier into it) and the dispatch loop of `updateNotificationsPanel`. Each
  method is tied to a pure function of the old list (`Updated`, `Toggled`, `Deleted`,
  `Cleared`, `Stamp`, `Tick`), and lemmas prove what the application promises about those
  functions. A ghost field `saved` is the snapshot last written by `saveTasks`.
- `deadlines.dfy` (module `Deadlines`): the deadline classifier and `isDueSoon`.
- `dispatch.dfy` (module `Dispatch`): the cooldown rule and what one tick does to one task.
- `messages.dfy` (module `Messages`): the hour arithmetic and wording of `getNotificationMessage`.
- `filters.dfy` (module `FilterEngine`): `getFilteredTasks`.
- `focus.dfy` (module `Focus`): the top-three selection of `updateFocusMode`.
- `stats.dfy` (module `Stats`): the counters of `updateStats`.
- `seqs.dfy`, `text.dfy`, `wrappers.dfy`: `Array.prototype.filter`, `trim`, `toLowerCase`,
  `includes`, and an option type.

The clock, id generation and the notification sink are parameters: `now: int`, a fresh
`TaskId`, and `sink: (Task, Level) -> bool`, which answers whether a reminder was shown
(it stands for `showDesktopNotification`, whose answer depends on the user's settings and
the browser's permission). Within one tick each task reaches the sink at most once, so a
function of the task is as general as the real service for that tick.

Details of the code that the model keeps:

- A pending task due exactly now (`due - now == 0`) is not reported by the scan, because
  both tests in script.js:161 and script.js:173 are strict.
- `deleteTask` returns nothing.
- `toggleTaskCompletion` returns nothing in the code but reads the updated task back to
  report it; the model returns that task.
- The duplicate test compares the stored text lower-cased with the input lower-cased and
  then trimmed; the model proves the two orders of trimming and lower-casing agree
  (`Text.LowerTrimCommute`) and that stored texts are always trimmed (the store invariant).

## Model

| member | source | states |
|---|---|---|
| Text.Trim | script.js:447 | `trim` returns a text with no whitespace at either end, no longer than the input |
| Text.TrimIsCore | script.js:447 | the trimmed text is a slice of the input, and everything cut off is whitespace |
| Text.TrimIdempotent | script.js:505 | trimming an already trimmed text (as `updateTask` and `createTask` store it) changes nothing |
| Text.TrimEmptyIff | script.js:459 | the empty-text check rejects exactly the texts made only of whitespace |
| Text.Lower | script.js:467 | lower-casing keeps the length, replaces each letter A-Z by the matching letter a-z, and keeps every other character |
| Text.Contains | script.js:585 | a text contains each of its prefixes, and nothing longer than itself |
| Text.LowerTrimCommute | script.js:467 | lower-casing then trimming equals trimming then lower-casing |
| Text.ContainsIff | script.js:585 | `includes` holds exactly when some slice of the text equals the term |
| Seqs.Filter | script.js:570-588 | a filter keeps exactly the elements that pass, and no others |
| Seqs.FilterIsSubsequence | script.js:570 | a filter keeps the order of what it keeps |
| Seqs.FilterMultiset | script.js:570 | a filter keeps every occurrence of a passing element and drops every other |
| Seqs.FilterPartition | script.js:699-701 | the tasks that pass a test and those that fail it add up to all tasks |
| Tasks.PriorityText | script.js:126-129 | the displayed priority is its name with a capital first letter |
| Tasks.PriorityTextLower | script.js:126-129 | lower-casing the displayed priority gives back its name |
| Tasks.PriorityTextInjective | script.js:126-129 | different priorities display differently |
| Tasks.NewTask | script.js:444-454 | a created task is pending, never notified, its text is the input trimmed (no blanks at either end, no longer than the input), and it has the given id, priority, due date and creation time |
| Deadlines.Classify | script.js:154-179 | only pending tasks with a due date are classified: Critical iff due within the hour or overdue by at most a day, Warning iff due in more than an hour and at most a day |
| Deadlines.ClassifyLeavesOut | script.js:161-177 | a task due exactly now, more than a day overdue, or more than a day ahead is not reported |
| Deadlines.ClassifyIgnoresOtherFields | script.js:155-158 | the tier depends only on the due date and the completed flag |
| Deadlines.Stamp | script.js:162-175 | the scan writes the tier into a reported task and changes nothing else |
| Deadlines.AlertCount | script.js:702 | the number of reported tasks is at most the number of tasks, and 0 exactly when no task is classified |
| Deadlines.IsDueSoon | script.js:108-117 | due soon means due in the future |
| Deadlines.DueSoonIsAlert | script.js:108-117 | a pending task due soon is always reported, and a reported task not yet due is due soon |
| Dispatch.Suppressed | script.js:394 | a task never notified, or last notified at least 30 minutes ago, is not suppressed |
| Dispatch.Tick | script.js:392-403 | a tick leaves an unreported task unchanged and gives a reported task its tier |
| Dispatch.Notified | script.js:393-403 | a suppressed task is unchanged; otherwise `lastNotified` becomes now exactly when the sink reports a delivery; no other field changes |
| Dispatch.TickKeepsTaskData | script.js:149-182 | a tick changes only the tier and the last-notified time |
| Dispatch.TickLastNotified | script.js:392-403 | a tick sets `lastNotified` to now iff it delivers a reminder, and a task notified under 30 minutes ago gets none |
| Dispatch.TickLastNotifiedGrows | script.js:394-400 | `lastNotified` never decreases, and each new delivery is at least 30 minutes after the previous one |
| Dispatch.CooldownWindow | script.js:394 | after a delivery at time T, reminders are suppressed exactly until T plus 30 minutes |
| Messages.NoticeFor | script.js:232-247 | overdue tasks report hours late rounded up (at least 1), tasks due within the hour say so, tasks due within the day report whole hours left (1 to 24) |
| Messages.NatToString | script.js:239 | the hour count prints as a non-empty string of decimal digits with no leading zero |
| Messages.NatToStringValue | script.js:239 | the printed hour count reads back as the number |
| Messages.HoursPhrase | script.js:239 | the phrase is the printed count followed by " hour", with a trailing "s" exactly when the count is not 1 |
| Messages.Lead | script.js:237-246 | the opening sentence: "Overdue by " and the hours phrase, "Due in less than 1 hour! ", "Due in " and the hours phrase, or "Due " and the formatted date; only the overdue one does not start with "D" |
| Messages.PriorityLine | script.js:239 | the closing part is "Priority: " followed by the displayed priority |
| Messages.NoticeText | script.js:237-247 | every message opens with its sentence, begins "Overdue by " exactly for overdue tasks, and ends with the priority line |
| Messages.NoticeTextWording | script.js:237-246 | each kind of message begins with its own wording and, where it has one, its hour count |
| Messages.NotificationMessage | script.js:232-248 | the message begins "Overdue by " and the hours late iff the task is overdue, "Due in less than 1 hour! " within the hour, "Due in " and the hours left within the day, "Due " and the date beyond that, and it ends with the priority line |
| FilterEngine.GetFilteredTasks | script.js:569-589 | the view is an order-preserving subsequence of the store holding every occurrence of each task that passes the status, priority and search filters, and nothing else |
| FilterEngine.NeutralFiltersShowAll | script.js:572-585 | with all filters neutral, the whole store is shown in order |
| FilterEngine.SearchIgnoresCase | script.js:585 | the search result does not depend on the case of the term |
| FilterEngine.EmptyTermIsContained | script.js:583-585 | the empty-term test is a shortcut: the empty term is contained in every text |
| FilterEngine.CallMomExample | script.js:569-589 | pending, high priority, "call": of "Call mom" (high), "Call mom" (low) and completed "Call dad", only the first is shown |
| Focus.SortByDue | script.js:718-723 | the sort is a permutation of its input |
| Focus.SortIsSorted | script.js:718-723 | the sort orders by due date, undated tasks last |
| Focus.SortIsStable | script.js:718-723 | for each due date, tasks sharing it keep their relative order |
| Focus.FocusTasks | script.js:716-724 | the focus holds at most three tasks |
| Focus.FocusSelection | script.js:716-724 | the focus shows the first min(3, candidates) of the sorted pending high-priority tasks, earliest due first, none due later than a candidate left out |
| Focus.FocusFromStore | script.js:716-718 | every task in the focus is a pending high-priority task of the store |
| Stats.ComputeStats | script.js:698-702 | completed plus pending is the total, pending is the number of tasks not completed, the due-soon count is the number of tasks the deadline scan reports, and it never exceeds the pending count |
| TaskStore.IndexOf | script.js:502 | `findIndex` returns the first position with the id, or -1 exactly when there is none |
| TaskStore.HasPendingText | script.js:466-468 | a duplicate is only found for a lower-case key, and only when some task is pending |
| TaskStore.AddedTextIsDuplicate | script.js:466-478 | once a text is added, adding it again in any case or with surrounding blanks is a duplicate |
| TaskStore.PendingTwinIsDuplicate | script.js:466-468 | a pending task at any position whose lower-cased text equals the trimmed, lower-cased input makes the add a duplicate |
| TaskStore.CompletedDoesNotBlock | script.js:466-468 | a completed task with the same text does not block an add |
| TaskStore.AddKeepsInvariant | script.js:477-478 | prepending a new task with a fresh id keeps ids unique and texts trimmed |
| TaskStore.Updated | script.js:501-515 | updating keeps the length, every id and every completed flag |
| TaskStore.Toggled | script.js:529-533 | toggling keeps the length, every id and every text |
| TaskStore.Deleted | script.js:521 | deleting never lengthens the list and leaves no task with the id |
| TaskStore.Cleared | script.js:553 | clearing never lengthens the list and leaves no completed task |
| TaskStore.ToggleTwice | script.js:529-533 | toggling the same id twice restores the list |
| TaskStore.ToggleChangesOnlyCompleted | script.js:529-533 | toggling flips only the completed flag of the first task with the id; an unknown id changes nothing |
| TaskStore.UpdateChangesOnlyEditedFields | script.js:501-515 | update sets trimmed text, priority and due date, clears `lastNotified`, keeps id, completed flag, creation time and all other tasks; an unknown id changes nothing |
| TaskStore.ToggleKeepsInvariant | script.js:533 | toggling keeps ids unique and texts trimmed |
| TaskStore.UpdateKeepsInvariant | script.js:505-508 | updating keeps ids unique and texts trimmed |
| TaskStore.FilterKeepsInvariant | script.js:521 | filtering the list keeps ids unique and texts trimmed |
| TaskStore.DeleteRemovesOne | script.js:521 | after a delete no task has the id, and with unique ids exactly one task is removed when it was present |
| TaskStore.DeleteKeepsOthers | script.js:521 | deleting keeps every other task, in order |
| TaskStore.ClearKeepsPending | script.js:553 | clearing keeps every occurrence of every pending task, in order |
| TaskStore.ClearRemovesCompleted | script.js:549-553 | clearing leaves no completed task, removes exactly the counted number, and changes nothing when the count is 0 |
| TaskStore.AlertPositionsSpec | script.js:151-181 | the scan reports the positions of exactly the classified tasks, each once, in increasing order, as many as the alert count |
| TaskStore.TickKeepsInvariant | script.js:392-403 | a notification tick keeps ids unique and texts trimmed |
| TaskStore.Store.constructor | script.js:802-808 | the store starts from the saved snapshot |
| TaskStore.Store.AddTask | script.js:457-498 | rejects an empty trimmed text, rejects a text a pending task already has, otherwise prepends the new task and saves |
| TaskStore.Store.UpdateTask | script.js:501-516 | returns whether the id exists; the list becomes `Updated` of the old one and is saved only then |
| TaskStore.Store.DeleteTask | script.js:519-526 | the list becomes `Deleted` of the old one and is saved |
| TaskStore.Store.ToggleTaskCompletion | script.js:529-545 | the list becomes `Toggled` of the old one; the updated task is returned and the list saved only when the id exists |
| TaskStore.Store.ClearCompletedTasks | script.js:548-562 | returns the number of completed tasks; when positive the list becomes `Cleared` and is saved, when 0 nothing changes and nothing is saved |
| TaskStore.Store.CheckUpcomingDeadlines | script.js:149-182 | stamps every task with its tier and returns, in order, exactly the positions of the reported tasks; their number is the alert count |
| TaskStore.Store.NotifyAt | script.js:393-402 | one dispatch step: the task becomes `Notified` of itself, the result says whether a reminder was delivered, and the list is saved only then |
| TaskStore.Store.DispatchNotifications | script.js:392-403 | each reported task becomes `Notified` of itself and no other task changes; the list is saved when some reminder was delivered, and nothing changes otherwise |
| TaskStore.Store.UpdateNotificationsPanel | script.js:299-404 | the badge counts every reported task, suppressed or not; every task becomes `Tick` of itself; the list is saved iff a reminder was delivered |

## Left out

- Rendering: `renderTask`, `renderTasks`, the notification panel's items and their texts
  (script.js:321-389), toasts, modals, theme, keyboard shortcuts, filter buttons,
  `showDueSoonTasks`, `getPriorityClass`, `testNotification` and the service worker; they
  only draw the state.
- The browser notification service, sound and permission request inside
  `showDesktopNotification`: replaced by the `sink` parameter.
- `localStorage` and JSON (`saveTasks`, `loadTasks`, the theme and notification-setting
  storage): each save is recorded in the ghost `saved` snapshot; the JSON round trip is not modelled.
- `generateId`: ids come in as a parameter.
- TaskStore.Store.AddTask: requires the fresh id to be absent from the list, which the
  application gets from `generateId`'s clock-and-random ids rather than a check.
- TaskStore.Store.constructor: requires the snapshot to have unique ids and trimmed texts,
  as one written by this store does; a hand-edited snapshot is not modelled.
- The clock: one `now` serves both the deadline scan (script.js:150) and the dispatch loop
  (script.js:392) of a tick, which read the clock separately; the milliseconds between
  the two reads are not modelled.
- Timers: the 5-minute interval, the start-up delay and the delayed refresh after adding a
  task due soon (script.js:483-490); one tick is one call of `UpdateNotificationsPanel`.
- The re-render and notification tick that `updateTask`, `deleteTask`,
  `toggleTaskCompletion` and `clearCompletedTasks` run after saving: each store method stops
  after the save, and a caller runs `UpdateNotificationsPanel` next.
- `confirm` dialogs: only the confirmed branch of `deleteTask` and `clearCompletedTasks`.
- Dates: `formatDate`, `isOverdue`, locale formatting and the parsing of `YYYY-MM-DD`
  strings; due dates are milliseconds, and the formatted date in a far-off reminder is a
  string parameter of Messages.NoticeText.
- Stats.ComputeStats: the deadline scan that `updateStats` calls also writes each reported
  task's tier into the list (script.js:162-174); this pure function drops that write, which
  TaskStore.Store.CheckUpcomingDeadlines models.
- Stats.ComputeStats: does not compute the completion percentage, which uses `Math.round` on
  floating-point division.
- Text.Lower: maps only the ASCII letters A-Z; JavaScript's `toLowerCase` also maps other
  Unicode letters, so texts differing only in non-ASCII case count as different here.
- Tasks.PriorityText: priorities are the three values the forms offer; the source's
  fallback of any other string to "Low" is not modelled.
