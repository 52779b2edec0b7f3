# Task list state machine (script.js)

This project models the state behind a small browser to-do list. The page keeps two
variables: `todos`, an ordered list of tasks `{id, text, priority, completed}` with the
newest task first, and `currentFilter`, the value of the last filter button clicked. Event
handlers change them:

- **add**: the submit handler trims the typed text, ignores it when nothing is left, and
  otherwise puts a new incomplete task in front of the list;
- **toggle**: flips `completed` on the tasks with the given id;
- **delete**: drops the tasks with the given id;
- **clear completed**: drops every completed task;
- **set filter**: records the filter value.

Two values are derived from the state: the tasks shown for the current filter, and the
completion percentage shown next to the progress ring.

Modules:

- `JsText` (`js_text.dfy`): `String.prototype.trim` over the ECMAScript whitespace and
  line-terminator code points.
- `TodoList` (`todo_list.dfy`): the `Task` record and the `Priority` values; the new list
  each handler computes from the old one (`Added`, `Toggled`, `Deleted`, `ClearedCompleted`)
  and the visible list (`Visible`). `Deleted`, `ClearedCompleted` and `Visible` are built on
  one order-keeping filter, `Keep`; `Toggled` is the map that flips `completed`, and `Added`
  puts one task in front.
- `Progress` (`progress.dfy`): the completed count, the exact percentage and the rounded
  percentage shown.
- `TodoStore` (`task_store.dfy`): class `TaskStore`, whose fields `todos` and
  `currentFilter` the methods reassign, plus a worked scenario. The handlers for toggle,
  delete, clear completed and set filter also reassign the variable; add instead calls
  `todos.unshift(newTodo)` (script.js:120), which `Submit` models as the reassignment
  `todos := [newTodo] + todos`.

The clock reading that becomes a new task's id (`Date.now()`) is a parameter of `Submit`.
What storage holds at page load is a parameter of the constructor. The model does not
assume ids are unique, because the page does not enforce it. Instead, each operation is
proved to keep ids unique when they were unique before; for add, this also needs the new
timestamp to be fresh.

Two behaviours of the code shape the model:

- The filter value is any string, taken from the clicked button. `"active"` and
  `"completed"` select, and every other value shows the whole list (script.js:48-52).
- Loading does not recover from a corrupt payload. `JSON.parse` throws on malformed text
  (script.js:13), so the page fails to start instead of falling back to an empty list. Only
  "nothing stored gives an empty list" is modelled.

## Model

| member | source | states |
|---|---|---|
| `JsText.TrimStart` | script.js:110 | the part of `trim` that drops leading whitespace: the result is no longer than the input and does not start with whitespace; `TrimStartSpec` states the rest |
| `JsText.TrimEnd` | script.js:110 | the part of `trim` that drops trailing whitespace: the result is no longer than the input and does not end with whitespace; `TrimEndSpec` states the rest |
| `JsText.Trim` | script.js:110 | the trimmed text is no longer than the input and neither starts nor ends with whitespace; the lemma rows below state the rest |
| `JsText.TrimStartSpec` | script.js:110 | trimming the start leaves a suffix of the input that does not begin with whitespace; everything dropped was whitespace |
| `JsText.TrimEndSpec` | script.js:110 | trimming the end leaves a prefix of the input that does not end with whitespace; everything dropped was whitespace |
| `JsText.TrimEmptyIff` | script.js:110-113 | the trimmed text is empty exactly when the input is all whitespace, which is the case the submit handler ignores |
| `JsText.TrimIsInfix` | script.js:110 | the trimmed text is the infix between a blank prefix and a blank suffix, and it neither starts nor ends with whitespace |
| `JsText.TrimIdempotent` | script.js:110 | trimming an already trimmed text changes nothing |
| `TodoList.Keep` | script.js:48-52 | filtering never adds entries, and a task is in the result exactly when it is in the list and meets the criterion |
| `TodoList.KeepIsSubsequence` | script.js:48-52 | the filtered list is an order-preserving subsequence of the list |
| `TodoList.KeepCounts` | script.js:48-52 | every task that meets the criterion keeps all its occurrences; every task that fails it loses all of them |
| `TodoList.KeepIdempotent` | script.js:102 | filtering twice by the same criterion gives the same list as filtering once |
| `TodoList.KeepAllIff` | script.js:48-52 | the filter returns the list unchanged, or equivalently keeps its length, exactly when every task meets the criterion |
| `TodoList.CompletionPartition` | script.js:48-52 | the incomplete and the completed tasks together are the whole list, in length and as a multiset |
| `TodoList.KeepPreservesUniqueIds` | script.js:102 | filtering a list with unique ids gives a list with unique ids |
| `TodoList.Added` | script.js:110-120 | all-whitespace input leaves the list as it was; otherwise the list grows by one, the new incomplete task with the trimmed non-empty text, given priority and the timestamp as id comes first, and the old list follows unchanged |
| `TodoList.AddedPreservesUniqueIds` | script.js:114-120 | adding with a timestamp that no task has yet keeps the ids unique |
| `TodoList.NewestFirst` | script.js:120 | a series of submissions gives one task per submission |
| `TodoList.NewestFirstAt` | script.js:120 | in the tasks from a series of submissions, newest first, position i holds the task of the i-th submission counted from the last |
| `TodoList.AddedAllNewestFirst` | script.js:120 | after a series of non-blank submissions, the list is their tasks newest first followed by the earlier list, so its length grows by the number of submissions |
| `TodoList.Toggled` | script.js:84-90 | toggling keeps the length, the order, and each task's id, text and priority; `completed` changes exactly on the tasks whose id equals the argument |
| `TodoList.ToggledInvolution` | script.js:85-90 | toggling the same id twice gives back the original list |
| `TodoList.ToggledUnknownId` | script.js:85-90 | toggling an id that no task has leaves the list unchanged |
| `TodoList.ToggledPreservesUniqueIds` | script.js:85-90 | toggling keeps ids unique |
| `TodoList.ToggledChangesOne` | script.js:86-88 | with unique ids, a toggle changes at most one task |
| `TodoList.Deleted` | script.js:102 | a task survives deletion exactly when it was in the list and its id differs from the argument |
| `TodoList.DeletedSpec` | script.js:102 | the survivors keep their order and all their occurrences; deleting the same id again has no further effect; the list is unchanged exactly when no task has the id; unique ids stay unique |
| `TodoList.ClearedCompleted` | script.js:137 | a task survives clearing exactly when it was in the list and is not completed |
| `TodoList.ClearedCompletedSpec` | script.js:137 | the incomplete tasks keep their order and all their occurrences, so no incomplete task is removed; clearing is idempotent; the list is unchanged exactly when no task is completed; unique ids stay unique |
| `TodoList.CriterionFor` | script.js:49-51 | the criterion for a filter value: `"active"` admits exactly the incomplete tasks, `"completed"` exactly the completed ones, and any other value every task |
| `TodoList.Visible` | script.js:48-52 | the visible list is an order-preserving subsequence of the list, and a task is visible exactly when it is in the list and matches the filter value as `CriterionFor` describes; `VisibleSpec` and `VisiblePartition` state the rest |
| `TodoList.VisibleSpec` | script.js:48-52 | the visible list is always an order-preserving subsequence of the list; `"active"` shows exactly the incomplete tasks and `"completed"` exactly the completed ones, with every occurrence; any other filter value shows the whole list |
| `TodoList.VisiblePartition` | script.js:48-52 | the `"active"` and `"completed"` views together account for every task exactly once |
| `Progress.CompletedCount` | script.js:41 | the count is at most the length; it is 0 exactly when no task is completed, and equals the length exactly when every task is |
| `Progress.Percentage` | script.js:36-44 | the percentage lies between 0 and 100; it is 0 exactly when no task is completed, which includes the empty list; it is 100 exactly when the list is non-empty and every task is completed |
| `Progress.PercentOf` | script.js:42 | c out of n is between 0 and 100, is 0 exactly when c is 0, is 100 exactly when c = n > 0, and for n > 0 the value times n equals 100 times c |
| `Progress.Round` | script.js:28 | the result is the nearest integer, with halves rounded up |
| `Progress.ShownPercent` | script.js:28 | the displayed value is within one half of the exact percentage; it lies between 0 and 100; it is 0 for an empty list or when nothing is completed, and 100 when everything is completed |
| `Progress.OneOfFour` | script.js:41-42 | one completed task out of four gives exactly 25, shown as 25 |
| `TodoStore.TaskStore.constructor` | script.js:13-14 | on page load, `todos` is the stored list, or empty when nothing is stored, and the filter is `"all"` |
| `TodoStore.TaskStore.Submit` | script.js:108-125 | the list becomes `Added` of the old list; blank input changes nothing; otherwise the new incomplete task with the timestamp id is in front of the old list; unique ids stay unique when the timestamp is fresh; the filter is untouched |
| `TodoStore.TaskStore.Toggle` | script.js:84-93 | the list becomes `Toggled` of the old list; an unknown id changes nothing; unique ids stay unique; the filter is untouched |
| `TodoStore.TaskStore.Delete` | script.js:101-104 | the list becomes `Deleted` of the old list; an unknown id changes nothing; unique ids stay unique; the filter is untouched |
| `TodoStore.TaskStore.ClearCompleted` | script.js:136-140 | the list becomes `ClearedCompleted` of the old list, so no completed task remains; unique ids stay unique; the filter is untouched |
| `TodoStore.TaskStore.SetFilter` | script.js:131 | the filter becomes the clicked button's value and the list is unchanged |
| `TodoStore.BuyMilkThenPayBills` | script.js:108-125 | adding "Buy milk" (medium) and then "Pay bills" (high) gives the list [Pay bills, Buy milk], both incomplete |
| `TodoStore.PayBillsDoneThenCleared` | script.js:36-44 | for that list the progress is 0%; toggling "Pay bills" gives 50%; clearing completed tasks then leaves only "Buy milk", at 0% |

## Left out

- DOM work is not modelled: element lookups, building list items with `innerHTML`, CSS
  class changes and showing the empty-state block (script.js:2-11, 46-82). It is
  presentation only; the filter that decides which tasks render is modelled.
- `escapeHtml` (script.js:142-146) is not modelled. Its result depends on how the browser
  serialises `textContent` to `innerHTML`.
- The progress ring geometry (script.js:20-27) and the date heading (script.js:16-18) are
  not modelled. They use floating-point SVG offsets and a locale library call.
- The 300 ms delay and the fade-out in `deleteTodo` (script.js:96-101, 105) are not
  modelled. The filter at script.js:102 is modelled as an immediate operation, so a second
  delete pending during the delay is the same as two deletes in a row.
- Saving is not modelled: `saveTodos` writes to `localStorage` with `JSON.stringify`
  (script.js:31-32). Storage and the JSON codec are outside code, so the round trip
  through storage is not modelled either.
- Loading is modelled only for "nothing stored gives an empty list". `JSON.parse` of
  malformed text throws, and a stored JSON value that is truthy but not an array would
  become `todos` (script.js:13). Both depend on the outside JSON parser.
- The in-place update of `todos.unshift(newTodo)` (script.js:120) is modelled as a
  reassignment of the field. The page holds no other reference to the array, so the list
  the other handlers see is the same.
- The clock `Date.now()` (script.js:115) is not modelled; its reading is the `now`
  parameter of `Submit`. Ids are unbounded integers rather than IEEE doubles.
- The priority selector's HTML is not part of this model. `Priority` has the selector's
  three values, whereas the code stores whatever string the selector yields (script.js:111).
- Progress.ShownPercent: the shown value uses exact rational arithmetic. The code computes
  `completed / total * 100` in IEEE doubles (script.js:42), which can land just below a half.
  For 23 of 40, the code shows 57 where exact rounding gives 58.
- Progress.Round: models `Math.round` only for the non-negative arguments it receives here.
