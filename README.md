# ZenTask to-do list: a Dafny model of the `TodoApp` state logic

ZenTask is a single-page to-do list written as one React component, `TodoApp`.
This project models the component's task-list logic and proves properties about it.
That logic covers adding and updating a task from the draft fields, starting an edit,
deleting and toggling one task, marking all done, and clearing completed tasks.
It also covers the filtered and searched view and the three counts shown in the chart.

The model has four modules:

- `Seqs` (`seqs.dfy`) holds a generic `Filter`, which models JavaScript's `Array.prototype.filter`.
  It also defines `IsSubseq`, meaning "an in-order sublist of".
- `Text` (`text.dfy`) holds the string operations the component calls: `trim`, `toLowerCase` and `includes`.
- `TaskList` (`task_list.dfy`) holds the task record and the pure list transformations.
  These are the `map`/`filter` expressions of the handlers, the `filteredTasks` view and the `taskStats` counts.
- `TodoApp` (`todo_app.dfy`) holds the component state as a value, `AppState`.
  `Submit` and `BeginEdit` are pure transitions for `addOrUpdate` and `editTask`.
  The class `TodoApp` keeps the same state cells as fields.
  Its methods update those fields one setter at a time.
  Each method's postcondition ties the new state to the pure transition.

Each React handler is modelled as one atomic transition.
The clock value that `Date.now()` would supply is passed to `AddOrUpdate` and `Submit` as `freshId`.

Behaviour of the code that the model keeps as written:

- Updating with no task carrying the edit target's id renames nothing and still clears `editId`.
- The stored name is the untrimmed draft. Only the blank check trims.
- Editing an unknown id throws a `TypeError`, because `selected` is undefined. This happens before any state cell changes. The model returns "not found" and leaves the state unchanged.
- Ids come from the clock, so nothing in the code makes them unique. Uniqueness is proved only for clock values new to the list.
- A malformed stored list is not guarded against (`JSON.parse` would throw). Persistence is outside the model.

## Model

| member | source | states |
|---|---|---|
| `Seqs.Filter` | src/index.js:48 | `filter` returns an in-order sublist whose elements all pass, and it keeps every element of the input that passes |
| `Seqs.FilterCount` | src/index.js:48 | `filter` keeps every passing value exactly as many times as it occurs in the input, and no other value |
| `Seqs.FilterKeepsAll` | src/index.js:48 | filtering with a predicate every element passes returns the list unchanged |
| `Seqs.FilterKeepsNone` | src/index.js:67-69 | filtering with a predicate no element passes returns the empty list |
| `Seqs.FilterIdempotent` | src/index.js:67-69 | filtering twice with one predicate equals filtering once |
| `Seqs.FilterAgree` | src/index.js:72-78 | two predicates that agree on every element give the same filtered list |
| `Seqs.FilterPartition` | src/index.js:81-85 | the lengths of a list filtered by a predicate and by its negation add up to the list's length |
| `Seqs.SubseqTransitive` | src/index.js:72-78 | a sublist of a sublist is a sublist, so two chained filters still give an in-order sublist |
| `Text.TrimStartSpec` | src/index.js:30 | the result is a suffix of the input, everything dropped is white space, and the result does not start with white space |
| `Text.TrimEndSpec` | src/index.js:30 | the result is a prefix of the input, everything dropped is white space, and the result does not end with white space |
| `Text.TrimSpec` | src/index.js:30 | `trim` returns a slice with only white space outside it and none at either end, and it is empty exactly when the input is all white space |
| `Text.TrimIdempotent` | src/index.js:30 | trimming an already trimmed string changes nothing |
| `Text.BlankIffAllSpace` | src/index.js:30 | `input.trim() === ""` holds exactly when every character of the draft is white space |
| `Text.SpaceAscii` | src/index.js:30 | among ASCII characters, the white space `trim` removes is exactly tab, line feed, vertical tab, form feed, carriage return and space; no letter or digit is white space |
| `Text.ToLower` | src/index.js:78 | `toLowerCase` keeps the length, leaves no upper-case ASCII letter, and changes only upper-case letters to their lower-case form |
| `Text.ToLowerIdempotent` | src/index.js:78 | lower-casing twice equals lower-casing once |
| `Text.IncludesIffOccurs` | src/index.js:78 | `includes` holds exactly when the search text occurs at some index of the name |
| `Text.IncludesInfix` | src/index.js:78 | a string includes every infix of itself, and nothing longer than itself |
| `Text.IncludesEmpty` | src/index.js:78 | every string includes the empty search text |
| `TaskList.Delete` | src/index.js:48 | `deleteTask` gives the in-order sublist of tasks whose id differs; no remaining task has the id; an absent id changes nothing; a present id shortens the list; every other task keeps its number of occurrences |
| `TaskList.Toggle` | src/index.js:57-61 | `toggleComplete` keeps length, ids, names and due dates, and flips `completed` exactly on the tasks with the id; an absent id changes nothing |
| `TaskList.MarkAll` | src/index.js:63-65 | `markAllDone` keeps length, ids, names and due dates, and every task is completed afterwards |
| `TaskList.ClearCompleted` | src/index.js:67-69 | `clearCompleted` gives the in-order sublist of exactly the not-completed tasks, each as often as in the input, and its length is the 'Active' count |
| `TaskList.Rename` | src/index.js:32-34 | the update branch keeps length, ids and flags; tasks with the edit id take the draft name and due date; others are unchanged; no match changes nothing |
| `TaskList.Find` | src/index.js:51 | `find` returns nothing exactly when no task has the id; otherwise it returns the first task with that id |
| `TaskList.ParseFilter` | src/index.js:73-77 | "active" and "completed" select those modes, and any other filter value shows all tasks |
| `TaskList.ShownModes` | src/index.js:73-77 | the mode filter shows every task under "all", and "active" and "completed" each show exactly the tasks the other hides |
| `TaskList.NameMatchesIgnoresCase` | src/index.js:78 | the search match ignores the case of the search text and of the name, and every task is found by its own name |
| `TaskList.Visible` | src/index.js:72-78 | `filteredTasks` is an in-order sublist holding exactly the tasks the mode shows whose lower-cased name includes the lower-cased search text, each as often as in the list |
| `TaskList.Stats` | src/index.js:81-85 | the total is the list length, and Active + Completed == Total |
| `TaskList.ToggleTwice` | src/index.js:57-61 | toggling the same id twice restores the original list |
| `TaskList.MarkAllIdempotent` | src/index.js:63-65 | marking all done twice equals marking all done once |
| `TaskList.MarkAllStats` | src/index.js:63-65 | after marking all done, Active is 0 and Completed equals Total |
| `TaskList.ClearCompletedIdempotent` | src/index.js:67-69 | clearing completed tasks twice equals clearing them once |
| `TaskList.ClearCompletedStats` | src/index.js:67-69 | after clearing, Completed is 0 and Active equals Total |
| `TaskList.VisibleEmptySearch` | src/index.js:72-78 | with empty search, "all" shows every task, and "active" and "completed" show the not-completed and completed tasks in order, whose counts add up to the total |
| `TaskList.SearchIgnoresCase` | src/index.js:78 | a task named "Buy Milk" matches the search texts "milk" and "MILK" |
| `TaskList.OperationsKeepUniqueIds` | src/index.js:29-69 | delete, toggle, mark-all, clear-completed and rename keep ids unique, and so does appending a task whose id is new |
| `TaskList.FilterKeepsUniqueIds` | src/index.js:67-69 | filtering a list with unique ids leaves them unique |
| `TodoApp.InitialView` | src/index.js:8-18 | on mount the view shows every saved task, nothing is being edited, and submitting the empty draft changes nothing |
| `TodoApp.DraftDateRestores` | src/index.js:53 | `selected.dueDate \|\| ""` gives back a present due date unchanged and turns an absent one into "" |
| `TodoApp.Submit` | src/index.js:29-46 | a blank draft name changes nothing. Adding appends one not-completed task with the draft and fresh id, and leaves earlier tasks in place. Updating keeps length, order, ids and flags and rewrites only tasks with the edit id. In both cases the draft is reset and `editId` is cleared, even with no match |
| `TodoApp.BeginEdit` | src/index.js:50-55 | `editTask` fails exactly when no task has the id. Otherwise the tasks are unchanged, the edit target is the id, and the draft holds the first matching task's name and its due date or "" |
| `TodoApp.EditThenSubmit` | src/index.js:29-55 | with unique ids, starting an edit and submitting the untouched draft gives back the same task list, when the task has a due date |
| `TodoApp.SubmitKeepsUniqueIds` | src/index.js:29-46 | `addOrUpdate` keeps ids unique when the clock value is new to the list |
| `TodoApp.AddAllCountsAndIds` | src/index.js:29-46 | outside edit mode, a run of additions adds one task per non-blank name and keeps ids unique when clock values are distinct and new |
| `TodoApp.ExampleSession` | src/index.js:29-85 | the session add "Write spec", add "Review PR", toggle the first gives counts 1/1/2, and the active view is exactly "Review PR" |
| `TodoApp.TodoApp.constructor` | src/index.js:8-18 | on mount, tasks come from storage, the draft and search are empty, there is no edit target, and the filter is "all" |
| `TodoApp.TodoApp.SetInput` | src/index.js:110 | the name field sets `input` and nothing else |
| `TodoApp.TodoApp.SetDueDate` | src/index.js:118 | the date field sets `dueDate` and nothing else |
| `TodoApp.TodoApp.SetSearch` | src/index.js:100 | the search field sets `search` and nothing else |
| `TodoApp.TodoApp.SetFilter` | src/index.js:131 | a filter button sets `filter` and nothing else |
| `TodoApp.TodoApp.AddOrUpdate` | src/index.js:29-46 | the new state is `Submit` of the old state and the clock value |
| `TodoApp.TodoApp.EditTask` | src/index.js:50-55 | reports whether a task has the id; if so the new state is `BeginEdit` of the old one, otherwise nothing changes |
| `TodoApp.TodoApp.DeleteTask` | src/index.js:48 | only `tasks` changes, to `Delete` of the old list |
| `TodoApp.TodoApp.ToggleComplete` | src/index.js:57-61 | only `tasks` changes, to `Toggle` of the old list |
| `TodoApp.TodoApp.MarkAllDone` | src/index.js:63-65 | only `tasks` changes, to `MarkAll` of the old list |
| `TodoApp.TodoApp.ClearCompletedTasks` | src/index.js:67-69 | only `tasks` changes, to `ClearCompleted` of the old list |
| `TodoApp.TodoApp.FilteredTasks` | src/index.js:72-78 | the view of the current state is an in-order sublist of exactly the tasks the current filter shows and the current search matches, each as often as in the list |
| `TodoApp.TodoApp.TaskStats` | src/index.js:81-85 | the counts of the current state satisfy Active + Completed == Total == number of tasks |

## Left out

- Persistence (src/index.js:8-11, 20-22): reading and writing `localStorage` with `JSON.parse`/`JSON.stringify` is browser I/O. The constructor takes the loaded list as a parameter. Malformed stored JSON is not modelled, and neither is the save/load round trip.
- Id generation (src/index.js:38): `Date.now()` is a clock read and is a parameter here. The code does not guarantee distinct ids, so uniqueness is proved only for clock values new to the list.
- Theme toggle and body class (src/index.js:17, 24-26, 91-94): DOM side effects.
- Rendering: the JSX, the `TaskItem` component, the chart, the inline CSS and the locale-dependent date display are UI.
- Text.ToLower: maps only the ASCII letters A-Z, because JavaScript's full Unicode case mapping (including mappings that change length) is not modelled.
- Text.IsSpace: uses the ECMAScript white-space and line-terminator code points as of Unicode 15; later Unicode versions may add space separators.
- React `useState`/`useEffect` mechanics (batching, re-render timing): each handler is treated as one atomic state transition on the values it read.
- Due dates are free-form strings; they are never parsed or compared.
- Strings: JavaScript strings are sequences of UTF-16 code units, while Dafny's `string` is a sequence of Unicode scalar values. `trim`, the ASCII part of `toLowerCase` and `includes` agree on the two views for well-formed text; lone surrogates are not modelled.
