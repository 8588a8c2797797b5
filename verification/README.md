# Planner task store, in Dafny

This project models the task list of the Planner Bot widget (`planner-bot/src/App.jsx`).
The list is an ordered sequence of task records `{id, text, goal, done}`.
Three handlers change it: Add appends a task unless the task box is blank, clicking a task flips
its `done` flag, and Delete removes it. On every render the component derives the distinct goals,
in the order they are first seen, and for each goal its tasks, a done count and a progress
percentage.

The component's state is modelled as a record `State(tasks, input, goalInput)`, and each handler
as a pure function from state to state. The clock reading `Date.now()` that becomes a new task's
id is a parameter `id`. Ids are integers and are not assumed to be unique: toggle and delete act on
every task whose id matches, as `map` and `filter` do.

Modules:
- `Seqs` — an order-preserving `Filter` (the array `filter` method) and `Distinct`, which keeps
  first occurrences (what `[...new Set(xs)]` yields, since a JavaScript `Set` keeps insertion order).
- `Text` — `Trim`, which removes white space at both ends, over the fixed set of characters that
  ECMAScript counts as WhiteSpace or LineTerminator.
- `TaskList` — the `Task` record, `Toggle` (the `map` in the toggle handler) and `Remove` (the
  `filter` in the delete handler).
- `GoalView` — `GoalLabels` (the goal of each task, `tasks.map(t => t.goal)`), `Goals`, `GoalTasks`,
  `DoneCount`, `Progress`, the per-goal `GoalSummary`, and `SummariesOf`/`Summaries` (the `goals.map(...)`).
- `Planner` — `State`, `GoalFor` (the `goalInput || "General"` fallback) and the handlers `AddTask`,
  `ToggleDone` and `DeleteTask`.

## Model

| member | source | states |
|---|---|---|
| `Text.Trim` | planner-bot/src/App.jsx:18 | the result is a slice of the input with only white space before and after it, and it neither starts nor ends with white space |
| `Text.TrimEmptyIffBlank` | planner-bot/src/App.jsx:18 | trimming gives the empty string exactly when every character of the input is white space |
| `Planner.GoalFor` | planner-bot/src/App.jsx:21 | the goal box's contents are used when non-empty, white space included, and `"General"` when empty, so a new task's goal is never empty |
| `Planner.AddTask` | planner-bot/src/App.jsx:17-25 | a blank task box leaves the whole state unchanged; otherwise the old tasks are an unchanged prefix, the list grows by one, and the new last task has the given id, the untrimmed text, the goal given by `GoalFor`, and `done` false; both boxes become empty |
| `Planner.GoalsAfterAddTask` | planner-bot/src/App.jsx:17-35 | a successful add appends the new task's goal to the goals when no earlier task had it and leaves them unchanged otherwise; a rejected add leaves them unchanged |
| `TaskList.Toggle` | planner-bot/src/App.jsx:28 | length, order and every id, text and goal are kept, and `done` flips exactly at the positions whose id equals the given id |
| `TaskList.ToggleTwice` | planner-bot/src/App.jsx:28 | toggling the same id twice gives back the original list |
| `TaskList.ToggleAbsent` | planner-bot/src/App.jsx:28 | toggling an id that no task carries leaves the list unchanged |
| `Planner.ToggleDone` | planner-bot/src/App.jsx:27-29 | only the task list changes; its length, order, ids, texts and goals stay and `done` flips exactly where the id matches |
| `Planner.ToggleDoneTwice` | planner-bot/src/App.jsx:27-29 | clicking the same task twice restores the whole state |
| `TaskList.Remove` | planner-bot/src/App.jsx:32 | no task with the given id is left, every task with another id is kept, and no task appears that was not there before |
| `TaskList.RemoveKeepsOrder` | planner-bot/src/App.jsx:32 | the kept tasks are exactly those at the positions whose id differs from the given id, in ascending order of position |
| `TaskList.RemoveIdempotent` | planner-bot/src/App.jsx:32 | removing the same id twice is the same as removing it once |
| `TaskList.RemoveAbsent` | planner-bot/src/App.jsx:32 | removing leaves the list unchanged exactly when no task carries the id |
| `Planner.DeleteTask` | planner-bot/src/App.jsx:31-33 | only the task list changes; no task with the id is left, all other tasks are kept, nothing new appears |
| `Planner.DeleteTaskIdempotent` | planner-bot/src/App.jsx:31-33 | deleting twice equals deleting once, and deleting an absent id leaves the state unchanged |
| `Seqs.Filter` | planner-bot/src/App.jsx:32 | the result is no longer than the input and holds exactly the input's elements that satisfy the condition |
| `Seqs.FilterKeepsOrder` | planner-bot/src/App.jsx:32 | the result is the subsequence at the strictly increasing positions whose element satisfies the condition, all of them |
| `Seqs.FilterIdempotent` | planner-bot/src/App.jsx:32 | filtering a filtered sequence again by the same condition changes nothing |
| `Seqs.FilterIdentity` | planner-bot/src/App.jsx:32 | filtering leaves a sequence unchanged exactly when every element satisfies the condition |
| `Seqs.Distinct` | planner-bot/src/App.jsx:35 | the result has no repeated element and holds exactly the elements of the input |
| `Seqs.DistinctFirstSeenOrder` | planner-bot/src/App.jsx:35 | the result lists its elements in the order of their first occurrence in the input |
| `GoalView.GoalLabels` | planner-bot/src/App.jsx:35 | one label per task, position by position: the goal of the task at that position |
| `GoalView.Goals` | planner-bot/src/App.jsx:35 | no goal is listed twice, and a goal is listed exactly when some task carries it |
| `GoalView.GoalsFirstSeenOrder` | planner-bot/src/App.jsx:35 | goals are listed in the order in which the first task of each goal appears |
| `GoalView.GoalsAfterToggle` | planner-bot/src/App.jsx:27-35 | toggling leaves the goals unchanged |
| `GoalView.GoalsAfterAppend` | planner-bot/src/App.jsx:19-35 | appending a task appends its goal to the goals when it is new and leaves them unchanged otherwise |
| `GoalView.GoalsAfterRemove` | planner-bot/src/App.jsx:31-35 | after a delete a goal is still listed exactly when one of its tasks has another id, so deleting the only task of a goal drops that goal |
| `GoalView.GoalTasks` | planner-bot/src/App.jsx:56 | a goal's task list holds exactly the tasks that carry that goal |
| `GoalView.GoalTasksKeepsOrder` | planner-bot/src/App.jsx:56 | a goal's task list is exactly the tasks at the positions carrying that goal, in ascending order of position, repeats included |
| `GoalView.DoneCount` | planner-bot/src/App.jsx:57 | the done count is at most the number of tasks, equals it exactly when every task is done, and is 0 exactly when none is |
| `GoalView.DoneCountAppend` | planner-bot/src/App.jsx:57 | the done count of two lists put together is the sum of their done counts |
| `GoalView.DoneCountSingle` | planner-bot/src/App.jsx:57 | a single task counts 1 when done and 0 otherwise, which with DoneCountAppend fixes the count of every list |
| `GoalView.ProgressOneOfThree` | planner-bot/src/App.jsx:57-58 | a goal of three tasks with one done has progress exactly 100/3 |
| `GoalView.Progress` | planner-bot/src/App.jsx:58 | with at most as many done tasks as tasks, progress lies in [0, 100] and is 100 exactly when there are tasks and all are done; it is 0 exactly when there are no tasks or none is done |
| `GoalView.Summarize` | planner-bot/src/App.jsx:55-58 | a goal's summary holds exactly its tasks, a done count no larger than their number, and a progress in [0, 100] that is 100 exactly when the goal has tasks and all are done; a listed goal has at least one task |
| `GoalView.SummariesOf` | planner-bot/src/App.jsx:55-58 | one summary per given goal, in the given order, each the summary of that goal |
| `GoalView.Summaries` | planner-bot/src/App.jsx:55-58 | there is one summary per listed goal, in goal order, and none has an empty task list |
| `GoalView.GroupsPartition` | planner-bot/src/App.jsx:55-58 | for goals without repetition that cover every task, the group sizes add up to the number of tasks and the group done counts to the number of done tasks |
| `GoalView.SummariesPartition` | planner-bot/src/App.jsx:55-58 | the goal groups' task-list lengths add up to the length of the task list, and their done counts to the number of done tasks |

## Left out

- Loading the list from `localStorage` and saving it after each change, with JSON encoding (App.jsx lines 5-8 and 13-15). This is browser I/O, so the initial list is an arbitrary sequence.
- The React hooks. Each handler is a pure function from one `State` to the next, and the derived views are functions of the task list.
- The input boxes' change handlers (App.jsx lines 45 and 50) only copy the typed text into `input` and `goalInput`. Here those fields are simply part of the state passed in.
- The rendering, CSS classes and the progress bar's width string (App.jsx lines 37-84). This is presentation.
- The commented-out copy of the component (App.jsx lines 96-186). It is dead code.
- The schedule endpoint in `planner-bot/src/server.js`. It builds a prompt and makes one network call to an external completion service, so it is I/O around a foreign library.
- Floating-point rounding of the progress percentage. `Progress` is computed on `real`.
- Exact JavaScript `Date.now()` values. The id is a parameter, and nothing assumes ids are unique.
- Priorities, due dates, overdue checks, filter modes and a count of remaining tasks. These are described for the widget, but the component's code has none of them, so the model follows the code.
- JavaScript strings are sequences of UTF-16 code units. Here a string is a sequence of Unicode scalar values. `Trim` strips the ECMAScript white-space and line-terminator characters, with the space separators listed explicitly.
