# To-do list task ledger, modelled in Dafny

This project models the in-memory task ledger of a desktop to-do list
application, the class `TaskManager`. The ledger owns three containers:

- `tasks`: the open tasks in display order. The same task may appear more than once.
- `actionStack`: the undo history. It records the tasks touched by add, edit and delete.
- `completedQueue`: a first-in-first-out queue of completed tasks.

The repository holds two copies of this class. `TaskManager.java` is one.
`Task.java` is the other: despite its name, it declares `class TaskManager` again.
Both copies have the same ledger methods line for line (`Task.java:15-81` against
`TaskManager.java:18-84`). They differ only in `isValidDate`, which is not
modelled here. The one Dafny class below models both copies; the table cites
`TaskManager.java`.

Modules:

- `Tasks` (`tasks.dfy`):
  - the `Task` value: name, due date and priority, all strings;
  - `Option`, which stands for the Java `null` result;
  - `EqualsIgnoreCase` and `Matches`, the criterion that search uses.
- `Sequences` (`sequences.dfy`): the two `java.util.List` operations the ledger
  relies on.
  - `IndexOf` gives the first occurrence.
  - `RemoveFirst` is `remove(Object)`. It deletes the element at `IndexOf`.
- `Ledger` (`task_manager.dfy`): the class `TaskManager`.
  - Each container is a `seq<Task>` field that the methods reassign.
  - The stack's top is its last element, as in `java.util.Stack`.
  - The queue's head is its first element.
  - Each method's `ensures` gives the whole new state in terms of the old one.
  - `GetTasks` and `GetCompletedQueue` are read-only accessors. They return the
    current sequences as values.
- `LedgerScenarios` (`ledger_scenarios.dfy`): client methods. They are proved
  from the operations' contracts alone. They show that undo replays the history
  instead of reversing operations, that completion is first-in-first-out, and how
  the first-match search behaves.

Task equality is value equality of the three fields. This is an assumption: the
`Task` class is not part of this model. `indexOf`, `remove` and `contains` use
its `equals`, and the model assumes that compares the fields.

The code does not keep completed tasks out of the open list.
`LedgerScenarios.CompletedTaskReopened` shows a task that is both open and
completed. `searchTask` returns only the first task whose name or due date
equals the keyword, ignoring case.

## Model

| member | source | states |
|---|---|---|
| `Tasks.EqualsIgnoreCase` | TaskManager.java:69-70 | `equalsIgnoreCase` holds exactly when both strings are equal once every character is case-folded; equal strings always compare equal |
| `Tasks.Matches` | TaskManager.java:69-70 | a task matches a keyword equal to its name or due date; a matching keyword has the length of the name or of the due date |
| `Tasks.EqualsIgnoreCaseIsEquivalence` | TaskManager.java:69-70 | comparing keywords while ignoring case is reflexive, symmetric and transitive |
| `Tasks.MatchesIgnoresKeywordCase` | TaskManager.java:67-71 | two keywords that differ only in case select the same tasks |
| `Sequences.IndexOf` | TaskManager.java:26 | `indexOf` returns -1 exactly when the task is absent; otherwise it returns the position of an equal task with no equal task before it |
| `Sequences.RemoveFirst` | TaskManager.java:35 | `remove(Object)` leaves the list unchanged when the task is absent; otherwise it removes the element at the first index holding the task, keeping the elements before and after it in order, so the list is one shorter and every other element keeps its count |
| `Ledger.TaskManager.constructor` | TaskManager.java:12-16 | a new ledger has no open tasks, an empty history and an empty completed queue |
| `Ledger.TaskManager.PeekLastAction` | TaskManager.java:54-59 | returns None exactly when the history is empty, and otherwise returns its top; it reads state only |
| `Ledger.TaskManager.GetTasks` | TaskManager.java:77-79 | returns the current open tasks, in display order |
| `Ledger.TaskManager.GetCompletedQueue` | TaskManager.java:82-84 | returns the current completed tasks, oldest first |
| `Ledger.TaskManager.AddTask` | TaskManager.java:19-22 | the task is pushed and appended, so it occurs once more than before and is the top of the history; the completed queue is unchanged |
| `Ledger.TaskManager.EditTask` | TaskManager.java:25-31 | when the old task is open, only its first occurrence is replaced, at the same index, and the new task is pushed; otherwise nothing changes and nothing is pushed; the length never changes |
| `Ledger.TaskManager.DeleteTask` | TaskManager.java:34-37 | removes the first occurrence of the task if any, and pushes the task even when it was absent |
| `Ledger.TaskManager.CompleteTask` | TaskManager.java:40-43 | removes the first occurrence of the task if any, and appends the task to the completed queue in every case; the history is untouched |
| `Ledger.TaskManager.UndoLastAction` | TaskManager.java:46-51 | on an empty history nothing changes; otherwise exactly the top entry is popped and appended to the open tasks only if it is not already open, so afterwards it is open |
| `Ledger.TaskManager.DequeueCompleted` | TaskManager.java:62-64 | returns None on an empty queue; otherwise removes and returns the head; the open tasks and the history are unchanged |
| `Ledger.TaskManager.SearchTask` | TaskManager.java:67-74 | returns None exactly when no open task's name or due date equals the keyword ignoring case; otherwise returns the earliest open task that matches |
| `LedgerScenarios.AddThenUndo` | TaskManager.java:19-51 | for every task: after add then undo, the history is as before and the task stays appended at the end, open once more than before (so exactly once when it was not open) |
| `LedgerScenarios.DeleteThenUndo` | TaskManager.java:34-51 | after delete then undo, the history is as before and the task is open. A task that was open at most once is now at the end. If it was open more than once, one copy is lost |
| `LedgerScenarios.EditThenUndo` | TaskManager.java:25-51 | after edit then undo of an open task, the history is as before but the edit is not reverted |
| `LedgerScenarios.EditMissThenUndo` | TaskManager.java:25-51 | an edit of a task that is not open pushes nothing, so the following undo pops the older entry below it: with no open tasks and history [prev], it leaves prev open and the history empty |
| `LedgerScenarios.UndoOnEmptyHistory` | TaskManager.java:46-59 | undo on an empty history leaves the tasks and the queue unchanged, and peek still returns None |
| `LedgerScenarios.CompleteThenDequeue` | TaskManager.java:40-64 | completing a, then b, on an empty queue, then dequeuing three times yields a, b, None: first-in-first-out order |
| `LedgerScenarios.UndoLosesPosition` | TaskManager.java:19-51 | starting empty: add a, add b, delete a, undo leaves [b, a], so the original order is not restored |
| `LedgerScenarios.SearchExample` | TaskManager.java:67-74 | with "Write report" (2025-01-10) and "Buy milk" (2025-01-05) added, "buy milk" finds the second task, "2025-01-10" finds the first and "nonexistent" finds nothing |
| `LedgerScenarios.CompletedTaskReopened` | TaskManager.java:19-51 | starting empty: add t, complete t, undo leaves t both open and completed |
| `LedgerScenarios.SearchIgnoresKeywordCase` | TaskManager.java:67-74 | two keywords that differ only in case find the same task, or both find nothing |

## Left out

- `isValidDate` is left out of both copies (`TaskManager.java:86-96`, `Task.java:84-91`).
  - It wraps library date parsers that are not part of this model.
  - `DateTimeFormatter` resolves an out-of-range day such as 2024-02-30 to the last day of the month.
  - `SimpleDateFormat` is lenient.
  - The model therefore claims nothing about which date strings are accepted.
- `getTasks` and `getCompletedQueue` return the live mutable Java collections. A caller can change the ledger through them. The model's `GetTasks` and `GetCompletedQueue` return the current values instead, so aliasing is not modelled.
- `Tasks.EqualsIgnoreCase` folds only the ASCII letters A-Z. `String.equalsIgnoreCase` also folds other Unicode letters.
- A `null` keyword passed to `searchTask` is not modelled. In Java it matches nothing. The GUI never passes one.
- A `null` task is not modelled: a Dafny `Task` is always a value. In Java the three containers accept `null`. Once a `null` task is open, `searchTask` throws a `NullPointerException` when its scan reaches it (`TaskManager.java:69`). `peekLastAction` (`TaskManager.java:56`) returns `null` when the top of the history is `null`, although the history is not empty. `dequeueCompleted` (`TaskManager.java:63`) does the same when the head of the queue is `null`. The GUI never passes a `null` task: it checks the selection (`ToDoListApp.java:98`, `120`, `128`) and builds each new task with `new Task` (`ToDoListApp.java:87`, `112`).
- `null` task fields are not modelled either. The GUI always builds tasks from non-null text.
- The Swing user interface (`ToDoListApp.java`) is not part of this model. This includes its own mirror of the task list and its field checks.
- Task priority normalisation and field validation are not modelled. The ledger does neither.
