# Task manager — a Dafny model

A model of the command-line task manager's core: the `TaskManager` object
that holds one invocation's ordered task list. It covers the recovering
load, the save, and the add, list, complete and delete operations (all in
`src/index.ts`).

- `wrappers.dfy` — module `Wrappers`: the `Option` type, used for the optional `completedAt` and for "no match".
- `tasks.dfy` — module `Tasks`: the `Task` record, the completion invariant (`completedAt` present exactly when `completed`), and the pure list operations each manager method is specified by. These are first-match lookup (`FirstMatch`, and the `FindIndex` linear search), completing the first match (`CompleteFirst`), removing the first match (`RemoveFirst`) and the pending filter (`Pending`, `Visible`). The lemmas relate these to each other and to reference definitions that walk the list recursively.
- `task_manager.dfy` — module `TaskManagement`: the class `TaskManager`. Its `tasks` field is the list, which the methods reassign. Its `writes` field logs every list written to the store file. Each mutating method returns whether it saved.
- `list_command.dfy` — module `ListCommand`: how `list` picks `showCompleted` from its `--all` option (see Findings).

Foreign calls are parameters. `uuidv4()` becomes the `id` argument of `AddTask`. `new Date()` becomes `now` (an abstract integer timestamp). Reading and parsing `tasks.json` becomes the `parsed` argument of `LoadTasks`: the parsed list, or `None` when reading or parsing failed.

`completeTask` gets the task through `find` and assigns its fields through that alias. The object is shared only with the list, so the model replaces the element at the index found by `FindIndex` (the same position `find` stops at) with the updated value.

The `--all` option's help text, 'Show all tasks including completed ones' (src/index.ts:117), says that without the option only pending tasks are shown. The code shows completed tasks in that case too. The model follows the code (see Findings).

## Model

| member | source | states |
|---|---|---|
| `Tasks.NewTask` | src/index.ts:42-47 | the new task has the given id, title and creation time, is not completed and has no completion time |
| `Tasks.FirstMatch` | src/index.ts:75 | returns a position holding the id with no earlier position holding it, or None exactly when no task has the id |
| `Tasks.FirstMatchSameIds` | src/index.ts:75 | lookup depends only on the ids in the list, so two lists with the same ids give the same first match |
| `Tasks.FindIndex` | src/index.ts:88-89 | the linear search returns -1 exactly when no task has the id, otherwise the first index whose id matches; this agrees with `FirstMatch` |
| `Tasks.CompleteFirst` | src/index.ts:75-82 | length unchanged; with no match the list is unchanged; otherwise the first match is completed with completion time `now`, keeps its id, title and creation time, and every other element is identical |
| `Tasks.RemoveFirst` | src/index.ts:88-94 | with no match the list is unchanged; otherwise the result is one shorter, the tasks before the first match keep their positions, and each task after it moves up by one |
| `Tasks.MarkCompleted` | src/index.ts:81-82 | the task becomes completed with completion time `now`, so it satisfies the invariant; its id, title and creation time are unchanged |
| `Tasks.Pending` | src/index.ts:56 | the result is no longer than the list and holds exactly the tasks of the list that are not completed |
| `Tasks.Visible` | src/index.ts:54-56 | with `showCompleted` the selection is the whole list; without it, it holds exactly the tasks that are not completed and is no longer than the list |
| `Tasks.CompleteFirstAgrees` | src/index.ts:75-82 | completing by index equals a front-to-back walk that completes the first task with the id and copies the rest |
| `Tasks.RemoveFirstAgrees` | src/index.ts:88-94 | `splice` at the first index equals a front-to-back walk that drops the first task with the id and keeps the rest |
| `Tasks.PendingAppend` | src/index.ts:56 | filtering distributes over concatenation, so it keeps the original relative order |
| `Tasks.PendingAfterAdd` | src/index.ts:48-56 | a newly added task appears at the end of the pending listing |
| `Tasks.PendingIsAll` | src/index.ts:54-56 | the pending listing equals the whole list exactly when no task is completed |
| `Tasks.PendingOfAllPending` | src/index.ts:56 | a list with no completed task passes the filter unchanged, element for element |
| `Tasks.PendingIdempotent` | src/index.ts:56 | filtering an already filtered list changes nothing |
| `Tasks.CompleteKeepsIds` | src/index.ts:81-82 | completing changes no id, so every later lookup finds the same position |
| `Tasks.CompleteOverwrites` | src/index.ts:81-82 | there is no guard against re-completing: completing at t1 and then at t2 gives the same list as completing at t2 once |
| `Tasks.CompleteLeavesPending` | src/index.ts:54-82 | with unique ids, the completed task is not in the pending listing afterwards |
| `Tasks.RemoveFirstMultiset` | src/index.ts:94 | deleting removes exactly one occurrence of the matched task from the multiset of tasks |
| `Tasks.RemoveFirstUnique` | src/index.ts:88-94 | with unique ids, after deleting no task has the id and the ids stay unique |
| `Tasks.RemoveMiddleExample` | src/index.ts:88-94 | with ids A, B, C, deleting B gives exactly the first and third tasks, in that order |
| `Tasks.AddKeepsConsistent` | src/index.ts:42-47 | adding keeps `completedAt` present exactly when `completed` |
| `Tasks.CompleteKeepsConsistent` | src/index.ts:81-82 | completing keeps `completedAt` present exactly when `completed` |
| `Tasks.RemoveKeepsConsistent` | src/index.ts:94 | deleting keeps `completedAt` present exactly when `completed` |
| `Tasks.AddKeepsUnique` | src/index.ts:42-48 | adding a task whose id is not yet used keeps ids unique |
| `Tasks.CompleteKeepsUnique` | src/index.ts:81-82 | completing keeps ids unique |
| `TaskManagement.TaskManager.constructor` | src/index.ts:22-25 | a new manager has an empty list and has written nothing |
| `TaskManagement.TaskManager.SaveTasks` | src/index.ts:37-39 | a save writes the current list to the store and changes nothing in memory |
| `TaskManagement.TaskManager.LoadTasks` | src/index.ts:27-35 | a successful parse becomes the list with no save; a failed read or parse gives the empty list, which is then saved, and that is the only save |
| `TaskManagement.TaskManager.AddTask` | src/index.ts:41-49 | always saves; the new list is the old one with the new pending task appended; the invariant and unique ids (for a fresh id) are kept |
| `TaskManagement.LineOf` | src/index.ts:64-70 | a printed line carries the task's completion status (marker and de-emphasised title), its title and its id |
| `TaskManagement.TaskManager.ListTasks` | src/index.ts:53-71 | prints the no-tasks notice exactly when the selected tasks are none; otherwise one line per selected task in order, with its status, title and id |
| `TaskManagement.TaskManager.CompleteTask` | src/index.ts:74-85 | saves exactly when some task has the id; the new list is `CompleteFirst` of the old one; with no match nothing changes and nothing is written; keeps the invariant and unique ids |
| `TaskManagement.TaskManager.DeleteTask` | src/index.ts:87-97 | saves exactly when some task has the id; the new list is `RemoveFirst` of the old one, one shorter when saved; with no match nothing changes and nothing is written; with unique ids the id is gone afterwards |
| `ListCommand.AllOption` | src/index.ts:117-120 | `options.all` is defined exactly when `--all` is given, and is then true |
| `ListCommand.ShowCompletedAsWritten` | src/index.ts:53-120 | as written, the value `listTasks` receives for `showCompleted` is always true, so the option is ignored |
| `ListCommand.ShowCompleted` | src/index.ts:117-120 | the intended choice: completed tasks are shown exactly when `--all` is given |
| `ListCommand.ListShowsEverythingAsWritten` | src/index.ts:53-120 | as written, `list` shows the whole list, completed tasks included, whether or not `--all` is given |
| `ListCommand.ListWithoutAllShowsPending` | src/index.ts:54-120 | with the intended choice, `list` without `--all` shows exactly the pending tasks and `list --all` shows the whole list |

## Left out

- Reading and writing `tasks.json` and building its path from the current directory: a parsed result is an argument of `LoadTasks`, and a write is an entry of `writes`.
- `JSON.parse` and `JSON.stringify`: the model does not check that a parse yields a list of well-formed tasks, and does not model dates becoming strings across a save and load. So the round trip through the file and the completion invariant of loaded data are not modelled. Operations keep the invariant only when the loaded list already has it.
- `uuidv4()` and `new Date()`: both are parameters. Unique ids are assumed where a lemma needs them, never enforced.
- Colours and console output: a listing is the `Listing` value; the add, complete and delete notices are the returned `saved` flag.
- An unwritable store, which makes `saveTasks` throw: every save succeeds in the model.
- The command-line wiring and `async`/`await` sequencing, apart from the `--all` choice under Findings. Races between separate invocations on the store file are also out.
- `TaskManagement.TaskManager.CompleteTask`: `find` handing back an object that aliases a list element is modelled as replacing that element by its updated value.

## Findings

| source | as written | input that shows it | evidently intended | confidence | as-written member | corrected member |
|---|---|---|---|---|---|---|
| src/index.ts:53, 117-120 | `list` passes `options.all` to `listTasks(showCompleted = true)`; without `--all` the option is undefined, so the default `true` applies | a store holding one completed task, command `list` without `--all`: the completed task is listed | without `--all` only pending tasks are listed, as the option's help text says | not executed; high (an absent boolean option is undefined, and an undefined argument takes the default) | `ListCommand.ListShowsEverythingAsWritten` | `ListCommand.ShowCompleted` |
