# To-do list: the Home page's task collection and the row editor

This project models the logic of a small React Native to-do app.

The Home page owns an ordered list of tasks. Each task is `{id, title, done}`. The page changes the list through four handlers:

- **add** rejects a title that is already in the list and otherwise appends a new task that is not done;
- **toggle** flips `done` on the task with the given id;
- **remove** shows a confirmation prompt and filters the task out only when the user answers yes;
- **edit** gives the task with the given id a new title, with no duplicate check.

An unknown id makes toggle, remove and edit do nothing. Each row of the list (TaskItem) holds two pieces of editing state: `isEditing` and the text buffer `taskValueEdited`. A row reaches the page only through callbacks, which are modelled here as intents.

Files:

- `tasks.dfy`, module `Tasks`: the `Task` record, the `Intent` type, the lookups (`find`), the four list transforms (`map`, `filter`, spread) as functions over `seq<Task>`, and the lemmas about them.
- `home.dfy`, module `Pages`: class `Home`. It holds `tasks` and the pending remove prompt. Each handler is a method whose `ensures` ties the new list to a transform of the old list. `Valid()` (ids unique) is kept by every method, so ids stay unique across any sequence of handler calls in which every add gets a fresh id. `SubmitRowEdit` composes a row's submit with the page's edit.
- `task_item.dfy`, module `Components`: class `TaskItem`. Its fields are `isEditing` and `taskValueEdited`, and its methods are the row's handlers and its two press guards.

The header counter is `Home.TasksCounter()`, the length of the list. The `ensures` of the handlers state how each handler changes it.

Two points about removal and titles:

- A confirmed remove drops every task carrying the id, one per such task (`Remove`'s length clause). With unique ids, that is exactly one task for a present id (`RemoveDropsOne`).
- Nothing, in the app or the model, keeps titles non-empty.

## Model

| member | source | states |
|---|---|---|
| `Tasks.FindByTitle` | src/pages/Home.tsx:18 | finds a task exactly when some task has that title; the task found has that title and is the first such task in the list |
| `Tasks.FindById` | src/pages/Home.tsx:35 | finds a task exactly when some task has that id; the task found is the first one carrying the id |
| `Tasks.Add` | src/pages/Home.tsx:16-32 | a title already present leaves the list unchanged; otherwise the list grows by one, the old tasks are an unchanged prefix, and the last task is `{freshId, title, done: false}` |
| `Tasks.Toggle` | src/pages/Home.tsx:36-41 | same length, same ids and titles; `done` is flipped exactly on the tasks whose id matches and kept on all others |
| `Tasks.Remove` | src/pages/Home.tsx:55 | the result is a subsequence of the list, in original order; no kept task has the id; its length is the list's length minus the number of tasks with the id |
| `Tasks.Edit` | src/pages/Home.tsx:68-74 | same length, ids and `done` flags; the title becomes the new one exactly on the tasks whose id matches |
| `Tasks.AddKeepsIdsUnique` | src/pages/Home.tsx:25-31 | adding with an id not in the list keeps ids unique |
| `Tasks.AddKeepsTitlesDistinct` | src/pages/Home.tsx:18-31 | because of the duplicate check, adding never makes two titles equal |
| `Tasks.EditCanDuplicateTitle` | src/pages/Home.tsx:66-77 | edit makes no duplicate check: editing task 2 of `[A, B]` to "A" gives two tasks titled "A" |
| `Tasks.ToggleUnknownIdIsNoOp` | src/pages/Home.tsx:35 | toggling an id that is not in the list leaves the list unchanged |
| `Tasks.ToggleTwiceRestores` | src/pages/Home.tsx:36-41 | toggling the same id twice restores the original list |
| `Tasks.ToggleFlipsOne` | src/pages/Home.tsx:36-41 | with unique ids, toggling the id of the task at index k flips that task's `done` and changes nothing else |
| `Tasks.ToggleKeepsIdsUnique` | src/pages/Home.tsx:36-43 | toggle keeps ids unique |
| `Tasks.EditUnknownIdIsNoOp` | src/pages/Home.tsx:67 | editing an id that is not in the list leaves the list unchanged |
| `Tasks.EditSetsTitle` | src/pages/Home.tsx:66-77 | after editing a present id, looking the id up finds a task with the new title |
| `Tasks.EditRetitlesOne` | src/pages/Home.tsx:68-74 | with unique ids, editing the id of the task at index k changes that task's title and nothing else |
| `Tasks.EditKeepsIdsUnique` | src/pages/Home.tsx:68-76 | edit keeps ids unique |
| `Tasks.CountIdUnique` | src/pages/Home.tsx:55 | with unique ids, a present id is carried by exactly one task |
| `Tasks.RemoveUnknownIdIsNoOp` | src/pages/Home.tsx:55 | filtering out an id that is not in the list leaves the list unchanged |
| `Tasks.RemoveDropsOne` | src/pages/Home.tsx:55 | with unique ids, removing a present id shortens the list by exactly one and leaves no task with that id |
| `Tasks.RemoveKeepsIdsUnique` | src/pages/Home.tsx:55 | remove keeps ids unique |
| `Tasks.FilterUnique` | src/pages/Home.tsx:55 | any list meeting Remove's contract equals Remove's result, so that contract characterises the filter exactly |
| `Tasks.AddAllAppends` | src/pages/Home.tsx:16-32 | a run of adds whose titles are new and pairwise distinct appends one not-done task per add, in call order, with the given ids |
| `Tasks.ScenarioDuplicateAdd` | src/pages/Home.tsx:18-23 | adding "Buy milk" twice leaves the single task `{1, "Buy milk", false}` |
| `Tasks.ScenarioToggleKeepsOrder` | src/pages/Home.tsx:34-45 | add A, add B, toggle A gives `[{A, done}, {B, not done}]` |
| `Tasks.ScenarioRemoveAndEdit` | src/pages/Home.tsx:55 | after adding A, a confirmed remove gives the empty list, and editing A to "A2" keeps its id and flag |
| `Pages.Home.TasksCounter` | src/pages/Home.tsx:82 | the header count is the length of the list; with unique ids it is also the number of distinct ids, so each task is counted once |
| `Tasks.UniqueIdsCount` | src/pages/Home.tsx:82 | with unique ids, the list has as many tasks as distinct ids |
| `Pages.Home.constructor` | src/pages/Home.tsx:14 | the page starts with an empty list and no prompt |
| `Pages.Home.HandleAddTask` | src/pages/Home.tsx:16-32 | rejected exactly when the title is already present; the new list is `Add` of the old one; the counter grows by one exactly when the add is not rejected; ids stay unique |
| `Pages.Home.HandleToggleTaskDone` | src/pages/Home.tsx:34-45 | the new list is `Toggle` of the old one, including for an unknown id; the counter is unchanged |
| `Pages.Home.RequestRemove` | src/pages/Home.tsx:47-63 | a prompt is shown exactly when the id is in the list; the list is unchanged |
| `Pages.Home.ConfirmRemove` | src/pages/Home.tsx:53-56 | the list becomes `Remove` of it for the prompted id and the prompt closes; the counter drops by one when that id was present |
| `Pages.Home.DeclineRemove` | src/pages/Home.tsx:57-59 | the prompt closes and the list is unchanged |
| `Pages.Home.HandleEditTask` | src/pages/Home.tsx:66-78 | the new list is `Edit` of the old one, including for an unknown id; the counter is unchanged |
| `Pages.Home.Dispatch` | src/pages/Home.tsx:86-91 | a row's intent reaches the matching handler: toggle and edit change the list as `Toggle` and `Edit`; remove leaves the list as it is and raises a prompt for that id exactly when the id is present; otherwise the pending prompt is unchanged |
| `Pages.SubmitRowEdit` | src/components/TaskItem.tsx:35-43 | a row's submit followed by the page's edit gives the task at index k the row's buffer as its title and changes no other task; the row leaves editing with a buffer equal to the task's title; the pending prompt is unchanged |
| `Pages.TrashRowTask` | src/components/TaskItem.tsx:105-108 | a row's trash press routed through `Dispatch` and confirmed removes the row's task, shortening the list by one and leaving its id absent; while the row is editing nothing is emitted and the list and prompt are unchanged |
| `Components.TaskItem.constructor` | src/components/TaskItem.tsx:22-23 | a row starts not editing, with the buffer holding the task's title |
| `Components.TaskItem.HandleStartEditing` | src/components/TaskItem.tsx:26-28 | editing starts; the buffer is unchanged |
| `Components.TaskItem.HandleCancelEditing` | src/components/TaskItem.tsx:30-33 | editing stops and the buffer is reset to the task's stored title |
| `Components.TaskItem.HandleSubmitEditing` | src/components/TaskItem.tsx:35-43 | emits exactly `EditTask(task.id, buffer)` and stops editing; the buffer keeps the submitted text |
| `Components.TaskItem.OnChangeText` | src/components/TaskItem.tsx:75-76 | the buffer becomes the typed text; the editing flag is unchanged |
| `Components.TaskItem.PressMarker` | src/components/TaskItem.tsx:58-61 | pressing the marker emits a toggle for the row's task in either mode |
| `Components.TaskItem.PressTrash` | src/components/TaskItem.tsx:105-108 | pressing the trash emits a remove for the row's task exactly when the row is not editing |

## Left out

- Rendering, styles, icons, `ItemWrapper`, opacity and layout are view code. So are the `TasksList`, `Header` and `TodoInput` components. The header's count is modelled as `TasksCounter`.
- The alert dialogs are not modelled as UI. The duplicate-title notice is the `rejected` result of `HandleAddTask`. The remove prompt is the `removePrompt` field, answered by `ConfirmRemove` or `DeclineRemove`. The dialogs' text is not modelled.
- `Pages.Home.HandleAddTask`: the id comes from the clock (`new Date().getTime()`). It is modelled as a parameter that the caller must supply and that must not already be in the list. Two adds within the same millisecond could share an id in the app; the precondition rules this out.
- `Pages.Home.ConfirmRemove`: the app's "yes" continuation filters the list captured when the prompt opened. The model filters the list current at confirmation. The prompt is modal and blocks every other handler until it is answered, so the two lists are the same.
- `Pages.Home.RequestRemove`: a second request while a prompt is open replaces the pending id. In the app the modal prompt prevents such a request.
- In-place mutation and aliasing are not modelled. The app sets `task.done` and `task.title` on the shared task objects inside `map`. The model treats tasks as values and builds a new list.
- React semantics are not modelled: render timing, batching, and `setTasks` with an updater versus a value. Each handler is one atomic step on the current list.
- Focus and blur of the text field (the `useEffect` on `isEditing`) are left out. They act on the native field and change no modelled state.
- `Components.TaskItem.OnChangeText`, `HandleCancelEditing` and `HandleSubmitEditing` are modelled without a precondition, as the handlers are written. The UI offers them only while the row is editing: the field is editable only then, and the close button replaces the edit button only then.
