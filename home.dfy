/** The Home page: the single owner of the task collection. Its handlers
    replace the held list with a transform of it; removal goes through a
    confirmation prompt whose two answers arrive later as separate events. */
module Pages {
  import opened Tasks
  import Components

  class Home {
    /** The collection, in insertion order. */
    var tasks: seq<Task>
    /** The id whose removal prompt is on screen, if one is. */
    var removePrompt: Option<int>

    /** Ids stay unique for as long as every add is given a fresh id. */
    ghost predicate Valid()
      reads this
    {
      UniqueIds(tasks)
    }

    /** The count shown in the header: one per task, so, with unique ids,
        the number of distinct tasks on screen. */
    function TasksCounter(): (n: nat)
      reads this
      ensures n == |tasks|
      ensures UniqueIds(tasks) ==> n == |Ids(tasks)|
    {
      UniqueIdsCount(tasks);
      |tasks|
    }

    constructor ()
      ensures Valid()
      ensures tasks == [] && removePrompt == None
    {
      tasks := [];
      removePrompt := None;
    }

    /** Adds a task, or reports that the title is already registered.
        The creation timestamp becomes `freshId`, an id not yet in use. */
    method HandleAddTask(newTaskTitle: string, freshId: int) returns (rejected: bool)
      requires Valid() && !HasId(tasks, freshId)
      modifies this
      ensures Valid()
      ensures rejected <==> HasTitle(old(tasks), newTaskTitle)
      ensures tasks == Add(old(tasks), newTaskTitle, freshId)
      ensures TasksCounter() == old(TasksCounter()) + (if rejected then 0 else 1)
      ensures removePrompt == old(removePrompt)
    {
      if FindByTitle(tasks, newTaskTitle).Some? {
        return true;
      }
      AddKeepsIdsUnique(tasks, newTaskTitle, freshId);
      tasks := tasks + [Task(freshId, newTaskTitle, false)];
      rejected := false;
    }

    /** Flips `done` on the task with this id; an unknown id is ignored. */
    method HandleToggleTaskDone(id: int)
      requires Valid()
      modifies this
      ensures Valid()
      ensures tasks == Toggle(old(tasks), id)
      ensures TasksCounter() == old(TasksCounter())
      ensures removePrompt == old(removePrompt)
    {
      if FindById(tasks, id).Some? {
        ToggleKeepsIdsUnique(tasks, id);
        tasks := Toggle(tasks, id);
      } else {
        ToggleUnknownIdIsNoOp(tasks, id);
      }
    }

    /** First phase of a removal: a prompt is shown only for a known id. */
    method RequestRemove(id: int) returns (prompted: bool)
      requires Valid()
      modifies this
      ensures Valid()
      ensures prompted <==> HasId(tasks, id)
      ensures removePrompt == if prompted then Some(id) else old(removePrompt)
      ensures tasks == old(tasks)
    {
      prompted := FindById(tasks, id).Some?;
      if prompted {
        removePrompt := Some(id);
      }
    }

    /** The prompt's "yes": the task is filtered out of the list. */
    method ConfirmRemove()
      requires Valid()
      modifies this
      ensures Valid()
      ensures removePrompt == None
      ensures tasks == if old(removePrompt).Some?
                       then Remove(old(tasks), old(removePrompt).value)
                       else old(tasks)
      ensures old(removePrompt).Some? && HasId(old(tasks), old(removePrompt).value) ==>
                TasksCounter() == old(TasksCounter()) - 1
    {
      if removePrompt.Some? {
        var id := removePrompt.value;
        RemoveKeepsIdsUnique(tasks, id);
        if HasId(tasks, id) {
          RemoveDropsOne(tasks, id);
        }
        tasks := Remove(tasks, id);
        removePrompt := None;
      }
    }

    /** The prompt's "no": the prompt closes and the list stays as it is. */
    method DeclineRemove()
      requires Valid()
      modifies this
      ensures Valid()
      ensures removePrompt == None
      ensures tasks == old(tasks)
    {
      removePrompt := None;
    }

    /** Gives the task with this id a new title; an unknown id is ignored.
        Unlike add, no duplicate-title check is made. */
    method HandleEditTask(taskId: int, taskNewTitle: string)
      requires Valid()
      modifies this
      ensures Valid()
      ensures tasks == Edit(old(tasks), taskId, taskNewTitle)
      ensures TasksCounter() == old(TasksCounter())
      ensures removePrompt == old(removePrompt)
    {
      if FindById(tasks, taskId).Some? {
        EditKeepsIdsUnique(tasks, taskId, taskNewTitle);
        tasks := Edit(tasks, taskId, taskNewTitle);
      } else {
        EditUnknownIdIsNoOp(tasks, taskId, taskNewTitle);
      }
    }

    /** Routes an intent emitted by a row to the matching handler. */
    method Dispatch(intent: Intent) returns (prompted: bool)
      requires Valid()
      modifies this
      ensures Valid()
      ensures prompted <==> intent.RemoveTask? && HasId(old(tasks), intent.id)
      ensures tasks == match intent
                       case ToggleTaskDone(id) => Toggle(old(tasks), id)
                       case RemoveTask(_) => old(tasks)
                       case EditTask(id, title) => Edit(old(tasks), id, title)
      ensures removePrompt == match intent
                              case RemoveTask(id) => (if prompted then Some(id) else old(removePrompt))
                              case _ => old(removePrompt)
    {
      match intent
      case ToggleTaskDone(id) =>
        HandleToggleTaskDone(id);
        prompted := false;
      case RemoveTask(id) =>
        prompted := RequestRemove(id);
      case EditTask(id, title) =>
        HandleEditTask(id, title);
        prompted := false;
    }
  }

  /** A row's submit followed by the page's edit: the task ends up with the
      row's buffer as its title, and the row, no longer editing, again shows
      that title, just as a freshly mounted row for the updated task would. */
  method SubmitRowEdit(home: Home, row: Components.TaskItem, k: nat)
    requires home.Valid() && k < |home.tasks|
    modifies home, row
    ensures home.Valid()
    ensures |home.tasks| == |old(home.tasks)|
    ensures home.tasks[k] == old(home.tasks[k]).(title := old(row.taskValueEdited))
    ensures forall i :: 0 <= i < |home.tasks| && i != k ==> home.tasks[i] == old(home.tasks[i])
    ensures !row.isEditing && row.taskValueEdited == home.tasks[k].title
    ensures home.removePrompt == old(home.removePrompt)
  {
    var task := home.tasks[k];
    var intent := row.HandleSubmitEditing(task);
    EditRetitlesOne(home.tasks, k, intent.taskNewTitle);
    var _ := home.Dispatch(intent);
  }

  /** A row's trash press, routed to the page and confirmed: the row's task
      leaves the list, which shortens by one. While the row is editing the
      press emits nothing and the list stays as it is. */
  method TrashRowTask(home: Home, row: Components.TaskItem, k: nat)
    requires home.Valid() && k < |home.tasks|
    modifies home
    ensures home.Valid()
    ensures home.removePrompt == if row.isEditing then old(home.removePrompt) else None
    ensures row.isEditing ==> home.tasks == old(home.tasks)
    ensures !row.isEditing ==>
              home.tasks == Remove(old(home.tasks), old(home.tasks[k]).id) &&
              |home.tasks| == |old(home.tasks)| - 1 &&
              !HasId(home.tasks, old(home.tasks[k]).id)
  {
    var task := home.tasks[k];
    var intent := row.PressTrash(task);
    if intent.Some? {
      var prompted := home.Dispatch(intent.value);
      assert prompted;
      RemoveDropsOne(home.tasks, task.id);
      home.ConfirmRemove();
    }
  }
}
