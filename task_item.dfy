/** One row of the list. It holds only transient editing state: whether the
    title is being edited and the text typed so far. It changes the collection
    only by emitting intents; the task it shows is handed in on every event,
    as the page re-renders the row with the current task. */
module Components {
  import opened Tasks

  class TaskItem {
    var isEditing: bool
    var taskValueEdited: string

    /** Mounting the row: not editing, buffer holding the task's title. */
    constructor (task: Task)
      ensures !isEditing && taskValueEdited == task.title
    {
      isEditing := false;
      taskValueEdited := task.title;
    }

    /** The edit button: enter editing, keeping the buffer. */
    method HandleStartEditing()
      modifies this
      ensures isEditing && taskValueEdited == old(taskValueEdited)
    {
      isEditing := true;
    }

    /** The close button: leave editing and discard what was typed. */
    method HandleCancelEditing(task: Task)
      modifies this
      ensures !isEditing && taskValueEdited == task.title
    {
      taskValueEdited := task.title;
      isEditing := false;
    }

    /** Submitting the text field: ask the page to retitle the task with the
        buffer, then leave editing. The buffer keeps the submitted text. */
    method HandleSubmitEditing(task: Task) returns (intent: Intent)
      modifies this
      ensures intent == EditTask(task.id, old(taskValueEdited))
      ensures !isEditing && taskValueEdited == old(taskValueEdited)
    {
      intent := EditTask(task.id, taskValueEdited);
      isEditing := false;
    }

    /** Typing in the field replaces the buffer; the mode is unchanged. */
    method OnChangeText(text: string)
      modifies this
      ensures taskValueEdited == text && isEditing == old(isEditing)
    {
      taskValueEdited := text;
    }

    /** Pressing the marker asks to toggle the task, in either mode. */
    method PressMarker(task: Task) returns (intent: Intent)
      ensures intent.ToggleTaskDone? && intent.id == task.id
    {
      intent := ToggleTaskDone(task.id);
    }

    /** Pressing the trash button asks to remove the task; the button is
        disabled while editing, so then nothing is emitted. */
    method PressTrash(task: Task) returns (intent: Option<Intent>)
      ensures intent.Some? <==> !isEditing
      ensures intent.Some? ==> intent.value == RemoveTask(task.id)
    {
      if isEditing {
        intent := None;
      } else {
        intent := Some(RemoveTask(task.id));
      }
    }
  }
}
