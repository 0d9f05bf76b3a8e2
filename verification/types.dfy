/** The records of the to-do list: tasks, their subtasks and calendar dates. */
module TodoTypes {

  datatype Option<T> = None | Some(value: T) {
    function GetOr(default: T): T {
      match this
      case Some(v) => v
      case None => default
    }
  }

  /** A calendar date as the program stores it (a time at midnight UTC). */
  datatype Date = Date(year: int, month: int, day: int)

  /** The zero time value, which a failed date parse yields: January 1 of year 1. */
  const ZERO_DATE := Date(1, 1, 1)

  /** A checklist item inside one task; its id is unique only within that task. */
  datatype Subtask = Subtask(id: int, text: string, isComplete: bool)

  /**
   * One to-do item. The priority is an unchecked integer (0 Low, 1 Medium,
   * 2 High by convention; nothing enforces the range).
   */
  datatype Task = Task(
    id: int,
    text: string,
    priority: int,
    due: Date,
    category: string,
    isComplete: bool,
    subtasks: seq<Subtask>,
    recurringCron: string,
    tags: seq<string>,
    attachments: seq<string>,
    estimatedTime: int,
    actualTime: int,
    notes: string,
    collaborators: seq<string>)

  /** The answers the add command collects for a new task. */
  datatype Draft = Draft(text: string, priority: int, due: Date, category: string)

  /** A task with the given id and draft fields, every other field at its zero value. */
  function NewTask(id: int, d: Draft): (t: Task)
    ensures t.id == id && t.text == d.text && t.priority == d.priority
    ensures t.due == d.due && t.category == d.category
    ensures !t.isComplete && t.subtasks == [] && t.tags == []
    ensures t.attachments == [] && t.collaborators == []
  {
    Task(id, d.text, d.priority, d.due, d.category, false, [], "", [], [], 0, 0, "", [])
  }
}
