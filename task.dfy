/** The task record stored by the registry, and the two ways a task comes to be
    or changes on its own: creation and marking it completed. */
module Tasks {

  /** A task. `dueDate` is free text (normally `YYYY-MM-DD`) and is never parsed;
      `priority` is any integer, the registry does not restrict its range. */
  datatype Task = Task(
    name: string,
    description: string,
    dueDate: string,
    priority: int,
    completed: bool,
    remarks: string)

  /** The four-argument constructor: a new task is pending and has no remarks. */
  function NewTask(name: string, description: string, dueDate: string, priority: int): (t: Task)
    ensures t.name == name && t.description == description
    ensures t.dueDate == dueDate && t.priority == priority
    ensures !t.completed && t.remarks == ""
  {
    Task(name, description, dueDate, priority, false, "")
  }

  /** Marking a task as done: `completed` becomes true and the remarks are the ones
      given; every other field is kept. Completion is one-way: marking a task that
      is already completed keeps it completed and only replaces its remarks. */
  function MarkTaskAsCompleted(t: Task, remarks: string): (r: Task)
    ensures r.completed && r.remarks == remarks
    ensures r.name == t.name && r.description == t.description
    ensures r.dueDate == t.dueDate && r.priority == t.priority
  {
    t.(completed := true, remarks := remarks)
  }
}
