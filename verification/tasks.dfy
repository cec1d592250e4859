/** The task record as the `tasks` table stores it
    (packages/backend/src/utils/database.js) and as the model hands it out
    (`_formatTask`). */
module Tasks {
  import opened Wrappers
  import opened Categories

  /** Task ids are opaque strings (UUIDs in the running system). */
  type Id = string

  /** A completion percentage; the table's CHECK constraint keeps every
      stored status in [0, 100]. */
  type Percent = x: int | 0 <= x <= 100

  /** One row of the `tasks` table, without its key. `None` is SQL NULL.
      Timestamps are ticks of an abstract clock instead of ISO strings;
      ISO strings of one format order the same way. */
  datatype Task = Task(
    title: string,
    description: Option<string>,
    dueDate: Option<string>,
    category: Category,
    status: Percent,
    parentTaskId: Option<Id>,
    createdAt: nat,
    updatedAt: nat)

  /** The database: rows by primary key. */
  type Store = map<Id, Task>

  /** The foreign key `parentTaskId REFERENCES tasks(id)`: every parent
      reference names a stored task. */
  predicate ParentsExist(s: Store)
  {
    forall k :: k in s && s[k].parentTaskId.Some? ==> s[k].parentTaskId.value in s
  }

  /** A task as the API returns it: the row, its id, and the derived
      `isCompleted` flag. */
  datatype TaskView = TaskView(id: Id, task: Task, isCompleted: bool)

  /** `_formatTask`. */
  function Format(id: Id, t: Task): (v: TaskView)
    ensures v.id == id && v.task == t
    ensures v.isCompleted <==> t.status == 100
  {
    TaskView(id, t, t.status == 100)
  }

  /** The record the API returns for a stored row. */
  predicate Shows(s: Store, v: TaskView)
  {
    v.id in s && v == Format(v.id, s[v.id])
  }
}
