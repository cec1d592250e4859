/** The HTTP handlers of packages/backend/src/controllers/taskController.js:
    each maps a store and a request to a response and the store after it.
    Only the model's own errors are modelled; the 500 responses for
    database failures are not. */
module Controller {
  import opened Wrappers
  import opened JsValues
  import opened Text
  import opened Tasks
  import opened Hierarchy
  import opened TaskModel
  import opened Validation

  /** A JSON response body. */
  datatype Payload =
    | One(task: TaskView)
    | Many(tasks: seq<TaskView>)
    | Deleted(message: string, id: Id)
    | Error(code: string, message: string)

  datatype Response = Response(status: nat, body: Payload)

  /** A response together with the store it leaves behind. */
  datatype Reply = Reply(store: Store, response: Response)

  const TaskNotFoundResponse := Response(404, Error("TASK_NOT_FOUND", "Task not found"))

  /** The status a handler sends for a thrown error: 404 when the message
      mentions "not found", `otherwise` else. */
  function StatusFor(e: ModelError, otherwise: nat): (r: nat)
    ensures e.ParentNotFound? || e.TaskNotFound? ==> r == 404
    ensures !e.ParentNotFound? && !e.TaskNotFound? ==> r == otherwise
  {
    NotFoundMessages(e);
    if Contains(Message(e), "not found") then 404 else otherwise
  }

  /** The fields the handlers pass on are absent, null or strings. */
  predicate TextFields(b: Body)
  {
    IsText(b.description) && IsText(b.dueDate) && IsText(b.parentTaskId)
  }

  // ---------------------------------------------------------------------
  // getAllTasks, getTask (taskController.js:11-48)

  /** `getAllTasks`: 200 with the top-level tasks, newest first. */
  method GetAllTasks(s: Store) returns (r: Response)
    ensures r.status == 200 && r.body.Many?
    ensures IsListing(s, None, r.body.tasks)
  {
    var tasks := GetAll(s);
    r := Response(200, Many(tasks));
  }

  /** `getTask`: the stored record, or 404 TASK_NOT_FOUND. */
  function GetTask(s: Store, id: Id): (r: Response)
    ensures id !in s <==> r == TaskNotFoundResponse
    ensures id in s ==> r.status == 200 && r.body == One(Format(id, s[id]))
  {
    match GetById(s, id)
    case None => TaskNotFoundResponse
    case Some(t) => Response(200, One(t))
  }

  // ---------------------------------------------------------------------
  // createTask (taskController.js:54-78)

  function NewTaskOf(b: Body): NewTask
    requires TextFields(b)
  {
    NewTask(b.title, b.description, b.dueDate, b.category, b.status, b.parentTaskId)
  }

  /** `createTask`: 201 with the new record; a failed create leaves the
      store as it was and answers CREATE_TASK_ERROR, with 404 exactly for a
      missing parent and 400 for everything else. */
  function CreateTask(s: Store, b: Body, newId: Id, now: nat): (r: Reply)
    requires newId !in s && TextFields(b)
    ensures r.response.status in {201, 400, 404}
    ensures r.response.status == 201 <==> CreateFieldsOk(NewTaskOf(b)) && ParentResolves(s, b.parentTaskId)
    ensures r.response.status == 404 <==>
      CreateFieldsOk(NewTaskOf(b)) && b.parentTaskId.Str? && |b.parentTaskId.s| > 0 && b.parentTaskId.s !in s
    ensures r.response.status == 201 ==>
      && r.store.Keys == s.Keys + {newId}
      && r.response.body == One(Format(newId, r.store[newId]))
    ensures r.response.status != 201 ==> r.store == s && r.response.body.Error? && r.response.body.code == "CREATE_TASK_ERROR"
  {
    match Create(s, NewTaskOf(b), newId, now)
    case Success(c) => Reply(c.store, Response(201, One(c.task)))
    case Failure(e) => Reply(s, Response(StatusFor(e, 400), Error("CREATE_TASK_ERROR", Message(e))))
  }

  // ---------------------------------------------------------------------
  // updateTask (taskController.js:84-110)

  const NoUpdatesResponse := Response(400, Error("NO_UPDATES_PROVIDED", "At least one field must be updated"))

  function PatchOf(b: Body): Patch
    requires IsText(b.description) && IsText(b.dueDate)
  {
    Patch(b.title, b.description, b.dueDate, b.category, b.status)
  }

  /** `updateTask`: an empty body is refused before the store is consulted;
      otherwise 200 with the updated record, 404 for a missing task and 400
      for a rejected field, the store unchanged on every error. */
  function UpdateTask(s: Store, id: Id, b: Body, now: nat): (r: Reply)
    requires IsText(b.description) && IsText(b.dueDate)
    ensures KeyCount(b) == 0 ==> r == Reply(s, NoUpdatesResponse)
    ensures r.response.status in {200, 400, 404}
    ensures r.response.status == 404 <==> KeyCount(b) > 0 && id !in s
    ensures r.response.status == 200 <==> KeyCount(b) > 0 && id in s && PatchOk(PatchOf(b))
    ensures r.response.status == 200 ==>
      && r.store.Keys == s.Keys
      && (forall k :: k in s && k != id ==> r.store[k] == s[k])
      && r.response.body == One(Format(id, r.store[id]))
    ensures r.response.status != 200 ==> r.store == s
    ensures KeyCount(b) > 0 && r.response.status != 200 ==> r.response.body.Error? && r.response.body.code == "UPDATE_TASK_ERROR"
  {
    if KeyCount(b) == 0 then Reply(s, NoUpdatesResponse)
    else match Update(s, id, PatchOf(b), now)
      case Success(c) => Reply(c.store, Response(200, One(c.task)))
      case Failure(e) => Reply(s, Response(StatusFor(e, 400), Error("UPDATE_TASK_ERROR", Message(e))))
  }

  // ---------------------------------------------------------------------
  // deleteTask (taskController.js:116-136)

  /** `deleteTask`: 200 echoing the id after the cascade, or 404. The
      handler's 500 branch is unreachable: the model's only error is the
      missing task. */
  function DeleteTask(s: Store, id: Id): (r: Reply)
    ensures r.response.status in {200, 404}
    ensures r.response.status == 404 <==> id !in s
    ensures id in s ==> r.response.body == Deleted("Task deleted successfully", id)
    ensures id in s ==> r.store.Keys == s.Keys - ({id} + SubTaskIds(s, id))
    ensures id !in s ==> r.store == s && r.response.body.Error? && r.response.body.code == "DELETE_TASK_ERROR"
  {
    match Delete(s, id)
    case Success(kept) => Reply(kept, Response(200, Deleted("Task deleted successfully", id)))
    case Failure(e) => Reply(s, Response(StatusFor(e, 500), Error("DELETE_TASK_ERROR", Message(e))))
  }

  // ---------------------------------------------------------------------
  // getSubTasks (taskController.js:142-164)

  /** `getSubTasks`: 404 for a missing parent, else 200 with its direct
      sub-tasks, newest first. */
  method GetSubTasksHandler(s: Store, id: Id) returns (r: Response)
    ensures id !in s <==> r == TaskNotFoundResponse
    ensures id in s ==> r.status == 200 && r.body.Many? && IsListing(s, Some(id), r.body.tasks)
  {
    if GetById(s, id).None? {
      r := TaskNotFoundResponse;
    } else {
      var tasks := GetSubTasks(s, id);
      r := Response(200, Many(tasks));
    }
  }
}
