/** The routes of packages/backend/src/app.js, each a validator chain in
    front of a handler, and what the layers together promise: which
    requests change the store, and where the validators and the data
    layer disagree. */
module Routes {
  import opened Wrappers
  import opened JsValues
  import opened Text
  import opened Categories
  import opened Tasks
  import opened Hierarchy
  import opened TaskRules
  import opened TaskModel
  import opened Validation
  import opened Controller

  /** The message of a validator's rejection; the title messages differ
      between the create and the update validator. */
  function RejectionMessage(c: Code, updating: bool): string
  {
    match c
    case InvalidTitle => if updating then "Task title must be a non-empty string" else "Task title is required"
    case TitleTooLong => "Task title must be 255 characters or less"
    case InvalidDescription => "Task description must be a string"
    case DescriptionTooLong => "Task description must be 1000 characters or less"
    case InvalidCategory => "Category must be one of: Work, Personal, Shopping, Health, Finance, Education, Home, Other"
    case InvalidStatus => "Status must be an integer between 0 and 100"
    case InvalidDueDate => "Due date must be a string"
    case InvalidDueDateFormat => "Due date must be in ISO 8601 format (YYYY-MM-DD)"
    case InvalidTaskId => "Task ID is required"
  }

  function Reject(c: Code, updating: bool): (r: Response)
    ensures r.status == 400 && r.body.Error? && r.body.code == CodeName(c)
  {
    Response(400, Error(CodeName(c), RejectionMessage(c, updating)))
  }

  /** A validator passes exactly the bodies whose fields are all absent,
      null or strings where the handlers expect text. */
  lemma AcceptedFieldsAreText(b: Body)
    requires FieldsAcceptable(b)
    ensures IsText(b.description) && IsText(b.dueDate)
  {
  }

  // ---------------------------------------------------------------------
  // Where the create validator and the data layer disagree

  /** After the create validator, the data layer rejects a field only when
      the body sends `null` for the category or the status: the validator
      skips null, but `create`'s defaults apply only to absent fields. */
  lemma CreateAfterValidation(b: Body)
    requires ValidateCreateTask(b).Pass? && IsText(b.parentTaskId)
    ensures TextFields(b)
    ensures CreateFieldsOk(NewTaskOf(b)) <==> !b.category.Null? && !b.status.Null?
  {
    assert "Other" in Names;
  }

  /** The data layer alone accepts an empty due date, which the validator
      refuses. */
  lemma EmptyDueDateOnlyModelAccepts(b: Body)
    requires b.dueDate == Str("")
    ensures ValidateCreateTask(b).Fail?
    ensures TextFields(b) ==> DueDateOk(NewTaskOf(b).dueDate)
  {
  }

  // ---------------------------------------------------------------------
  // The routes

  /** `GET /api/tasks/:id`. */
  function GetTaskRoute(s: Store, id: Id): (r: Response)
    ensures ValidateTaskId(id).Fail? ==> r == Reject(InvalidTaskId, false)
    ensures r.status == 200 <==> ValidateTaskId(id).Pass? && id in s
    ensures r.status == 200 ==> r.body == One(Format(id, s[id]))
  {
    if ValidateTaskId(id).Fail? then Reject(InvalidTaskId, false) else GetTask(s, id)
  }

  /** `POST /api/tasks`. Through both layers a request creates a task
      exactly when the validator accepts it, neither the category nor the
      status is null, and the parent reference resolves; it answers 404
      only for a non-empty parent id naming no task. */
  function PostTaskRoute(s: Store, b: Body, newId: Id, now: nat): (r: Reply)
    requires newId !in s && IsText(b.parentTaskId)
    ensures r.response.status in {201, 400, 404}
    ensures r.response.status == 201 <==>
      ValidateCreateTask(b).Pass? && !b.category.Null? && !b.status.Null? && ParentResolves(s, b.parentTaskId)
    ensures r.response.status == 404 <==>
      && ValidateCreateTask(b).Pass? && !b.category.Null? && !b.status.Null?
      && b.parentTaskId.Str? && |b.parentTaskId.s| > 0 && b.parentTaskId.s !in s
    ensures r.response.status != 201 ==> r.store == s
    ensures r.response.status == 201 ==> r.store.Keys == s.Keys + {newId}
  {
    match ValidateCreateTask(b)
    case Fail(c) => Reply(s, Reject(c, false))
    case Pass =>
      CreateAfterValidation(b);
      CreateTask(s, b, newId, now)
  }

  /** The update fields the validator lets through but the data layer
      refuses: a null title, description, category or status. */
  predicate NullsTheModelRefuses(b: Body)
  {
    b.title.Null? || b.description.Null? || b.category.Null? || b.status.Null?
  }

  /** After the update validator passes, the data layer refuses exactly
      a null title, description, category or status. */
  lemma UpdateAfterValidation(b: Body)
    requires ValidateUpdateTask(b).Pass?
    ensures IsText(b.description) && IsText(b.dueDate)
    ensures PatchOk(PatchOf(b)) <==> !NullsTheModelRefuses(b)
  {
  }

  /** `PUT /api/tasks/:id`. It changes the store only with a valid id, an
      accepted non-empty body, an existing task and no null among the
      fields the data layer checks. */
  function PutTaskRoute(s: Store, id: Id, b: Body, now: nat): (r: Reply)
    ensures r.response.status in {200, 400, 404}
    ensures r.response.status == 200 <==>
      && ValidateTaskId(id).Pass? && ValidateUpdateTask(b).Pass? && KeyCount(b) > 0
      && id in s && !NullsTheModelRefuses(b)
    ensures r.response.status == 404 <==>
      ValidateTaskId(id).Pass? && ValidateUpdateTask(b).Pass? && KeyCount(b) > 0 && id !in s
    ensures r.response.status != 200 ==> r.store == s
  {
    if ValidateTaskId(id).Fail? then Reply(s, Reject(InvalidTaskId, true))
    else match ValidateUpdateTask(b)
      case Fail(c) => Reply(s, Reject(c, true))
      case Pass =>
        UpdateAfterValidation(b);
        UpdateTask(s, id, b, now)
  }

  /** An empty body is refused as NO_UPDATES_PROVIDED even for an id that
      names no task: the empty-body guard runs before the lookup. */
  lemma EmptyPutToMissingTask(s: Store, id: Id, now: nat)
    requires ValidateTaskId(id).Pass? && id !in s
    ensures PutTaskRoute(s, id, Body(Undefined, Undefined, Undefined, Undefined, Undefined, Undefined, 0), now)
            == Reply(s, NoUpdatesResponse)
  {
  }

  /** A body with keys but none of the five updatable ones answers 200 with
      the stored record and changes nothing, not even `updatedAt`. */
  lemma PutWithoutUpdatableKeys(s: Store, id: Id, parent: Value, extra: nat, now: nat)
    requires ValidateTaskId(id).Pass? && id in s
    requires !parent.Undefined? || extra > 0
    ensures PutTaskRoute(s, id, Body(Undefined, Undefined, Undefined, Undefined, Undefined, parent, extra), now)
            == Reply(s, Response(200, One(Format(id, s[id]))))
  {
  }

  /** `DELETE /api/tasks/:id`. */
  function DeleteTaskRoute(s: Store, id: Id): (r: Reply)
    ensures r.response.status in {200, 400, 404}
    ensures r.response.status == 200 <==> ValidateTaskId(id).Pass? && id in s
    ensures r.response.status == 200 ==> r.store.Keys == s.Keys - ({id} + SubTaskIds(s, id))
    ensures r.response.status != 200 ==> r.store == s
  {
    if ValidateTaskId(id).Fail? then Reply(s, Reject(InvalidTaskId, false)) else DeleteTask(s, id)
  }

  /** `GET /api/tasks/:id/subtasks`. */
  method GetSubTasksRoute(s: Store, id: Id) returns (r: Response)
    ensures r.status in {200, 400, 404}
    ensures r.status == 200 <==> ValidateTaskId(id).Pass? && id in s
    ensures r.status == 200 ==> r.body.Many? && IsListing(s, Some(id), r.body.tasks)
  {
    if ValidateTaskId(id).Fail? {
      r := Reject(InvalidTaskId, false);
    } else {
      r := GetSubTasksHandler(s, id);
    }
  }

  /** Every route keeps every parent reference resolvable. */
  lemma RoutesKeepParents(s: Store, id: Id, b: Body, newId: Id, now: nat)
    requires ParentsExist(s)
    ensures newId !in s && IsText(b.parentTaskId) ==> ParentsExist(PostTaskRoute(s, b, newId, now).store)
    ensures ParentsExist(PutTaskRoute(s, id, b, now).store)
    ensures ParentsExist(DeleteTaskRoute(s, id).store)
  {
    if newId !in s && IsText(b.parentTaskId) {
      PostKeepsParents(s, b, newId, now);
    }
    PutKeepsParents(s, id, b, now);
  }

  lemma PostKeepsParents(s: Store, b: Body, newId: Id, now: nat)
    requires ParentsExist(s) && newId !in s && IsText(b.parentTaskId)
    ensures ParentsExist(PostTaskRoute(s, b, newId, now).store)
  {
    if ValidateCreateTask(b).Pass? {
      CreateAfterValidation(b);
      CreateKeepsParents(s, NewTaskOf(b), newId, now);
    }
  }

  lemma PutKeepsParents(s: Store, id: Id, b: Body, now: nat)
    requires ParentsExist(s)
    ensures ParentsExist(PutTaskRoute(s, id, b, now).store)
  {
    if ValidateTaskId(id).Pass? && ValidateUpdateTask(b).Pass? && KeyCount(b) > 0 {
      UpdateAfterValidation(b);
      UpdateKeepsParents(s, id, PatchOf(b), now);
    }
  }
}
