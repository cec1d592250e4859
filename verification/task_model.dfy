/** `TaskModel` (packages/backend/src/models/Task.js): the data layer over
    the `tasks` table, as pure functions from a store to a new store. The
    fresh id and the clock reading are parameters. */
module TaskModel {
  import opened Wrappers
  import opened JsValues
  import opened Text
  import opened Categories
  import opened Numeric
  import opened Tasks
  import opened Hierarchy
  import opened TaskRules

  /** The errors the model throws, one per distinct message. */
  datatype ModelError =
    | TitleRequired
    | TitleTooLong
    | InvalidCategory
    | InvalidStatus
    | DescriptionTooLong
    | InvalidDueDate
    | ParentNotFound(parentId: Id)
    | TaskNotFound(id: Id)
      /** SQLite rejecting an insert whose parent reference names no row. */
    | ForeignKeyFailed
      /** V8's TypeError for `null.length` in `update`. */
    | NullDescription

  /** The `message` of each error. Long literals are written in pieces so
      the proofs about `includes` below stay small. */
  function Message(e: ModelError): string
  {
    match e
    case TitleRequired => "Task title is required" + " and must be a non-empty string"
    case TitleTooLong => "Task title must be 255 characters" + " or less"
    case InvalidCategory =>
      // the eight names of `Names`, joined by ", "
      "Category must be one of:" + " Work, Personal, Shopping, Health," + " Finance, Education, Home, Other"
    case InvalidStatus => "Status must be an integer" + " between 0 and 100"
    case DescriptionTooLong => "Description must be 1000 characters" + " or less"
    case InvalidDueDate => "Due date must be in ISO 8601" + " format (YYYY-MM-DD)"
    case ParentNotFound(p) => "Parent task with ID " + p + " not found"
    case TaskNotFound(id) => "Task with ID " + id + " not found"
    case ForeignKeyFailed => "FOREIGN KEY constraint failed"
    case NullDescription => "Cannot read properties" + " of null" + " (reading 'length')"
  }

  /** A message made of two pieces, each missing some character of
      "not found", and joined where no occurrence can straddle, does not
      contain "not found". */
  lemma NoNotFoundInPieces(a: string, b: string, ka: nat, kb: nat)
    requires ka < 9 && kb < 9
    requires "not found"[ka] !in a && "not found"[kb] !in b
    requires |a| > 0 && a[|a| - 1] !in "not foun"
    ensures !Contains(a + b, "not found")
  {
    var p := "not found";
    assert p[..8] == "not foun";
    NoMatchMissingChar(a, p, ka);
    NoMatchMissingChar(b, p, kb);
    NoMatchAcrossJoin(a, b, p);
  }

  lemma CategoryMessageClean()
    ensures !Contains(Message(InvalidCategory), "not found")
  {
    var p := "not found";
    var front := "Category must be one of:" + " Work, Personal, Shopping, Health,";
    assert p[..8] == "not foun";
    NoNotFoundInPieces("Category must be one of:", " Work, Personal, Shopping, Health,", 8, 4);
    NoMatchMissingChar(" Finance, Education, Home, Other", p, 4);
    NoMatchAcrossJoin(front, " Finance, Education, Home, Other", p);
  }

  lemma NullDescriptionMessageClean()
    ensures !Contains(Message(NullDescription), "not found")
  {
    var p := "not found";
    var front := "Cannot read properties" + " of null";
    assert p[..8] == "not foun";
    NoNotFoundInPieces("Cannot read properties", " of null", 4, 8);
    NoMatchMissingChar(" (reading 'length')", p, 4);
    NoMatchAcrossJoin(front, " (reading 'length')", p);
  }

  /** A message without an 'f' cannot contain "not found". */
  lemma NoLetterF(m: string)
    requires 'f' !in m
    ensures !Contains(m, "not found")
  {
    NoMatchMissingChar(m, "not found", 4);
  }

  lemma TitleMessagesClean()
    ensures !Contains(Message(TitleRequired), "not found")
    ensures !Contains(Message(TitleTooLong), "not found")
  {
    TitleRequiredClean();
    TitleTooLongClean();
  }

  lemma TitleRequiredClean()
    ensures !Contains(Message(TitleRequired), "not found")
  {
    NoLetterF(Message(TitleRequired));
  }

  lemma TitleTooLongClean()
    ensures !Contains(Message(TitleTooLong), "not found")
  {
    NoLetterF(Message(TitleTooLong));
  }

  lemma StatusMessageClean()
    ensures !Contains(Message(InvalidStatus), "not found")
  {
    NoLetterF(Message(InvalidStatus));
  }

  lemma DescriptionMessageClean()
    ensures !Contains(Message(DescriptionTooLong), "not found")
  {
    NoLetterF(Message(DescriptionTooLong));
  }

  lemma DueDateMessageClean()
    ensures !Contains(Message(InvalidDueDate), "not found")
  {
    NoNotFoundInPieces("Due date must be in ISO 8601", " format (YYYY-MM-DD)", 4, 0);
  }

  lemma MissingRowMessages(id: Id)
    ensures Contains(Message(ParentNotFound(id)), "not found")
    ensures Contains(Message(TaskNotFound(id)), "not found")
  {
    MissingParentMessage(id);
    MissingTaskMessage(id);
  }

  lemma MissingParentMessage(id: Id)
    ensures Contains(Message(ParentNotFound(id)), "not found")
  {
    var head := "Parent task with ID " + id + " ";
    assert Message(ParentNotFound(id)) == head + "not found";
    ContainsSuffix(head, "not found");
  }

  lemma MissingTaskMessage(id: Id)
    ensures Contains(Message(TaskNotFound(id)), "not found")
  {
    var head := "Task with ID " + id + " ";
    assert Message(TaskNotFound(id)) == head + "not found";
    ContainsSuffix(head, "not found");
  }

  /** Exactly the two missing-row errors mention "not found", which is what
      the controller's status routing relies on. */
  lemma NotFoundMessages(e: ModelError)
    ensures Contains(Message(e), "not found") <==> e.ParentNotFound? || e.TaskNotFound?
  {
    match e
    case TitleRequired => TitleMessagesClean();
    case TitleTooLong => TitleMessagesClean();
    case InvalidCategory => CategoryMessageClean();
    case InvalidStatus => StatusMessageClean();
    case DescriptionTooLong => DescriptionMessageClean();
    case InvalidDueDate => DueDateMessageClean();
    case ParentNotFound(q) => MissingRowMessages(q);
    case TaskNotFound(id) => MissingRowMessages(id);
    case ForeignKeyFailed => NoMatchMissingChar(Message(e), "not found", 6);
    case NullDescription => NullDescriptionMessageClean();
  }

  // ---------------------------------------------------------------------
  // Field rules (Task.js:44-71 and 175-205) are in TaskRules.

  /** The destructuring default `x = d`: applies only to an absent field. */
  function OrDefault(v: Value, d: Value): (r: Value)
    ensures v.Undefined? ==> r == d
    ensures !v.Undefined? ==> r == v
  {
    if v.Undefined? then d else v
  }

  /** The column value a text field writes: a string as itself, null as
      NULL, and an absent field as the column's default `dflt`. */
  function Column(v: TextValue, dflt: Option<string>): (r: Option<string>)
    ensures v.Str? ==> r == Some(v.s)
    ensures v.Null? ==> r == None
    ensures v.Undefined? ==> r == dflt
  {
    match v
    case Str(x) => Some(x)
    case Null => None
    case _ => dflt
  }

  /** The result of a create or an update: the new store and the record
      returned to the caller. */
  datatype Change = Change(store: Store, task: TaskView)

  // ---------------------------------------------------------------------
  // create (Task.js:33-111)

  /** The fields `create` destructures from its argument; absent fields are
      `Undefined`. */
  datatype NewTask = NewTask(
    title: Value,
    description: TextValue,
    dueDate: TextValue,
    category: Value,
    status: Value,
    parentTaskId: TextValue)

  function CreateCategory(d: NewTask): Value
  {
    OrDefault(d.category, Str("Other"))
  }

  function CreateStatus(d: NewTask): Value
  {
    OrDefault(d.status, Num(0.0))
  }

  /** Every field rule `create` enforces, after defaults. */
  predicate CreateFieldsOk(d: NewTask)
  {
    && TitleOk(d.title)
    && CategoryOk(CreateCategory(d))
    && StatusOk(CreateStatus(d))
    && DescriptionOk(d.description)
    && DueDateOk(d.dueDate)
  }

  /** The parent reference resolves: the explicit existence check for a
      non-empty id, and the foreign key for the empty string the check
      skips. */
  predicate ParentResolves(s: Store, v: TextValue)
  {
    v.Str? ==> v.s in s
  }

  /** The first check `create` fails, in the order the checks run; `None`
      when the row can be inserted. */
  function CreateError(s: Store, d: NewTask): (r: Option<ModelError>)
    ensures r == Some(TitleRequired) <==> !d.title.Str? || IsBlank(d.title.s)
    ensures r == Some(TitleTooLong) <==> d.title.Str? && !IsBlank(d.title.s) && Utf16Length(d.title.s) > 255
    ensures r == Some(InvalidCategory) <==> TitleOk(d.title) && !CategoryOk(CreateCategory(d))
    ensures r == Some(InvalidStatus) <==>
      TitleOk(d.title) && CategoryOk(CreateCategory(d)) && !StatusOk(CreateStatus(d))
    ensures r == Some(DescriptionTooLong) <==>
      TitleOk(d.title) && CategoryOk(CreateCategory(d)) && StatusOk(CreateStatus(d)) && !DescriptionOk(d.description)
    ensures r == Some(InvalidDueDate) <==>
      TitleOk(d.title) && CategoryOk(CreateCategory(d)) && StatusOk(CreateStatus(d)) && DescriptionOk(d.description)
      && !DueDateOk(d.dueDate)
    ensures r.Some? && r.value.ParentNotFound? <==>
      CreateFieldsOk(d) && d.parentTaskId.Str? && |d.parentTaskId.s| > 0 && d.parentTaskId.s !in s
    ensures r.Some? && r.value.ParentNotFound? ==> r.value.parentId == d.parentTaskId.s
    ensures r == Some(ForeignKeyFailed) <==> CreateFieldsOk(d) && d.parentTaskId == Str("") && "" !in s
    ensures r.Some? ==> !r.value.TaskNotFound? && !r.value.NullDescription?
    ensures r.None? <==> CreateFieldsOk(d) && ParentResolves(s, d.parentTaskId)
  {
    var title := d.title;
    var parent := d.parentTaskId;
    if !title.Str? || IsBlank(title.s) then Some(TitleRequired)
    else if Utf16Length(title.s) > 255 then Some(TitleTooLong)
    else if !CategoryOk(CreateCategory(d)) then Some(InvalidCategory)
    else if !StatusOk(CreateStatus(d)) then Some(InvalidStatus)
    else if !DescriptionOk(d.description) then Some(DescriptionTooLong)
    else if !DueDateOk(d.dueDate) then Some(InvalidDueDate)
    else if parent.Str? && |parent.s| > 0 && parent.s !in s then Some(ParentNotFound(parent.s))
    else if parent.Str? && parent.s !in s then Some(ForeignKeyFailed)
    else None
  }

  /** The row `create` builds from a request that passes the checks:
      trimmed title, defaults for what is absent, both timestamps `now`. */
  predicate RowFrom(d: NewTask, now: nat, t: Task)
  {
    && CreateFieldsOk(d)
    && t.title == Trim(d.title.s)
    && Name(t.category) == CreateCategory(d).s
    && t.status as real == CreateStatus(d).n
    && t.description == Column(d.description, Some(""))
    && t.dueDate == Column(d.dueDate, None)
    && t.parentTaskId == Column(d.parentTaskId, None)
    && t.createdAt == now && t.updatedAt == now
  }

  /** `c` adds one row under `newId` to `s`, keeps every other row, and
      returns the new row formatted. */
  predicate InsertsRow(s: Store, newId: Id, c: Change)
  {
    && c.store.Keys == s.Keys + {newId}
    && (forall k :: k in s ==> c.store[k] == s[k])
    && c.task.id == newId
    && c.task.task == c.store[newId]
    && c.task.isCompleted == (c.task.task.status == 100)
  }

  /** The row `create` inserts once every check passes. */
  function NewRow(d: NewTask, now: nat): (t: Task)
    requires CreateFieldsOk(d)
    ensures RowFrom(d, now, t)
  {
    Task(
      Trim(d.title.s),
      Column(d.description, Some("")),
      Column(d.dueDate, None),
      Parse(CreateCategory(d).s).value,
      CreateStatus(d).n.Floor,
      Column(d.parentTaskId, None),
      now, now)
  }

  /** `create`: fails with the first failing check (`CreateError`), else
      stores the new row under the fresh id. */
  function Create(s: Store, d: NewTask, newId: Id, now: nat): (r: Result<Change, ModelError>)
    requires newId !in s
    // which error: the first check that fails
    ensures r.Failure? <==> CreateError(s, d).Some?
    ensures r.Failure? ==> r.error == CreateError(s, d).value
    ensures r.Success? <==> CreateFieldsOk(d) && ParentResolves(s, d.parentTaskId)
    // what a successful create stores and returns
    ensures r.Success? ==> InsertsRow(s, newId, r.value) && RowFrom(d, now, r.value.store[newId])
  {
    match CreateError(s, d)
    case Some(e) => Failure(e)
    case None =>
      var t := NewRow(d, now);
      Success(Change(s[newId := t], Format(newId, t)))
  }


  /** A successful create keeps every parent reference resolvable. */
  lemma CreateKeepsParents(s: Store, d: NewTask, newId: Id, now: nat)
    requires newId !in s && ParentsExist(s)
    ensures var r := Create(s, d, newId, now); r.Success? ==> ParentsExist(r.value.store)
  {
  }

  // ---------------------------------------------------------------------
  // getById, getAll, getSubTasks (Task.js:118-158)

  /** `TaskModel.getById`: the formatted row, or `None` for null. */
  function GetById(s: Store, id: Id): (r: Option<TaskView>)
    ensures r.Some? <==> id in s
    ensures r.Some? ==> r.value.id == id && Shows(s, r.value)
  {
    if id in s then Some(Format(id, s[id])) else None
  }

  /** Newest first, the order `ORDER BY createdAt DESC` produces. */
  predicate NewestFirst(r: seq<TaskView>)
  {
    forall i, j :: 0 <= i < j < |r| ==> r[i].task.createdAt >= r[j].task.createdAt
  }

  /** No row appears twice. */
  predicate DistinctIds(r: seq<TaskView>)
  {
    forall i, j :: 0 <= i < j < |r| ==> r[i].id != r[j].id
  }

  /** What `SELECT * FROM tasks WHERE parentTaskId <op> ? ORDER BY createdAt
      DESC` returns: every matching row once, formatted, newest first. The
      order among rows with equal timestamps is left open, as in SQL. */
  ghost predicate IsListing(s: Store, parent: Option<Id>, r: seq<TaskView>)
  {
    && (forall v :: v in r ==> Shows(s, v) && s[v.id].parentTaskId == parent)
    && (forall k :: k in s && s[k].parentTaskId == parent ==> Format(k, s[k]) in r)
    && DistinctIds(r)
    && NewestFirst(r)
  }

  /** Inserts `v` into a newest-first list after every row at least as
      new. */
  function Insert(xs: seq<TaskView>, v: TaskView): (r: seq<TaskView>)
    ensures |r| == |xs| + 1
    ensures forall x :: x in r <==> x in xs || x == v
  {
    if |xs| == 0 || xs[0].task.createdAt < v.task.createdAt then [v] + xs
    else [xs[0]] + Insert(xs[1..], v)
  }

  lemma {:induction false} InsertNewestFirst(xs: seq<TaskView>, v: TaskView)
    requires NewestFirst(xs)
    ensures NewestFirst(Insert(xs, v))
  {
    if |xs| > 0 && xs[0].task.createdAt >= v.task.createdAt {
      var rest := Insert(xs[1..], v);
      InsertNewestFirst(xs[1..], v);
      forall j | 0 <= j < |rest| ensures rest[j].task.createdAt <= xs[0].task.createdAt {
        assert rest[j] in xs[1..] || rest[j] == v;
      }
    }
  }

  lemma {:induction false} InsertDistinct(xs: seq<TaskView>, v: TaskView)
    requires DistinctIds(xs)
    requires forall x :: x in xs ==> x.id != v.id
    ensures DistinctIds(Insert(xs, v))
  {
    if |xs| > 0 && xs[0].task.createdAt >= v.task.createdAt {
      var rest := Insert(xs[1..], v);
      InsertDistinct(xs[1..], v);
      forall j | 0 <= j < |rest| ensures rest[j].id != xs[0].id {
        assert rest[j] in xs[1..] || rest[j] == v;
      }
    }
  }

  /** The rows whose parent reference equals `parent`, newest first:
      `getAll` with `None` (`IS NULL`) and `getSubTasks` with `Some(p)`. */
  method ListByParent(s: Store, parent: Option<Id>) returns (r: seq<TaskView>)
    ensures forall v :: v in r ==> Shows(s, v) && s[v.id].parentTaskId == parent
    ensures forall k :: k in s && s[k].parentTaskId == parent ==> Format(k, s[k]) in r
    ensures DistinctIds(r)
    ensures NewestFirst(r)
  {
    var todo := s.Keys;
    r := [];
    while todo != {}
      invariant todo <= s.Keys
      invariant forall v :: v in r ==> Shows(s, v) && s[v.id].parentTaskId == parent && v.id !in todo
      invariant forall k :: k in s && k !in todo && s[k].parentTaskId == parent ==> Format(k, s[k]) in r
      invariant DistinctIds(r)
      invariant NewestFirst(r)
      decreases todo
    {
      var k :| k in todo;
      if s[k].parentTaskId == parent {
        InsertNewestFirst(r, Format(k, s[k]));
        InsertDistinct(r, Format(k, s[k]));
        r := Insert(r, Format(k, s[k]));
      }
      todo := todo - {k};
    }
  }

  /** `TaskModel.getAll`: the top-level tasks, newest first. */
  method GetAll(s: Store) returns (r: seq<TaskView>)
    ensures IsListing(s, None, r)
  {
    r := ListByParent(s, None);
  }

  /** `TaskModel.getSubTasks`: the direct sub-tasks of `p`, newest first. */
  method GetSubTasks(s: Store, p: Id) returns (r: seq<TaskView>)
    ensures IsListing(s, Some(p), r)
  {
    r := ListByParent(s, Some(p));
  }

  // ---------------------------------------------------------------------
  // calculateParentTaskStatus (Task.js:256-268)

  function Statuses(vs: seq<TaskView>): (r: seq<real>)
    ensures |r| == |vs|
    ensures forall i :: 0 <= i < |vs| ==> r[i] == vs[i].task.status as real
  {
    if |vs| == 0 then [] else [vs[0].task.status as real] + Statuses(vs[1..])
  }

  /** `TaskModel.calculateParentTaskStatus`: null without sub-tasks, else
      the rounded mean of the direct sub-tasks' statuses, itself a valid
      status. */
  method CalculateParentTaskStatus(s: Store, p: Id) returns (r: Option<int>)
    ensures r.None? <==> forall k :: k in s ==> s[k].parentTaskId != Some(p)
    ensures r.Some? ==> 0 <= r.value <= 100
    ensures r.Some? ==> exists kids :: IsListing(s, Some(p), kids) && |kids| > 0 && r.value == RoundedAverage(Statuses(kids))
  {
    var kids := GetSubTasks(s, p);
    if |kids| == 0 {
      r := None;
    } else {
      var xs := Statuses(kids);
      RoundedAverageBounds(xs, 0, 100);
      r := Some(RoundedAverage(xs));
    }
  }

  // ---------------------------------------------------------------------
  // update (Task.js:167-230)

  /** The allowed fields of an update body; an absent key is `Undefined`.
      Keys outside these five are ignored by `update`. */
  datatype Patch = Patch(
    title: Value,
    description: TextValue,
    dueDate: TextValue,
    category: Value,
    status: Value)

  /** `fieldsToUpdate` is non-empty: some allowed key is present. */
  predicate Touches(p: Patch)
  {
    !p.title.Undefined? || !p.description.Undefined? || !p.dueDate.Undefined?
    || !p.category.Undefined? || !p.status.Undefined?
  }

  /** Every rule `update` enforces on the fields present. A null
      description is rejected too: reading its length throws. */
  predicate PatchOk(p: Patch)
  {
    && (p.title.Undefined? || TitleOk(p.title))
    && !p.description.Null? && DescriptionOk(p.description)
    && (p.category.Undefined? || CategoryOk(p.category))
    && (p.status.Undefined? || StatusOk(p.status))
    && DueDateOk(p.dueDate)
  }

  /** The row after `UPDATE tasks SET <present fields>, updatedAt = now`. */
  function Apply(t: Task, p: Patch, now: nat): Task
    requires PatchOk(p)
  {
    t.(title := if p.title.Str? then Trim(p.title.s) else t.title,
       description := Column(p.description, t.description),
       dueDate := Column(p.dueDate, t.dueDate),
       category := if p.category.Str? then Parse(p.category.s).value else t.category,
       status := if p.status.Num? then p.status.n.Floor else t.status,
       updatedAt := now)
  }

  /** The first check `update` fails, in the order the checks run; `None`
      when the update can be written. */
  function UpdateError(s: Store, id: Id, p: Patch): (r: Option<ModelError>)
    ensures r == Some(TaskNotFound(id)) <==> id !in s
    ensures r.Some? && r.value.TaskNotFound? ==> r.value.id == id
    ensures r == Some(TitleRequired) <==> id in s && !p.title.Undefined? && (!p.title.Str? || IsBlank(p.title.s))
    ensures r == Some(TitleTooLong) <==>
      id in s && p.title.Str? && !IsBlank(p.title.s) && Utf16Length(p.title.s) > 255
    ensures r == Some(NullDescription) <==>
      id in s && (p.title.Undefined? || TitleOk(p.title)) && p.description.Null?
    ensures r == Some(DescriptionTooLong) <==>
      id in s && (p.title.Undefined? || TitleOk(p.title)) && p.description.Str?
      && Utf16Length(p.description.s) > 1000
    ensures r == Some(InvalidCategory) <==>
      id in s && (p.title.Undefined? || TitleOk(p.title)) && !p.description.Null? && DescriptionOk(p.description)
      && !p.category.Undefined? && !CategoryOk(p.category)
    ensures r == Some(InvalidStatus) <==>
      id in s && (p.title.Undefined? || TitleOk(p.title)) && !p.description.Null? && DescriptionOk(p.description)
      && (p.category.Undefined? || CategoryOk(p.category))
      && !p.status.Undefined? && !StatusOk(p.status)
    ensures r == Some(InvalidDueDate) <==> id in s && PatchOk(p.(dueDate := Undefined)) && !DueDateOk(p.dueDate)
    ensures r.Some? ==> !r.value.ParentNotFound? && !r.value.ForeignKeyFailed?
    ensures r.None? <==> id in s && PatchOk(p)
  {
    if id !in s then Some(TaskNotFound(id))
    else if !p.title.Undefined? && (!p.title.Str? || IsBlank(p.title.s)) then Some(TitleRequired)
    else if p.title.Str? && Utf16Length(p.title.s) > 255 then Some(TitleTooLong)
    else if p.description.Null? then Some(NullDescription)
    else if !DescriptionOk(p.description) then Some(DescriptionTooLong)
    else if !p.category.Undefined? && !CategoryOk(p.category) then Some(InvalidCategory)
    else if !p.status.Undefined? && !StatusOk(p.status) then Some(InvalidStatus)
    else if !DueDateOk(p.dueDate) then Some(InvalidDueDate)
    else None
  }

  /** `update`: fails with the first failing check (`UpdateError`), else
      writes the supplied allowed fields and stamps `updatedAt`. */
  function Update(s: Store, id: Id, p: Patch, now: nat): (r: Result<Change, ModelError>)
    // which error: the first check that fails
    ensures r.Failure? <==> UpdateError(s, id, p).Some?
    ensures r.Failure? ==> r.error == UpdateError(s, id, p).value
    ensures r.Success? <==> id in s && PatchOk(p)
    // what a successful update writes
    ensures r.Success? ==>
      && r.value.store.Keys == s.Keys
      && (forall k :: k in s && k != id ==> r.value.store[k] == s[k])
      && r.value.task == Format(id, r.value.store[id])
    ensures r.Success? ==>
      var before, after := s[id], r.value.store[id];
      && after.parentTaskId == before.parentTaskId
      && after.createdAt == before.createdAt
      && after.title == (if p.title.Undefined? then before.title else Trim(p.title.s))
      && after.description == (if p.description.Str? then Some(p.description.s) else before.description)
      && after.dueDate == Column(p.dueDate, before.dueDate)
      && (p.category.Undefined? ==> after.category == before.category)
      && (p.category.Str? ==> Name(after.category) == p.category.s)
      && after.status as real == (if p.status.Undefined? then before.status as real else p.status.n)
      && after.updatedAt == (if Touches(p) then now else before.updatedAt)
    ensures r.Success? && !Touches(p) ==> r.value.store == s
  {
    match UpdateError(s, id, p)
    case Some(e) => Failure(e)
    case None =>
      if !Touches(p) then Success(Change(s, Format(id, s[id])))
      else
        var t := Apply(s[id], p, now);
        Success(Change(s[id := t], Format(id, t)))
  }


  /** An update never touches a parent reference, so it keeps every one
      resolvable. */
  lemma UpdateKeepsParents(s: Store, id: Id, p: Patch, now: nat)
    requires ParentsExist(s)
    ensures var r := Update(s, id, p, now); r.Success? ==> ParentsExist(r.value.store)
  {
  }

  // ---------------------------------------------------------------------
  // delete and getSubTaskIds (Task.js:238-249, 275-288)

  /** `TaskModel.getSubTaskIds`: every transitive sub-task of `id`. */
  function SubTaskIds(s: Store, id: Id): (r: set<Id>)
    ensures r <= s.Keys
  {
    Cascade(s, id) - {id}
  }

  /** The ids are exactly the tasks below `id` (other than `id` itself,
      which only a cyclic store could reach). */
  lemma SubTaskIdsAreDescendants(s: Store, id: Id, k: Id)
    ensures k in SubTaskIds(s, id) <==> k != id && IsDescendant(s, id, k)
  {
    CascadeIsSubtree(s, id, k);
  }

  /** `TaskModel.delete`: the `DELETE` of one row, which the foreign key's
      `ON DELETE CASCADE` extends to all its transitive sub-tasks. */
  function Delete(s: Store, id: Id): (r: Result<Store, ModelError>)
    ensures r.Failure? <==> id !in s
    ensures r.Failure? ==> r.error == TaskNotFound(id)
    ensures r.Success? ==> r.value.Keys == s.Keys - ({id} + SubTaskIds(s, id))
    ensures r.Success? ==> forall k :: k in r.value ==> r.value[k] == s[k]
    ensures r.Success? && ParentsExist(s) ==> ParentsExist(r.value)
  {
    if id !in s then Failure(TaskNotFound(id))
    else
      var gone := Cascade(s, id);
      var kept := map k | k in s && k !in gone :: s[k];
      assert ParentsExist(s) ==> ParentsExist(kept) by {
        if ParentsExist(s) {
          forall k | k in kept && kept[k].parentTaskId.Some?
            ensures kept[k].parentTaskId.value in kept
          {
            assert !ChildOf(s, k, gone);
          }
        }
      }
      Success(kept)
  }

  /** Deleting `id` removes precisely `id` and the tasks below it. */
  lemma DeleteRemovesSubtree(s: Store, id: Id, k: Id)
    requires id in s && k in s
    ensures k !in Delete(s, id).value <==> k == id || IsDescendant(s, id, k)
  {
    CascadeIsSubtree(s, id, k);
  }
}
