/** The request validators of packages/backend/src/middleware/validation.js:
    pure functions from a request to "pass" (Express's `next()`) or the
    error code of the first failing check, sent as a 400 response. */
module Validation {
  import opened Wrappers
  import opened JsValues
  import opened Text
  import opened TaskRules

  /** A parsed JSON request body. Each field the validators or the
      controller read is a `Value` (`Undefined` when the key is absent);
      `otherKeys` counts the remaining keys, which matter only to
      `Object.keys`. */
  datatype Body = Body(
    title: Value,
    description: Value,
    dueDate: Value,
    category: Value,
    status: Value,
    parentTaskId: Value,
    otherKeys: nat)

  /** `Object.keys(body).length`. */
  function KeyCount(b: Body): (n: nat)
    ensures n == 0 <==>
      b.title.Undefined? && b.description.Undefined? && b.dueDate.Undefined?
      && b.category.Undefined? && b.status.Undefined? && b.parentTaskId.Undefined? && b.otherKeys == 0
  {
    (if b.title.Undefined? then 0 else 1)
    + (if b.description.Undefined? then 0 else 1)
    + (if b.dueDate.Undefined? then 0 else 1)
    + (if b.category.Undefined? then 0 else 1)
    + (if b.status.Undefined? then 0 else 1)
    + (if b.parentTaskId.Undefined? then 0 else 1)
    + b.otherKeys
  }

  /** The `code` field of a validator's 400 response. */
  datatype Code =
    | InvalidTitle
    | TitleTooLong
    | InvalidDescription
    | DescriptionTooLong
    | InvalidCategory
    | InvalidStatus
    | InvalidDueDate
    | InvalidDueDateFormat
    | InvalidTaskId

  function CodeName(c: Code): string
  {
    match c
    case InvalidTitle => "INVALID_TITLE"
    case TitleTooLong => "TITLE_TOO_LONG"
    case InvalidDescription => "INVALID_DESCRIPTION"
    case DescriptionTooLong => "DESCRIPTION_TOO_LONG"
    case InvalidCategory => "INVALID_CATEGORY"
    case InvalidStatus => "INVALID_STATUS"
    case InvalidDueDate => "INVALID_DUE_DATE"
    case InvalidDueDateFormat => "INVALID_DUE_DATE_FORMAT"
    case InvalidTaskId => "INVALID_TASK_ID"
  }

  // ---------------------------------------------------------------------
  // The optional fields, checked alike by both body validators
  // (validation.js:30-82 and 113-162)

  predicate DescriptionAcceptable(v: Value)
  {
    IsSupplied(v) ==> v.Str? && Utf16Length(v.s) <= 1000
  }

  predicate CategoryAcceptable(v: Value)
  {
    IsSupplied(v) ==> CategoryOk(v)
  }

  predicate StatusAcceptable(v: Value)
  {
    IsSupplied(v) ==> StatusOk(v)
  }

  /** Unlike the data layer, an empty due date is rejected: the regular
      expression needs ten characters. */
  predicate DueDateAcceptable(v: Value)
  {
    IsSupplied(v) ==> v.Str? && HasDatePrefix(v.s)
  }

  predicate FieldsAcceptable(b: Body)
  {
    && DescriptionAcceptable(b.description)
    && CategoryAcceptable(b.category)
    && StatusAcceptable(b.status)
    && DueDateAcceptable(b.dueDate)
  }

  /** The checks after the title, in source order: description type and
      length, category, status, due date type and shape. */
  function CheckFields(b: Body): (r: Outcome<Code>)
    ensures r.Pass? <==> FieldsAcceptable(b)
    ensures r == Fail(InvalidDescription) <==> IsSupplied(b.description) && !b.description.Str?
    ensures r == Fail(DescriptionTooLong) <==> b.description.Str? && Utf16Length(b.description.s) > 1000
    ensures r == Fail(InvalidCategory) <==> DescriptionAcceptable(b.description) && !CategoryAcceptable(b.category)
    ensures r == Fail(InvalidStatus) <==>
      DescriptionAcceptable(b.description) && CategoryAcceptable(b.category) && !StatusAcceptable(b.status)
    ensures r == Fail(InvalidDueDate) <==>
      DescriptionAcceptable(b.description) && CategoryAcceptable(b.category) && StatusAcceptable(b.status)
      && IsSupplied(b.dueDate) && !b.dueDate.Str?
    ensures r == Fail(InvalidDueDateFormat) <==>
      DescriptionAcceptable(b.description) && CategoryAcceptable(b.category) && StatusAcceptable(b.status)
      && b.dueDate.Str? && !HasDatePrefix(b.dueDate.s)
    ensures r.Fail? ==> r.error != InvalidTitle && r.error != TitleTooLong && r.error != InvalidTaskId
  {
    if IsSupplied(b.description) && !b.description.Str? then Fail(InvalidDescription)
    else if b.description.Str? && Utf16Length(b.description.s) > 1000 then Fail(DescriptionTooLong)
    else if IsSupplied(b.category) && !CategoryOk(b.category) then Fail(InvalidCategory)
    else if IsSupplied(b.status) && !StatusOk(b.status) then Fail(InvalidStatus)
    else if IsSupplied(b.dueDate) && !b.dueDate.Str? then Fail(InvalidDueDate)
    else if b.dueDate.Str? && !HasDatePrefix(b.dueDate.s) then Fail(InvalidDueDateFormat)
    else Pass
  }

  // ---------------------------------------------------------------------
  // validateCreateTask (validation.js:11-85)

  /** `validateCreateTask`: a required title, then the optional fields. */
  function ValidateCreateTask(b: Body): (r: Outcome<Code>)
    ensures r.Pass? <==> TitleOk(b.title) && FieldsAcceptable(b)
    ensures r == Fail(InvalidTitle) <==> !b.title.Str? || IsBlank(b.title.s)
    ensures r == Fail(TitleTooLong) <==> b.title.Str? && !IsBlank(b.title.s) && Utf16Length(b.title.s) > 255
    ensures TitleOk(b.title) ==> r == CheckFields(b)
  {
    if !Truthy(b.title) || !b.title.Str? || IsBlank(b.title.s) then Fail(InvalidTitle)
    else if Utf16Length(b.title.s) > 255 then Fail(TitleTooLong)
    else CheckFields(b)
  }

  /** The date check looks at a prefix only: with any valid title, a due
      date that merely starts with YYYY-MM-DD (a date-time such as
      `2025-11-15T10:00`, or trailing text) passes. */
  lemma CreateAcceptsDateTime(title: string, due: string)
    requires TitleOk(Str(title)) && HasDatePrefix(due)
    ensures ValidateCreateTask(Body(Str(title), Undefined, Str(due), Undefined, Undefined, Undefined, 0)).Pass?
  {
    assert DueDateAcceptable(Str(due));
  }

  // ---------------------------------------------------------------------
  // validateUpdateTask (validation.js:93-165)

  /** `validateUpdateTask`: the same rules with every field optional, the
      title included. */
  function ValidateUpdateTask(b: Body): (r: Outcome<Code>)
    ensures r.Pass? <==> (IsSupplied(b.title) ==> TitleOk(b.title)) && FieldsAcceptable(b)
    ensures r == Fail(InvalidTitle) <==> IsSupplied(b.title) && (!b.title.Str? || IsBlank(b.title.s))
    ensures r == Fail(TitleTooLong) <==> b.title.Str? && !IsBlank(b.title.s) && Utf16Length(b.title.s) > 255
    ensures !IsSupplied(b.title) || TitleOk(b.title) ==> r == CheckFields(b)
  {
    if IsSupplied(b.title) && (!b.title.Str? || IsBlank(b.title.s)) then Fail(InvalidTitle)
    else if b.title.Str? && Utf16Length(b.title.s) > 255 then Fail(TitleTooLong)
    else CheckFields(b)
  }

  /** Every body the create validator accepts, the update validator
      accepts too; the update validator also accepts the empty body. */
  lemma UpdateLooserThanCreate(b: Body)
    ensures ValidateCreateTask(b).Pass? ==> ValidateUpdateTask(b).Pass?
    ensures ValidateUpdateTask(Body(Undefined, Undefined, Undefined, Undefined, Undefined, Undefined, 0)).Pass?
  {
  }

  // ---------------------------------------------------------------------
  // validateTaskId (validation.js:173-184)

  /** `validateTaskId` on a route parameter, which Express always supplies
      as a string: it must hold a non-whitespace character. */
  function ValidateTaskId(id: string): (r: Outcome<Code>)
    ensures r.Pass? <==> exists i :: 0 <= i < |id| && !IsWhitespace(id[i])
    ensures r.Fail? ==> r.error == InvalidTaskId
  {
    if |id| == 0 || IsBlank(id) then Fail(InvalidTaskId) else Pass
  }
}
