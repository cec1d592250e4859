# Task manager core, modelled in Dafny

The application is a task manager with sub-tasks: an Express/SQLite REST API and a React client. This project models the rules the application applies to a task record, in the three places they live.

- **Data layer** (`Task.js`). The database is an immutable `map<Id, Task>`:
  - create, read, list, update and delete;
  - the parent's derived status;
  - the descendant set removed by `ON DELETE CASCADE`;
  - the formatted record with `isCompleted`.
- **HTTP layer.**
  - The request validators (`validation.js`), each a pure function from a request body to `Pass` or the first failing error code.
  - The controller (`taskController.js`), mapping each data-layer outcome to a status code, an error code and the store it leaves behind. This includes 404 routing on messages that contain "not found".
  - The route chains of `app.js`, which run a validator before a handler.
- **Client utilities** (`task-manager.js`, `date-utils.js`). Pure functions over sequences of task records:
  - create and validate a task;
  - filter and sort the list;
  - sub-tasks and parent status;
  - status labels;
  - due-date ranges and relative date labels.

  Calendar dates are day numbers from a proleptic Gregorian days-from-civil conversion, and "today" is a parameter.

The clock, the UUID generator and "today" are parameters. Each layer keeps its own copy of the shared rules, just as the source does. The lemmas compare the copies where they disagree, for example:
- the client accepts a fractional status;
- the server accepts a date-time due date;
- the data layer accepts an empty due date, which the validator refuses.

Modules (one file each):
- Shared foundations:
  - `Wrappers`: `Option`, `Result` and `Outcome`;
  - `Text`: `trim`, ASCII `toLowerCase`, `includes`, the date regexes, integer printing, and the UTF-16 code units behind `.length` and string `<`;
  - `JsValues`: the JavaScript values the validators branch on;
  - `Categories`: the eight categories;
  - `Numeric`: `Math.round` and the rounded average;
  - `Calendar`: day numbers and weekdays;
  - `DateText`: YYYY-MM-DD reading and writing;
  - `Sequences`: order-keeping `filter`;
  - `Ordering`: JavaScript `<` on sort keys, plus a stable insertion sort.
- Data and HTTP layers:
  - `TaskRules`: the field rules;
  - `Tasks`: the task record, the store and the formatted view;
  - `Hierarchy`: the cascade closure and descendants;
  - `TaskModel`: `Task.js`;
  - `Validation`: `validation.js`;
  - `Controller`: `taskController.js`;
  - `Routes`: `app.js`.
- Client:
  - `DateUtils`: `date-utils.js`;
  - `TaskManager`: `task-manager.js`.

Where the code and its documentation or tests disagree, the model follows the code:
- A `null` category or status in a create request passes the validator. The data layer then rejects it, because destructuring defaults apply only to `undefined`. The documented behaviour is that a missing value is defaulted.
- Errors reach 404 by substring match on the message, not by a structured error kind.
- The relative date labels are "Yesterday", "Nd overdue", "Today", "Tomorrow", a weekday name or a calendar date. The date-utils tests expect "Due Today", "Due in …" and "Overdue by …", which the code does not produce.
- A weekday name is given only strictly before today + 7, while the 'week' filter includes today + 7.
- The client's 'in-progress' filter excludes exactly the statuses 0 and 100. For statuses outside [0, 100] this is not "strictly between 0 and 100".

## Model

| member | source | states |
|---|---|---|
| Tasks.Format | packages/backend/src/models/Task.js:296-302 | the formatted record carries the id and the stored fields, and `isCompleted` holds exactly when the status is 100 |
| Hierarchy.Closure | packages/backend/src/utils/database.js:27 | the closure contains the seed set, stays within the store's keys, and is closed under "the parent is removed, so the child is removed" |
| Hierarchy.Cascade | packages/backend/src/utils/database.js:27 | deleting a row removes the row itself and every row whose parent is removed, transitively |
| Hierarchy.ClosureLeast | packages/backend/src/utils/database.js:27 | the closure is the least closed superset of the seed: cascade removes nothing it does not have to |
| Hierarchy.ClosureReachable | packages/backend/src/models/Task.js:275-288 | every id the closure adds is a descendant, through a chain of parent links, of a seed id |
| Hierarchy.CascadeIsSubtree | packages/backend/src/models/Task.js:275-288 | an id is removed by deleting a root exactly when it is the root or one of its transitive descendants |
| TaskModel.NotFoundMessages | packages/backend/src/models/Task.js:44-79 | a data-layer error message contains "not found" exactly for a missing parent or a missing task, so the controller's substring test recognises exactly those |
| TaskModel.MissingRowMessages | packages/backend/src/models/Task.js:77 | the missing-parent and missing-task messages contain "not found", whatever the id |
| TaskModel.CategoryMessageClean | packages/backend/src/models/Task.js:55 | the category message, which lists all eight names, does not contain "not found" |
| TaskModel.CreateError | packages/backend/src/models/Task.js:44-79 | the first failing check, in the order title, length, category, status, description, due date, parent, with lengths counted in UTF-16 code units: a missing non-empty parent id is ParentNotFound with that id, an empty one the foreign-key failure; none exactly when every field rule holds and the parent resolves |
| TaskModel.NewRow | packages/backend/src/models/Task.js:81-100 | the inserted row has the trimmed title, the category and status with their defaults, description defaulting to "", due date and parent defaulting to null, and both timestamps `now` |
| TaskModel.Create | packages/backend/src/models/Task.js:33-111 | create fails exactly when a check fails, with that check's error, and leaves the store alone; on success the store gains exactly the new id, keeps every other row, and holds the row built from the request, returned formatted |
| TaskModel.CreateKeepsParents | packages/backend/src/models/Task.js:74-79 | a successful create keeps every parent reference resolvable |
| TaskModel.GetById | packages/backend/src/models/Task.js:118-127 | the lookup succeeds exactly for stored ids and returns that task's formatted record |
| TaskModel.ListByParent | packages/backend/src/models/Task.js:133-158 | the listing holds exactly the formatted tasks with the given parent, each once, newest first |
| TaskModel.InsertNewestFirst | packages/backend/src/models/Task.js:137 | inserting a record into a newest-first list keeps it newest first |
| TaskModel.InsertDistinct | packages/backend/src/models/Task.js:133-141 | inserting a record with a new id keeps the listing's ids distinct |
| TaskModel.GetAll | packages/backend/src/models/Task.js:133-142 | the result lists exactly the top-level tasks, once each, by `createdAt` descending |
| TaskModel.GetSubTasks | packages/backend/src/models/Task.js:149-158 | the result lists exactly the direct children of the parent, once each, by `createdAt` descending |
| TaskModel.CalculateParentTaskStatus | packages/backend/src/models/Task.js:256-268 | null exactly when no task has the parent; otherwise the rounded mean of the children's statuses, in [0, 100] |
| TaskModel.UpdateError | packages/backend/src/models/Task.js:168-205 | a missing id is TaskNotFound; then, each exactly when every earlier check passes: TitleRequired, TitleTooLong (over 255 UTF-16 code units), a null description, DescriptionTooLong (over 1000 code units), InvalidCategory, InvalidStatus, InvalidDueDate; never a parent error; none exactly for a stored id and a patch passing every rule |
| TaskModel.Update | packages/backend/src/models/Task.js:167-230 | fails exactly with the first failing check (`UpdateError`) and succeeds exactly for a stored id and a patch passing every rule; on success only the supplied allowed fields change (title trimmed), id, parent and `createdAt` stay, `updatedAt` becomes `now` exactly when a field is supplied, no other task changes, and an update without allowed keys leaves the store as it was |
| TaskModel.UpdateKeepsParents | packages/backend/src/models/Task.js:207-213 | an update never breaks a parent reference |
| TaskModel.SubTaskIds | packages/backend/src/models/Task.js:275-288 | the sub-task ids lie within the stored ids; their exact contents are given by `TaskModel.SubTaskIdsAreDescendants` |
| TaskModel.SubTaskIdsAreDescendants | packages/backend/src/models/Task.js:275-288 | the sub-task ids of a task are exactly its transitive descendants |
| TaskModel.Delete | packages/backend/src/models/Task.js:238-249 | a missing id is TaskNotFound; otherwise the task and its descendants are removed, every other task stays unchanged, and parent references remain resolvable |
| TaskModel.DeleteRemovesSubtree | packages/backend/src/utils/database.js:27 | after a delete, a stored task is gone exactly when it is the deleted task or one of its descendants |
| Validation.KeyCount | packages/backend/src/controllers/taskController.js:90 | the body has no keys exactly when every field is absent and there are no other keys |
| Validation.CheckFields | packages/backend/src/middleware/validation.js:29-82 | the optional-field checks report the first failure in the order description type, description length (over 1000 UTF-16 code units), category, status, due-date type, due-date format; null and absent fields are skipped |
| Validation.ValidateCreateTask | packages/backend/src/middleware/validation.js:11-85 | a create body passes exactly when the title is a non-blank string of at most 255 UTF-16 code units and every optional field is acceptable; title errors come first |
| Validation.CreateAcceptsDateTime | packages/backend/src/middleware/validation.js:76-82 | the due-date check is prefix-only: with a valid title, any due date that starts with YYYY-MM-DD passes, a date-time such as `2025-11-15T10:00` included |
| Validation.ValidateUpdateTask | packages/backend/src/middleware/validation.js:93-165 | an update body passes exactly when a supplied title is a non-blank string of at most 255 UTF-16 code units and every optional field is acceptable |
| Validation.UpdateLooserThanCreate | packages/backend/src/middleware/validation.js:93-165 | every body the create validator accepts is accepted for update, and so is the empty body |
| Validation.ValidateTaskId | packages/backend/src/middleware/validation.js:173-184 | an id passes exactly when it has a non-whitespace character |
| Controller.StatusFor | packages/backend/src/controllers/taskController.js:72 | a missing parent or task gives 404; any other error gives the handler's fallback status |
| Controller.GetAllTasks | packages/backend/src/controllers/taskController.js:11-22 | 200 with the top-level listing |
| Controller.GetTask | packages/backend/src/controllers/taskController.js:28-48 | 404 TASK_NOT_FOUND exactly for a missing id, else 200 with the stored record |
| Controller.CreateTask | packages/backend/src/controllers/taskController.js:54-78 | 201 exactly when the data layer accepts; 404 exactly for a missing parent; otherwise 400; every failure is CREATE_TASK_ERROR and leaves the store unchanged |
| Controller.UpdateTask | packages/backend/src/controllers/taskController.js:84-110 | an empty body is 400 NO_UPDATES_PROVIDED and leaves the store unchanged; otherwise 404 exactly for a missing id and 200 exactly when the update succeeds; failures leave the store as it was |
| Controller.DeleteTask | packages/backend/src/controllers/taskController.js:116-136 | 404 exactly for a missing id; otherwise 200 echoing the id, with the cascade applied |
| Controller.GetSubTasksHandler | packages/backend/src/controllers/taskController.js:142-164 | 404 for a missing parent, else 200 with exactly its direct children, newest first |
| Routes.Reject | packages/backend/src/middleware/validation.js:15-27 | a validator rejection is a 400 carrying the failing code |
| Routes.CreateAfterValidation | packages/backend/src/app.js:24 | after the create validator passes, the data layer rejects only a null category or null status |
| Routes.EmptyDueDateOnlyModelAccepts | packages/backend/src/middleware/validation.js:76-82 | an empty due date fails the validator although the data layer would accept it |
| Routes.UpdateAfterValidation | packages/backend/src/app.js:26 | after the update validator passes, the data layer refuses exactly a null title, description, category or status |
| Routes.GetTaskRoute | packages/backend/src/app.js:22 | 200 exactly for a valid id that is stored, with that record; a blank id is INVALID_TASK_ID |
| Routes.PostTaskRoute | packages/backend/src/app.js:24 | 201 exactly when the validator passes, no null category or status, and the parent resolves; 404 for a missing parent; the store grows by the new id alone |
| Routes.PutTaskRoute | packages/backend/src/app.js:26 | 200 exactly for a valid id, a non-empty body, a passing validator, a stored task and no null the data layer refuses; anything else leaves the store |
| Routes.EmptyPutToMissingTask | packages/backend/src/controllers/taskController.js:90-97 | an empty body to a missing task answers 400 NO_UPDATES_PROVIDED, not 404 |
| Routes.PutWithoutUpdatableKeys | packages/backend/src/models/Task.js:208-213 | a body with keys but none of the five updatable ones returns the task unchanged with 200 |
| Routes.DeleteTaskRoute | packages/backend/src/app.js:28 | 200 exactly for a valid stored id, removing it and its descendants; otherwise the store is unchanged |
| Routes.GetSubTasksRoute | packages/backend/src/app.js:30 | 200 exactly for a valid stored parent, with its children's listing |
| Routes.RoutesKeepParents | packages/backend/src/utils/database.js:27 | no route breaks a parent reference |
| Categories.Parse | packages/backend/src/models/Task.js:53-56 | a category name is accepted exactly when it is one of the eight, and names that category |
| Numeric.Round | packages/backend/src/models/Task.js:263 | `Math.round` gives the integer r with r - 0.5 <= x < r + 0.5: the nearest integer, halves rounded up |
| Numeric.RoundedAverageBounds | packages/backend/src/models/Task.js:263-265 | the rounded mean of statuses in [0, 100] is in [0, 100] |
| Text.Trim | packages/backend/src/models/Task.js:44 | `trim` returns the slice between leading and trailing whitespace; it is empty exactly for an all-whitespace string |
| Text.TrimNoLonger | packages/frontend/src/utils/task-manager.js:21-25 | trimming never makes a string longer in UTF-16 code units, so a title within the limit stays within it after `trim` |
| Text.CodeUnitsAppend | packages/backend/src/models/Task.js:48 | the code units of a concatenation are those of its parts, one after the other |
| Text.BmpLength | packages/backend/src/models/Task.js:48 | `.length` of a string of characters below U+10000 is its number of characters |
| Text.AstralLength | packages/backend/src/models/Task.js:48 | `.length` of a string of characters at or above U+10000 is twice its number of characters |
| TaskRules.AstralTitleRefused | packages/backend/src/models/Task.js:48-50 | a title of 128 emoji is too long: 256 code units |
| Text.TrimIdempotent | packages/backend/src/models/Task.js:100 | trimming a stored (already trimmed) title again changes nothing |
| Text.NatToStringRoundTrip | packages/frontend/src/utils/task-manager.js:229 | the printed digits of a number read back as that number |
| Text.IntToStringInjective | packages/frontend/src/utils/task-manager.js:229 | different integers print differently |
| Calendar.NextDayIsNextNumber | packages/frontend/src/utils/date-utils.js:18-19 | the calendar's next day has the next day number, which is what `setDate(getDate() + 1)` produces |
| Calendar.DayNumberOrder | packages/frontend/src/utils/date-utils.js:27 | day numbers order valid dates as the calendar does and are equal only for equal dates |
| Calendar.Rollover | packages/frontend/src/utils/date-utils.js:24 | a day from 1 to 31 past its month's end lands on the real date with the same day number, in the same year; a real date stays as it is |
| Calendar.MonthLaterSpan | packages/frontend/src/utils/date-utils.js:81-83 | one month on from a date is as many days on as its month has, 28 to 31 |
| DateText.ParseFormat | packages/frontend/src/utils/task-manager.js:69 | writing a four-digit-year date as YYYY-MM-DD and reading it back gives the date |
| DateText.FormatParse | packages/frontend/src/utils/task-manager.js:69 | a YYYY-MM-DD string naming a real date is what writing that date produces |
| DateUtils.ReadDue | packages/frontend/src/utils/date-utils.js:24-25 | a falsy string is no date; a YYYY-MM-DD string is read as a day exactly when its month is 01-12 and its day 01-31, and the day has the day number of the fields it spells, so a day past its month's end rolls into the next month; a real date is read as itself and writing it back gives the string; anything else is the invalid date |
| DateUtils.FebruaryThirtiethRollsOver | packages/frontend/src/utils/date-utils.js:24-25 | `2025-02-30` is read as 2025-03-02 |
| DateUtils.MatchesDateRange | packages/frontend/src/utils/date-utils.js:55-90 | no date matches only 'no-due-date'; an invalid date matches only unknown ranges; otherwise overdue, today, tomorrow, week (inclusive +7) and month (inclusive one month on) are the stated day-number intervals, 'no-due-date' is false and unknown ranges are true |
| DateUtils.RangesInCalendarTerms | packages/frontend/src/utils/date-utils.js:66-84 | overdue is "before today" in calendar order, 'today' and 'tomorrow' are those dates, and 'month' reaches as many days on as the month has |
| DateUtils.IsOverdue | packages/frontend/src/utils/date-utils.js:107-117 | overdue exactly for a readable date before today |
| DateUtils.IsOverdueMatchesRange | packages/frontend/src/utils/date-utils.js:107-117 | `isOverdue` agrees with the 'overdue' range for every due date |
| DateUtils.DaysUntilDue | packages/frontend/src/utils/date-utils.js:124-134 | null without a date, NaN for an invalid one, else the days from today to the due day |
| DateUtils.DaysUntilDueSign | packages/frontend/src/utils/date-utils.js:124-134 | positive exactly for dates after today, negative exactly for overdue dates, zero for today |
| DateUtils.FormatDateForInput | packages/frontend/src/utils/date-utils.js:97-100 | "" for a missing date, else the text before the first 'T' |
| DateUtils.FormatDateForInputProperties | packages/frontend/src/utils/date-utils.js:97-100 | formatting is idempotent and leaves a YYYY-MM-DD string unchanged |
| DateUtils.GetRelativeDateLabel | packages/frontend/src/utils/date-utils.js:11-47 | null without a date; one day back is Yesterday, further back "Nd overdue" with the exact count; Today, Tomorrow; a weekday name (by `getDay`) strictly before today + 7; later dates as a calendar date with or without the year; an invalid date prints "Invalid Date" |
| DateUtils.LabelsAgreeWithRanges | packages/frontend/src/utils/date-utils.js:27-38 | the Today, Tomorrow and overdue labels go to exactly the dates in those ranges, and a weekday label only to dates in the 'week' range |
| DateUtils.WeekBoundaryDiffers | packages/frontend/src/utils/date-utils.js:35 | a date exactly seven days ahead is in the 'week' range but gets a calendar-date label |
| Ordering.LessIsStrictTotal | packages/frontend/src/utils/task-manager.js:177-178 | without NaN, JavaScript `<` on the sort keys is irreflexive, total and transitive |
| Ordering.NaNIncomparable | packages/frontend/src/utils/task-manager.js:154 | a NaN key is neither below nor above any key |
| Ordering.Compare | packages/frontend/src/utils/task-manager.js:177-179 | the comparator is negative exactly when the first key is below the second in the chosen direction |
| Ordering.InsertionSort | packages/frontend/src/utils/task-manager.js:149 | the sorted copy holds the same tasks with the same multiplicities; it is stable by `Ordering.SortKeepsTies` |
| Ordering.SortIsSorted | packages/frontend/src/utils/task-manager.js:149-180 | under a strict weak order, the insertion sort leaves no element ahead of one that should precede it |
| Ordering.SortWithoutPrecedence | packages/frontend/src/utils/task-manager.js:173-174 | when the comparator always returns 0, the stable sort keeps the input order |
| Ordering.InsertKeepsTies | packages/frontend/src/utils/task-manager.js:149 | inserting an element keeps it ahead of every element it ties with |
| Ordering.SortKeepsTies | packages/frontend/src/utils/task-manager.js:149 | under a strict weak order the sort is stable: the elements tying with any one element come out in their input order |
| Ordering.SortIdempotent | packages/frontend/src/utils/task-manager.js:149-182 | sorting a sorted result again gives the same order |
| TaskManager.CreateTask | packages/frontend/src/utils/task-manager.js:20-41 | throws "title required" exactly for a blank title and "255 characters" for an untrimmed title over 255 UTF-16 code units; otherwise returns the trimmed title with the `||` defaults (id, '' description, null due date, 'Other', 0, null parent, `now`) |
| TaskManager.ValidateTask | packages/frontend/src/utils/task-manager.js:48-74 | null exactly for a valid task; otherwise the first failing check in the order title, length, description (lengths in UTF-16 code units), category, status range (no integer test), exact YYYY-MM-DD due date |
| TaskManager.CreatedTaskValidates | packages/frontend/src/utils/task-manager.js:20-74 | a task `createTask` returns passes `validateTask` exactly when its options are acceptable; with no options it always passes |
| Sequences.FilterCount | packages/frontend/src/utils/task-manager.js:109 | filtering keeps each element as often as it occurs or drops it |
| Sequences.FilterAppend | packages/frontend/src/utils/task-manager.js:109 | filtering distributes over concatenation, so it keeps input order |
| Sequences.FilterAgrees | packages/frontend/src/utils/task-manager.js:109 | filtering with two tests that agree on the list's elements gives the same result |
| TaskManager.FilterTasksKeepsOrder | packages/frontend/src/utils/task-manager.js:108-137 | filtering a list in two parts filters each part in place, so shown tasks keep their input order |
| TaskManager.FilterTasks | packages/frontend/src/utils/task-manager.js:108-137 | the result keeps exactly the tasks passing every set criterion, with their multiplicities, and never a task with a parent |
| TaskManager.UnfilteredIsTopLevel | packages/frontend/src/utils/task-manager.js:111 | with no criterion set, exactly the top-level tasks are shown |
| TaskManager.CategoryFilterExact | packages/frontend/src/utils/task-manager.js:114 | a category criterion keeps exactly the top-level tasks of that category |
| TaskManager.ShownByStatus | packages/frontend/src/utils/task-manager.js:117-119 | 'completed' keeps status 100, 'incomplete' keeps the rest, 'in-progress' keeps the rest except status 0 |
| TaskManager.StatusFiltersPartition | packages/frontend/src/utils/task-manager.js:117-119 | the completed and incomplete lists together are the unfiltered list, and the in-progress list lies within the incomplete one |
| TaskManager.SearchIgnoresCase | packages/frontend/src/utils/task-manager.js:128-133 | a query and its lower-case form show the same tasks, and a title containing the query as typed always matches |
| TaskManager.GetSubTasks | packages/frontend/src/utils/task-manager.js:191-193 | exactly the tasks whose parent is the given id, with their multiplicities |
| TaskManager.SubTasksAreHidden | packages/frontend/src/utils/task-manager.js:111 | no sub-task of a task appears in the filtered main list |
| TaskManager.CalculateParentTaskStatus | packages/frontend/src/utils/task-manager.js:201-207 | null exactly when no task has the parent; otherwise the rounded mean of the sub-task statuses, in [0, 100] when all statuses are |
| TaskManager.ParentStatusOfTwo | packages/frontend/src/utils/task-manager.js:201-207 | sub-tasks at 100 and 50 give the parent 75 |
| TaskManager.PrecedesOrder | packages/frontend/src/utils/task-manager.js:149-180 | without NaN keys the comparator is a strict weak order |
| TaskManager.DueKey | packages/frontend/src/utils/task-manager.js:154-155 | the due-date key is `Infinity` exactly without a date and NaN exactly for an unreadable one |
| TaskManager.DueKeyOrder | packages/frontend/src/utils/task-manager.js:154-155 | readable due-date keys compare as the calendar orders the dates, and every dated task's key is below an undated one's |
| TaskManager.SortKey | packages/frontend/src/utils/task-manager.js:152-175 | the comparator reads a key exactly for dueDate, createdAt, title, category and status |
| TaskManager.SortTasks | packages/frontend/src/utils/task-manager.js:145-183 | the result is a permutation of the input; without NaN due dates no task follows one it should precede; an unknown field keeps the input order |
| TaskManager.TieIsSameKey | packages/frontend/src/utils/task-manager.js:177-179 | without NaN keys, neither task precedes the other exactly when their keys are equal |
| TaskManager.SortTasksStable | packages/frontend/src/utils/task-manager.js:145-183 | without NaN keys, the tasks whose keys equal any one task's key come out in their input order |
| TaskManager.EmojiSortsBeforeFullWidth | packages/frontend/src/utils/task-manager.js:161-178 | titles compare by UTF-16 code unit: an emoji sorts before U+FF01 although its code point is larger |
| TaskManager.SortedKeysMonotone | packages/frontend/src/utils/task-manager.js:177-178 | in the sorted list, keys never decrease under 'asc' and never increase under 'desc' |
| TaskManager.DefaultSortParts | packages/frontend/src/utils/task-manager.js:145-147 | the default option `dueDate-asc` splits into the due-date field and the ascending direction |
| TaskManager.UndatedLastAscending | packages/frontend/src/utils/task-manager.js:154-155 | when sorting by due date ascending (as the default does), a task without a due date never comes before a dated one |
| TaskManager.SortTasksIdempotent | packages/frontend/src/utils/task-manager.js:145-183 | sorting the filtered list twice gives the order of sorting it once |
| TaskManager.CompletedAgreesWithServer | packages/frontend/src/utils/task-manager.js:214-216 | the client's `isCompleted` holds exactly when status is 100, the same flag the server's `_formatTask` computes for the record |
| TaskManager.CompletedFilterMatches | packages/frontend/src/utils/task-manager.js:214-216 | a top-level task passes 'completed' exactly when `isCompleted` holds, and 'incomplete' exactly when it does not |
| TaskManager.GetStatusLabel | packages/frontend/src/utils/task-manager.js:223-230 | 'Not Started', 'In Progress', 'Half Done', 'Almost Done' and 'Complete' for 0, 25, 50, 75 and 100, and a named label exactly for those; otherwise the number followed by '%' |
| TaskManager.StatusLabelInjective | packages/frontend/src/utils/task-manager.js:223-230 | different statuses get different labels |

## Left out

- Persistence, HTTP transport, JSON, React rendering, `localStorage` (`saveTasks`/`loadTasks`) and logging are I/O. SQLite's row storage is the store map, and a database failure (the 500 paths of the handlers) is not modelled.
- UUID generation and the clock are not modelled. Fresh ids, `now` and `today` are parameters, and timestamps are integers rather than ISO strings.
- Time zones are not modelled. A YYYY-MM-DD string is parsed as UTC and then set to local midnight; the model treats a date as the calendar day it spells.
- `toLocaleDateString` belongs to the locale library, so the two calendar-date labels carry the date, not its text.
- Reading a YYYY-MM-DD string follows V8, the engine Node runs: a day from 01 to 31 past its month's end rolls into the next month. ECMA-262 leaves such strings to the implementation, and other engines may return an invalid date for them; those engines are not modelled.
- DateUtils.ReadDue: a due date with a time part (such as `2025-11-15T10:00`) is read as an invalid date, although `Date` accepts it. The server stores such due dates (its check looks at a prefix only) and the client reads server data, so this case is reachable. Reading it correctly needs `Date`'s date-time parsing and time zones, which are not modelled.
- TaskManager.SortTasks: sortedness is stated only when no due date is unreadable. With a NaN key the comparator is not an order, and the order JavaScript produces then depends on the engine's sorting algorithm.
- TaskManager.GetStatusLabel: covers whole-number statuses only. Printing a fractional JavaScript number is not modelled.
- TaskModel.SubTaskIds: a set, not the list `getSubTaskIds` builds. The order and repetition of that list play no part in deletion, which the foreign key performs.
- Description and due date reach the data layer only as absent, null or a string. The validators reject other values first, and the handlers' preconditions state this.
- Routes.PostTaskRoute: requires the parent id to be absent, null or a string. The validator does not check it, so a request can carry a number, a boolean or an object there. Such a value reaches the data layer. A truthy one is looked up, and a falsy one such as `0` or `false` is inserted. In both cases SQLite converts the value to text against the TEXT id column, so `42` finds a task whose id is `"42"`. These conversions and the driver's binding of booleans and objects are not modelled.
- Controller.CreateTask: requires the parent id to be absent, null or a string, for the reason given for Routes.PostTaskRoute.
- JavaScript numbers are modelled as exact rationals (`Num(n: real)` in `JsValues`, `real` statuses on the client). Double-precision rounding, `-0` and NaN or infinite values supplied as numbers are not modelled. A NaN or infinite sort key is modelled separately (`Ordering.Key`).
- A null description stored on the server makes the client's search call `toLowerCase` on null. The client record models the description as a string, so that throw is not modelled.
- `toLowerCase` is modelled on ASCII letters only. Unicode case mapping is not modelled.
- `_formatTask`'s empty `subTasks` array is not modelled, and neither is `createTask`'s `subTasks` option. Neither carries information.
- The boolean `delete` returns is not modelled. The controller ignores it.
- A non-number `status` or a missing `category` on a client record is not modelled: the client record types them as a number and a string.
