/** packages/frontend/src/utils/task-manager.js: the client's task
    helpers. Tasks are plain records; the UUID generator and the clock
    become parameters (`freshId`, `now`), and `today` is the local date
    the date filters compare against. */
module TaskManager {
  import opened Wrappers
  import opened Text
  import opened Categories
  import opened Numeric
  import opened Calendar
  import opened DateUtils
  import opened Ordering
  import opened Sequences
  import Tasks

  /** A task as the client holds it. Timestamps are milliseconds since the
      epoch; a due date is the text the server sent. */
  datatype Item = Item(
    id: string,
    title: string,
    description: string,
    dueDate: Option<string>,
    category: string,
    status: real,
    parentTaskId: Option<string>,
    createdAt: int,
    updatedAt: int)

  /** The problems `createTask` throws and `validateTask` reports. */
  datatype Issue = TitleRequired | TitleTooLong | DescriptionTooLong | BadCategory | BadStatus | BadDueDate

  function IssueMessage(i: Issue): string
  {
    match i
    case TitleRequired => "Task title is required"
    case TitleTooLong => "Task title must be 255 characters or less"
    case DescriptionTooLong => "Task description must be 1000 characters or less"
    case BadCategory => "Category must be one of: " + "Work, Personal, Shopping, Health, " + "Finance, Education, Home, Other"
    case BadStatus => "Status must be a number between 0 and 100"
    case BadDueDate => "Due date must be in YYYY-MM-DD format"
  }

  /** The `options` argument of `createTask`; `None` is an absent key. */
  datatype Options = Options(
    id: Option<string>,
    description: Option<string>,
    dueDate: Option<string>,
    category: Option<string>,
    status: Option<real>,
    parentTaskId: Option<string>,
    createdAt: Option<int>,
    updatedAt: Option<int>)

  const NoOptions: Options := Options(None, None, None, None, None, None, None, None)

  /** A string that `||` keeps: present and not "". */
  predicate Kept(v: Option<string>)
  {
    v.Some? && v.value != ""
  }

  /** `v || fallback`. */
  function TextOr(v: Option<string>, fallback: string): string
  {
    if Kept(v) then v.value else fallback
  }

  /** `createTask`: throws on a blank or over-long title, trims the title
      and fills every missing (or falsy) option with its default. The
      length limit applies to the untrimmed title. */
  function CreateTask(title: string, o: Options, freshId: string, now: int): (r: Result<Item, Issue>)
    ensures r == Failure(TitleRequired) <==> IsBlank(title)
    ensures r == Failure(TitleTooLong) <==> !IsBlank(title) && Utf16Length(title) > 255
    ensures r.Success? <==> !IsBlank(title) && Utf16Length(title) <= 255
    ensures r.Success? ==>
      var t := r.value;
      && t.title == Trim(title) && !IsBlank(t.title) && Utf16Length(t.title) <= 255
      && t.id == TextOr(o.id, freshId)
      && t.description == TextOr(o.description, "")
      && (t.dueDate.Some? <==> Kept(o.dueDate)) && (t.dueDate.Some? ==> t.dueDate == o.dueDate)
      && t.category == TextOr(o.category, "Other")
      && t.status == (if o.status.Some? then o.status.value else 0.0)
      && (t.parentTaskId.Some? <==> Kept(o.parentTaskId)) && (t.parentTaskId.Some? ==> t.parentTaskId == o.parentTaskId)
      && t.createdAt == (if o.createdAt.Some? then o.createdAt.value else now)
      && t.updatedAt == (if o.updatedAt.Some? then o.updatedAt.value else now)
  {
    if IsBlank(title) then Failure(TitleRequired)
    else if Utf16Length(title) > 255 then Failure(TitleTooLong)
    else
      TrimIdempotent(title);
      TrimNoLonger(title);
      Success(Item(
        TextOr(o.id, freshId),
        Trim(title),
        TextOr(o.description, ""),
        if Kept(o.dueDate) then o.dueDate else None,
        TextOr(o.category, "Other"),
        if o.status.Some? && o.status.value != 0.0 then o.status.value else 0.0,
        if Kept(o.parentTaskId) then o.parentTaskId else None,
        if o.createdAt.Some? then o.createdAt.value else now,
        if o.updatedAt.Some? then o.updatedAt.value else now))
  }

  /** What `validateTask` accepts, stated field by field. */
  predicate ItemOk(t: Item)
  {
    && !IsBlank(t.title) && Utf16Length(t.title) <= 255
    && Utf16Length(t.description) <= 1000
    && t.category in Names
    && 0.0 <= t.status <= 100.0
    && (Kept(t.dueDate) ==> IsDateShape(t.dueDate.value))
  }

  /** `validateTask`: the first problem in the order title, title length,
      description, category, status, due date; `None` for a valid task.
      Unlike the server, the client accepts a fractional status and
      insists on an exact YYYY-MM-DD due date. */
  function ValidateTask(t: Item): (r: Option<Issue>)
    ensures r.None? <==> ItemOk(t)
    ensures r == Some(TitleRequired) <==> IsBlank(t.title)
    ensures r == Some(TitleTooLong) <==> !IsBlank(t.title) && Utf16Length(t.title) > 255
    ensures r == Some(DescriptionTooLong) <==>
              !IsBlank(t.title) && Utf16Length(t.title) <= 255 && Utf16Length(t.description) > 1000
    ensures r == Some(BadCategory) <==>
              !IsBlank(t.title) && Utf16Length(t.title) <= 255 && Utf16Length(t.description) <= 1000 && t.category !in Names
    ensures r == Some(BadStatus) <==>
              && !IsBlank(t.title) && Utf16Length(t.title) <= 255 && Utf16Length(t.description) <= 1000 && t.category in Names
              && !(0.0 <= t.status <= 100.0)
    ensures r == Some(BadDueDate) <==>
              && !IsBlank(t.title) && Utf16Length(t.title) <= 255 && Utf16Length(t.description) <= 1000 && t.category in Names
              && 0.0 <= t.status <= 100.0 && Kept(t.dueDate) && !IsDateShape(t.dueDate.value)
  {
    if IsBlank(t.title) then Some(TitleRequired)
    else if Utf16Length(t.title) > 255 then Some(TitleTooLong)
    else if Utf16Length(t.description) > 1000 then Some(DescriptionTooLong)
    else if t.category !in Names then Some(BadCategory)
    else if t.status < 0.0 || t.status > 100.0 then Some(BadStatus)
    else if Kept(t.dueDate) && !IsDateShape(t.dueDate.value) then Some(BadDueDate)
    else None
  }

  /** Options a form can supply without tripping `validateTask`. */
  predicate OptionsOk(o: Options)
  {
    && (Kept(o.description) ==> Utf16Length(o.description.value) <= 1000)
    && (Kept(o.category) ==> o.category.value in Names)
    && (o.status.Some? ==> 0.0 <= o.status.value <= 100.0)
    && (Kept(o.dueDate) ==> IsDateShape(o.dueDate.value))
  }

  /** The create-then-validate sequence of the client: a task `createTask`
      returns passes `validateTask` exactly when its options are
      acceptable, so with no options it always does. */
  lemma CreatedTaskValidates(title: string, o: Options, freshId: string, now: int)
    requires CreateTask(title, o, freshId, now).Success?
    ensures ValidateTask(CreateTask(title, o, freshId, now).value).None? <==> OptionsOk(o)
    ensures ValidateTask(CreateTask(title, NoOptions, freshId, now).value).None?
  {
    assert "Other" in Names;
  }

  /** A task shown in the main list: one without a (truthy) parent. */
  predicate IsTopLevel(t: Item)
  {
    !Kept(t.parentTaskId)
  }

  /** The filter bar's settings; "" leaves a filter unset. */
  datatype Filters = Filters(category: string, status: string, dateRange: string, searchQuery: string)

  const NoFilters: Filters := Filters("", "", "", "")

  /** The predicate `filterTasks` applies to each task. */
  predicate Shown(t: Item, f: Filters, today: Civil)
    requires Valid(today)
  {
    if !IsTopLevel(t) then false
    else if f.category != "" && t.category != f.category then false
    else if f.status == "completed" && t.status != 100.0 then false
    else if f.status == "incomplete" && t.status == 100.0 then false
    else if f.status == "in-progress" && (t.status == 0.0 || t.status == 100.0) then false
    else if f.dateRange != "" && !MatchesDateRange(ReadDue(t.dueDate), f.dateRange, today) then false
    else if f.searchQuery != "" && !Contains(ToLower(t.title), ToLower(f.searchQuery))
            && !Contains(ToLower(t.description), ToLower(f.searchQuery)) then false
    else true
  }

  /** `filterTasks`: the top-level tasks that pass every set filter, with
      their multiplicities and in their original order (`FilterTasksKeepsOrder`). */
  function FilterTasks(items: seq<Item>, f: Filters, today: Civil): (r: seq<Item>)
    requires Valid(today)
    ensures forall t :: multiset(r)[t] == if Shown(t, f, today) then multiset(items)[t] else 0
    ensures forall i :: 0 <= i < |r| ==> IsTopLevel(r[i])
  {
    var keep := (t: Item) => Shown(t, f, today);
    forall t ensures multiset(Filter(items, keep))[t] == if Shown(t, f, today) then multiset(items)[t] else 0 {
      FilterCount(items, keep, t);
    }
    Filter(items, keep)
  }

  /** Filtering a list made of two parts filters each part in place: a
      shown task from the first part stays ahead of every shown task from
      the second. */
  lemma FilterTasksKeepsOrder(xs: seq<Item>, ys: seq<Item>, f: Filters, today: Civil)
    requires Valid(today)
    ensures FilterTasks(xs + ys, f, today) == FilterTasks(xs, f, today) + FilterTasks(ys, f, today)
  {
    FilterAppend(xs, ys, (t: Item) => Shown(t, f, today));
  }

  /** With no filter set, the list is the top-level tasks. */
  lemma UnfilteredIsTopLevel(t: Item, today: Civil)
    requires Valid(today)
    ensures Shown(t, NoFilters, today) <==> IsTopLevel(t)
  {
  }

  /** On one task the status filters narrow the status-free filter: to
      completed tasks, to the others, and to the others not at 0%. */
  lemma ShownByStatus(t: Item, f: Filters, today: Civil)
    requires Valid(today) && f.status == ""
    ensures Shown(t, f.(status := "completed"), today) <==> Shown(t, f, today) && t.status == 100.0
    ensures Shown(t, f.(status := "incomplete"), today) <==> Shown(t, f, today) && t.status != 100.0
    ensures Shown(t, f.(status := "in-progress"), today) <==>
              Shown(t, f, today) && t.status != 100.0 && t.status != 0.0
  {
  }

  /** The 'completed' and 'incomplete' filters split the list in two, and
      the 'in-progress' tasks are among the incomplete ones. */
  lemma StatusFiltersPartition(items: seq<Item>, f: Filters, today: Civil)
    requires Valid(today) && f.status == ""
    ensures multiset(FilterTasks(items, f.(status := "completed"), today))
              + multiset(FilterTasks(items, f.(status := "incomplete"), today))
            == multiset(FilterTasks(items, f, today))
    ensures multiset(FilterTasks(items, f.(status := "in-progress"), today))
            <= multiset(FilterTasks(items, f.(status := "incomplete"), today))
  {
    var all := multiset(FilterTasks(items, f, today));
    var done := multiset(FilterTasks(items, f.(status := "completed"), today));
    var open := multiset(FilterTasks(items, f.(status := "incomplete"), today));
    var busy := multiset(FilterTasks(items, f.(status := "in-progress"), today));
    forall t ensures done[t] + open[t] == all[t] && busy[t] <= open[t] {
      ShownByStatus(t, f, today);
    }
    assert done + open == all;
  }

  /** A category filter keeps exactly the top-level tasks of that
      category. */
  lemma CategoryFilterExact(t: Item, c: string, today: Civil)
    requires Valid(today) && c != ""
    ensures Shown(t, NoFilters.(category := c), today) <==> IsTopLevel(t) && t.category == c
  {
  }

  /** ASCII lower-casing of a string that is already lower case changes
      nothing. */
  lemma ToLowerIdempotent(s: string)
    ensures ToLower(ToLower(s)) == ToLower(s)
  {
  }

  /** Lower-casing keeps an occurrence. */
  lemma ContainsLowered(s: string, p: string)
    requires Contains(s, p)
    ensures Contains(ToLower(s), ToLower(p))
  {
    var i :| 0 <= i <= |s| - |p| && OccursAt(s, p, i);
    assert ToLower(s)[i..i + |p|] == ToLower(p) by {
      forall k | 0 <= k < |p| ensures ToLower(s)[i..i + |p|][k] == ToLower(p)[k] {
        assert s[i..i + |p|][k] == p[k];
      }
    }
    assert OccursAt(ToLower(s), ToLower(p), i);
  }

  /** The search ignores letter case: a query and its lower-case form show
      the same tasks, and a title that contains the query as typed is
      always found. */
  lemma SearchIgnoresCase(t: Item, f: Filters, q: string, today: Civil)
    requires Valid(today)
    ensures Shown(t, f.(searchQuery := q), today) == Shown(t, f.(searchQuery := ToLower(q)), today)
    ensures q != "" && Contains(t.title, q) ==>
              Shown(t, f.(searchQuery := q), today) == Shown(t, f.(searchQuery := ""), today)
  {
    ToLowerIdempotent(q);
    if Contains(t.title, q) {
      ContainsLowered(t.title, q);
    }
  }

  /** `getSubTasks`: the tasks whose parent is `parentId`, in order. */
  function GetSubTasks(items: seq<Item>, parentId: string): (r: seq<Item>)
    ensures forall t :: multiset(r)[t] == if t.parentTaskId == Some(parentId) then multiset(items)[t] else 0
  {
    var child := (t: Item) => t.parentTaskId == Some(parentId);
    forall t ensures multiset(Filter(items, child))[t] == if t.parentTaskId == Some(parentId) then multiset(items)[t] else 0 {
      FilterCount(items, child, t);
    }
    Filter(items, child)
  }

  /** Sub-tasks never reach the main list. */
  lemma SubTasksAreHidden(items: seq<Item>, parentId: string, f: Filters, today: Civil)
    requires Valid(today) && parentId != ""
    ensures forall t :: t in GetSubTasks(items, parentId) ==> t !in FilterTasks(items, f, today)
  {
    forall t | t in GetSubTasks(items, parentId) ensures t !in FilterTasks(items, f, today) {
      assert multiset(GetSubTasks(items, parentId))[t] > 0;
      assert !Shown(t, f, today);
      assert multiset(FilterTasks(items, f, today))[t] == 0;
    }
  }

  function Statuses(xs: seq<Item>): (r: seq<real>)
    ensures |r| == |xs| && forall i :: 0 <= i < |xs| ==> r[i] == xs[i].status
  {
    if |xs| == 0 then [] else [xs[0].status] + Statuses(xs[1..])
  }

  /** `calculateParentTaskStatus`: null without sub-tasks, else the
      rounded mean of their statuses, which is a valid status when theirs
      are. */
  function CalculateParentTaskStatus(items: seq<Item>, parentId: string): (r: Option<int>)
    ensures r.None? <==> forall t :: t in items ==> t.parentTaskId != Some(parentId)
    ensures r.Some? ==>
      var subs := GetSubTasks(items, parentId);
      && |subs| > 0 && r.value == RoundedAverage(Statuses(subs))
      && ((forall t :: t in items ==> 0.0 <= t.status <= 100.0) ==> 0 <= r.value <= 100)
  {
    var subs := GetSubTasks(items, parentId);
    if |subs| == 0 then
      assert forall t :: t in items ==> t.parentTaskId != Some(parentId) by {
        forall t | t in items ensures t.parentTaskId != Some(parentId) {
          assert multiset(subs)[t] == 0;
        }
      }
      None
    else
      assert subs[0] in subs;
      var v := RoundedAverage(Statuses(subs));
      if forall t :: t in items ==> 0.0 <= t.status <= 100.0 then
        assert forall i :: 0 <= i < |subs| ==> subs[i] in items by {
          forall i | 0 <= i < |subs| ensures subs[i] in items {
            assert subs[i] in subs;
          }
        }
        RoundedAverageBounds(Statuses(subs), 0, 100);
        Some(v)
      else Some(v)
  }

  /** Two sub-tasks at 100% and 50% give their parent 75%. */
  lemma ParentStatusOfTwo(parent: Item, a: Item, b: Item)
    requires parent.parentTaskId != Some(parent.id)
    requires a.parentTaskId == Some(parent.id) && b.parentTaskId == Some(parent.id)
    requires a.status == 100.0 && b.status == 50.0
    ensures CalculateParentTaskStatus([parent, a, b], parent.id) == Some(75)
  {
    SubTasksOfTwo(parent, a, b);
    StatusesOfTwo(a, b);
    HalfwayAverage();
    assert [parent, a, b][1] == a;
  }

  lemma SubTasksOfTwo(parent: Item, a: Item, b: Item)
    requires parent.parentTaskId != Some(parent.id)
    requires a.parentTaskId == Some(parent.id) && b.parentTaskId == Some(parent.id)
    ensures GetSubTasks([parent, a, b], parent.id) == [a, b]
  {
    var child := (t: Item) => t.parentTaskId == Some(parent.id);
    FilterCons(b, [], child);
    FilterCons(a, [b], child);
    FilterCons(parent, [a, b], child);
    assert [a] + [b] == [a, b] && [parent] + [a, b] == [parent, a, b] && [b] + [] == [b];
  }

  lemma StatusesOfTwo(a: Item, b: Item)
    ensures Statuses([a, b]) == [a.status, b.status]
  {
    assert [a, b][1..] == [b];
    assert [b][1..] == [];
  }

  lemma HalfwayAverage()
    ensures RoundedAverage([100.0, 50.0]) == 75
  {
    assert [100.0, 50.0][..1] == [100.0];
    assert [100.0][..0] == [];
    assert 150.0 / 2.0 == 75.0;
  }

  /** The field `sortOption.split('-')` yields first. */
  function SortField(option: string): string
  {
    PrefixBefore(option, '-')
  }

  /** Whether the second part of the split is "asc"; a missing direction
      is not, so it sorts descending. */
  predicate SortAscending(option: string)
  {
    var field := PrefixBefore(option, '-');
    |field| < |option| && PrefixBefore(option[|field| + 1..], '-') == "asc"
  }

  const DefaultSort: string := "dueDate-asc"

  /** `new Date(dueDate).getTime()`: UTC midnight of the day in
      milliseconds, `Infinity` without a date and NaN for an invalid one. */
  function DueKey(d: Due): (r: Key)
    requires DueOk(d)
    ensures r.PosInf? <==> d.NoDate?
    ensures r.NotANumber? <==> d.BadDate?
  {
    match d
    case NoDate => PosInf
    case BadDate => NotANumber
    case OnDay(c) => Num((DayNumber(c) * 86400000) as real)
  }

  /** Due-date keys order readable dates as the calendar does, and put
      every dated task before an undated one. */
  lemma DueKeyOrder(a: Due, b: Due)
    requires DueOk(a) && DueOk(b) && !a.BadDate? && !b.BadDate?
    ensures Less(DueKey(a), DueKey(b)) <==> a.OnDay? && (b.NoDate? || Before(a.date, b.date))
  {
    if a.OnDay? && b.OnDay? {
      DayNumberOrder(a.date, b.date);
    }
  }

  /** The fields the comparator knows. */
  const SortFields: set<string> := {"dueDate", "createdAt", "title", "category", "status"}

  /** The value the comparator reads from a task for `field`; `None` for a
      field it does not know, where it returns 0. */
  function SortKey(t: Item, field: string): (r: Option<Key>)
    ensures r.Some? <==> field in SortFields
  {
    if field == "dueDate" then Some(DueKey(ReadDue(t.dueDate)))
    else if field == "createdAt" then Some(Num(t.createdAt as real))
    else if field == "title" then Some(Txt(CodeUnits(ToLower(t.title))))
    else if field == "category" then Some(Txt(CodeUnits(t.category)))
    else if field == "status" then Some(Num(t.status))
    else None
  }

  /** Titles compare by UTF-16 code unit: an emoji, whose first code unit
      is the surrogate 0xD83D, sorts before the full-width '!' (U+FF01)
      although its code point is larger. */
  lemma EmojiSortsBeforeFullWidth()
    ensures Less(Txt(CodeUnits("\U{1F600}")), Txt(CodeUnits("\U{FF01}")))
  {
    assert CodeUnits("\U{1F600}") == [0xD83D, 0xDE00];
    assert CodeUnits("\U{FF01}") == [0xFF01];
  }

  /** The comparator returns a negative number for `a`, `b`. */
  predicate Precedes(a: Item, b: Item, field: string, asc: bool)
  {
    var ka, kb := SortKey(a, field), SortKey(b, field);
    ka.Some? && kb.Some? && Compare(ka.value, kb.value, asc) < 0
  }

  predicate HasNaNKey(t: Item, field: string)
  {
    SortKey(t, field) == Some(NotANumber)
  }

  /** Without NaN keys, `Precedes` is a strict weak order: irreflexive,
      asymmetric, and "does not precede" is transitive. */
  lemma PrecedesOrder(a: Item, b: Item, c: Item, field: string, asc: bool)
    requires !HasNaNKey(a, field) && !HasNaNKey(b, field) && !HasNaNKey(c, field)
    ensures !Precedes(a, a, field, asc)
    ensures Precedes(a, b, field, asc) ==> !Precedes(b, a, field, asc)
    ensures !Precedes(b, a, field, asc) && !Precedes(c, b, field, asc) ==> !Precedes(c, a, field, asc)
  {
    if field in SortFields {
      var ka, kb, kc := SortKey(a, field).value, SortKey(b, field).value, SortKey(c, field).value;
      LessIsStrictTotal(ka, kb, kc);
      LessAsymmetric(ka, kb);
      LessNegativelyTransitive(kc, kb, ka);
      LessNegativelyTransitive(ka, kb, kc);
    }
  }

  predicate NoNaNKeys(xs: seq<Item>, field: string)
  {
    forall t :: t in xs ==> !HasNaNKey(t, field)
  }

  /** The comparator of one sort option. */
  function Comparator(field: string, asc: bool): (Item, Item) -> bool
  {
    (a: Item, b: Item) => Precedes(a, b, field, asc)
  }

  /** Without NaN keys the comparator orders the tasks. */
  lemma ComparatorIsWeakOrder(xs: seq<Item>, field: string, asc: bool)
    requires NoNaNKeys(xs, field)
    ensures WeakOrderOn(xs, Comparator(field, asc))
  {
    var before := Comparator(field, asc);
    forall a, b, c | a in xs && b in xs && c in xs
      ensures !before(a, a)
      ensures before(a, b) ==> !before(b, a)
      ensures !before(b, a) && !before(c, b) ==> !before(c, a)
    {
      PrecedesOrder(a, b, c, field, asc);
    }
  }

  /** With a field the comparator does not know, no task precedes another. */
  lemma UnknownFieldTies(field: string, asc: bool)
    requires field !in SortFields
    ensures forall a, b :: !Comparator(field, asc)(a, b)
  {
  }

  /** `sortTasks`: a reordering of the tasks in which, for a known field
      and no unreadable due dates, no task comes after one it should
      precede; an unknown field keeps the order, and tasks with equal
      keys keep theirs (`SortTasksStable`). `None` is the default
      option. */
  function SortTasks(items: seq<Item>, option: Option<string>): (r: seq<Item>)
    ensures multiset(r) == multiset(items)
    ensures var opt := if option.Some? then option.value else DefaultSort;
            NoNaNKeys(items, SortField(opt)) ==> Sorted(r, Comparator(SortField(opt), SortAscending(opt)))
    ensures var opt := if option.Some? then option.value else DefaultSort;
            SortField(opt) !in SortFields ==> r == items
  {
    var opt := if option.Some? then option.value else DefaultSort;
    SortFacts(items, SortField(opt), SortAscending(opt));
    InsertionSort(items, Comparator(SortField(opt), SortAscending(opt)))
  }

  lemma SortFacts(xs: seq<Item>, field: string, asc: bool)
    ensures NoNaNKeys(xs, field) ==> Sorted(InsertionSort(xs, Comparator(field, asc)), Comparator(field, asc))
    ensures field !in SortFields ==> InsertionSort(xs, Comparator(field, asc)) == xs
  {
    if NoNaNKeys(xs, field) {
      ComparatorIsWeakOrder(xs, field, asc);
      SortIsSorted(xs, Comparator(field, asc), xs);
    }
    if field !in SortFields {
      UnknownFieldTies(field, asc);
      SortWithoutPrecedence(xs, Comparator(field, asc));
    }
  }

  /** Without NaN keys two tasks tie under the comparator exactly when
      their keys are equal. */
  lemma TieIsSameKey(a: Item, b: Item, field: string, asc: bool)
    requires !HasNaNKey(a, field) && !HasNaNKey(b, field)
    ensures !Precedes(a, b, field, asc) && !Precedes(b, a, field, asc) <==> SortKey(a, field) == SortKey(b, field)
  {
    if field in SortFields {
      var ka, kb := SortKey(a, field).value, SortKey(b, field).value;
      LessIsStrictTotal(ka, kb, kb);
    }
  }

  /** The tasks whose key for `field` equals that of `z`. */
  function SameKey(field: string, z: Item): Item -> bool
  {
    t => SortKey(t, field) == SortKey(z, field)
  }

  /** Without NaN keys the comparator's ties with `z` are the tasks
      with `z`'s key. */
  lemma TiesAreSameKeys(xs: seq<Item>, field: string, asc: bool, z: Item)
    requires NoNaNKeys(xs, field) && !HasNaNKey(z, field)
    ensures forall t :: t in xs ==> Ties(Comparator(field, asc), z)(t) == SameKey(field, z)(t)
  {
    forall t | t in xs ensures Ties(Comparator(field, asc), z)(t) == SameKey(field, z)(t) {
      TieIsSameKey(t, z, field, asc);
    }
  }

  /** The insertion sort under one comparator keeps tasks with equal keys
      in order. */
  lemma SortByKeyStable(items: seq<Item>, field: string, asc: bool, z: Item)
    requires NoNaNKeys(items, field) && z in items
    ensures Filter(InsertionSort(items, Comparator(field, asc)), SameKey(field, z))
            == Filter(items, SameKey(field, z))
  {
    var before := Comparator(field, asc);
    var r := InsertionSort(items, before);
    ComparatorIsWeakOrder(items, field, asc);
    SortKeepsTies(items, before, items, z);
    SortWithin(items, before, items);
    TiesAreSameKeys(items, field, asc, z);
    FilterAgrees(items, Ties(before, z), SameKey(field, z));
    FilterAgrees(r, Ties(before, z), SameKey(field, z));
  }

  /** `sortTasks` is stable: tasks with equal keys keep the order they
      had. */
  lemma SortTasksStable(items: seq<Item>, option: string, z: Item)
    requires NoNaNKeys(items, SortField(option)) && z in items
    ensures Filter(SortTasks(items, Some(option)), SameKey(SortField(option), z))
            == Filter(items, SameKey(SortField(option), z))
  {
    SortByKeyStable(items, SortField(option), SortAscending(option), z);
  }

  /** In the sorted list keys never decrease under 'asc' and never
      increase under 'desc'. */
  lemma SortedKeysMonotone(items: seq<Item>, option: string, i: nat, j: nat)
    requires SortField(option) in SortFields && NoNaNKeys(items, SortField(option))
    requires i < j < |SortTasks(items, Some(option))|
    ensures var r, field := SortTasks(items, Some(option)), SortField(option);
            var ki, kj := SortKey(r[i], field).value, SortKey(r[j], field).value;
            if SortAscending(option) then !Less(kj, ki) else !Less(ki, kj)
  {
    var r := SortTasks(items, Some(option));
    assert !Comparator(SortField(option), SortAscending(option))(r[j], r[i]);
  }

  /** Sorting the main list twice gives the order of sorting it once. */
  lemma SortTasksIdempotent(items: seq<Item>, f: Filters, option: string, today: Civil)
    requires Valid(today) && NoNaNKeys(items, SortField(option))
    ensures var once := SortTasks(FilterTasks(items, f, today), Some(option));
            SortTasks(once, Some(option)) == once
  {
    var shown := FilterTasks(items, f, today);
    var field, asc := SortField(option), SortAscending(option);
    assert NoNaNKeys(shown, field) by {
      forall t | t in shown ensures !HasNaNKey(t, field) {
        assert t in multiset(shown);
      }
    }
    ComparatorIsWeakOrder(shown, field, asc);
    SortIdempotent(shown, Comparator(field, asc));
  }

  /** The default option splits into the due-date field and 'asc'. */
  lemma DefaultSortParts()
    ensures SortField(DefaultSort) == "dueDate" && SortAscending(DefaultSort)
  {
    assert DefaultSort[..7] == "dueDate" && DefaultSort[7] == '-';
    PrefixBeforeAbsent("dueDate", '-');
    assert DefaultSort[8..] == "asc";
    PrefixBeforeAbsent("asc", '-');
  }

  /** Sorting by due date ascending (the default order among them) puts
      every dated task before every undated one. */
  lemma UndatedLastAscending(items: seq<Item>, option: string, i: nat, j: nat)
    requires SortField(option) == "dueDate" && SortAscending(option)
    requires NoNaNKeys(items, "dueDate")
    requires i < j < |SortTasks(items, Some(option))|
    ensures var r := SortTasks(items, Some(option));
            !(ReadDue(r[i].dueDate).NoDate? && ReadDue(r[j].dueDate).OnDay?)
  {
    var r := SortTasks(items, Some(option));
    SortedKeysMonotone(items, option, i, j);
    assert ReadDue(r[i].dueDate).NoDate? ==> SortKey(r[i], "dueDate").value == PosInf;
    assert ReadDue(r[j].dueDate).OnDay? ==> SortKey(r[j], "dueDate").value.Num?;
  }

  /** `isCompleted`. */
  predicate IsCompleted(t: Item)
  {
    t.status == 100.0
  }

  /** The client's `isCompleted` agrees with the flag the server puts on
      the record it sent: both hold exactly at status 100. */
  lemma CompletedAgreesWithServer(id: Tasks.Id, row: Tasks.Task, t: Item)
    requires t.status == row.status as real
    ensures IsCompleted(t) <==> Tasks.Format(id, row).isCompleted
  {
  }

  /** A top-level task passes the 'completed' filter exactly when it is
      completed, and the 'incomplete' filter exactly when it is not. */
  lemma CompletedFilterMatches(t: Item, today: Civil)
    requires Valid(today) && IsTopLevel(t)
    ensures Shown(t, NoFilters.(status := "completed"), today) <==> IsCompleted(t)
    ensures Shown(t, NoFilters.(status := "incomplete"), today) <==> !IsCompleted(t)
  {
  }

  const PredefinedStatus: seq<int> := [0, 25, 50, 75, 100]

  /** `getStatusLabel` for a whole-number status: a name for the five
      predefined steps, else the number followed by '%'. */
  function GetStatusLabel(n: int): (r: string)
    ensures |r| > 1
    ensures n in PredefinedStatus <==> r[|r| - 1] != '%'
    ensures n !in PredefinedStatus ==> r[..|r| - 1] == IntToString(n)
    ensures n == 0 ==> r == "Not Started"
    ensures n == 25 ==> r == "In Progress"
    ensures n == 50 ==> r == "Half Done"
    ensures n == 75 ==> r == "Almost Done"
    ensures n == 100 ==> r == "Complete"
  {
    if n == 0 then "Not Started"
    else if n == 25 then "In Progress"
    else if n == 50 then "Half Done"
    else if n == 75 then "Almost Done"
    else if n == 100 then "Complete"
    else
      var r := IntToString(n) + "%";
      assert r[..|r| - 1] == IntToString(n);
      r
  }

  /** The five named labels start with five different letters. */
  lemma NamedLabelsDistinct(n: int, m: int)
    requires n in PredefinedStatus && m in PredefinedStatus && n != m
    ensures GetStatusLabel(n)[0] != GetStatusLabel(m)[0]
  {
    assert n == 0 || n == 25 || n == 50 || n == 75 || n == 100;
    assert m == 0 || m == 25 || m == 50 || m == 75 || m == 100;
  }

  /** Different statuses get different labels, so the label identifies
      the status. */
  lemma StatusLabelInjective(n: int, m: int)
    requires n != m
    ensures GetStatusLabel(n) != GetStatusLabel(m)
  {
    var a, b := GetStatusLabel(n), GetStatusLabel(m);
    if n in PredefinedStatus && m in PredefinedStatus {
      NamedLabelsDistinct(n, m);
    } else if n !in PredefinedStatus && m !in PredefinedStatus {
      IntToStringInjective(n, m);
      assert a[..|a| - 1] != b[..|b| - 1];
    } else {
      assert a[|a| - 1] != b[|b| - 1];
    }
  }
}
