/** JavaScript's `<` on the values the client sorts by: numbers (with
    `Infinity` for a missing due date and NaN for an unreadable one) and
    strings, which compare by UTF-16 code unit. */
module Ordering {
  import opened Sequences

  /** JavaScript's `a < b` on strings, given as their UTF-16 code units:
      code unit by code unit, a proper prefix coming first. */
  predicate LexLess(a: seq<int>, b: seq<int>)
  {
    if |a| == 0 then |b| > 0
    else if |b| == 0 then false
    else if a[0] != b[0] then a[0] < b[0]
    else LexLess(a[1..], b[1..])
  }

  lemma {:induction false} LexLessIrreflexive(a: seq<int>)
    ensures !LexLess(a, a)
  {
    if |a| > 0 {
      LexLessIrreflexive(a[1..]);
    }
  }

  /** Two distinct code-unit sequences are ordered one way or the other. */
  lemma {:induction false} LexLessTotal(a: seq<int>, b: seq<int>)
    ensures a == b || LexLess(a, b) || LexLess(b, a)
  {
    if |a| > 0 && |b| > 0 && a[0] == b[0] {
      LexLessTotal(a[1..], b[1..]);
      if a[1..] == b[1..] {
        assert a == [a[0]] + a[1..] && b == [b[0]] + b[1..];
      }
    }
  }

  lemma {:induction false} LexLessTransitive(a: seq<int>, b: seq<int>, c: seq<int>)
    requires LexLess(a, b) && LexLess(b, c)
    ensures LexLess(a, c)
  {
    if |a| > 0 && |b| > 0 && |c| > 0 && a[0] == b[0] && b[0] == c[0] {
      LexLessTransitive(a[1..], b[1..], c[1..]);
    }
  }

  /** A value a comparator reads. */
  datatype Key = Num(x: real) | PosInf | NotANumber | Txt(units: seq<int>)

  /** Numbers below `Infinity` below strings; only same-kind keys are ever
      compared by the client, the ranks just make the order total. */
  function Rank(k: Key): int
  {
    match k
    case Num(_) => 0
    case PosInf => 1
    case NotANumber => 1
    case Txt(_) => 2
  }

  /** `a < b`. Every comparison with NaN is false. */
  predicate Less(a: Key, b: Key)
  {
    && !a.NotANumber? && !b.NotANumber?
    && (|| Rank(a) < Rank(b)
        || (a.Num? && b.Num? && a.x < b.x)
        || (a.Txt? && b.Txt? && LexLess(a.units, b.units)))
  }

  /** Without NaN, `<` is a strict total order. */
  lemma LessIsStrictTotal(a: Key, b: Key, c: Key)
    requires !a.NotANumber? && !b.NotANumber? && !c.NotANumber?
    ensures !Less(a, a)
    ensures a == b || Less(a, b) || Less(b, a)
    ensures Less(a, b) && Less(b, c) ==> Less(a, c)
  {
    if a.Txt? {
      LexLessIrreflexive(a.units);
      if b.Txt? {
        LexLessTotal(a.units, b.units);
        if c.Txt? && LexLess(a.units, b.units) && LexLess(b.units, c.units) {
          LexLessTransitive(a.units, b.units, c.units);
        }
      }
    }
  }

  /** Without NaN, anything below `c` is below `b` or `b` is below `c`:
      "not below" is transitive, which is what a sort needs. */
  lemma LessNegativelyTransitive(a: Key, b: Key, c: Key)
    requires !a.NotANumber? && !b.NotANumber? && !c.NotANumber?
    ensures Less(a, c) ==> Less(a, b) || Less(b, c)
  {
    LessIsStrictTotal(a, b, c);
    LessIsStrictTotal(b, c, a);
    LessIsStrictTotal(a, c, b);
    LessIsStrictTotal(c, b, a);
  }

  /** `a < b` and `b < a` never both hold. */
  lemma LessAsymmetric(a: Key, b: Key)
    ensures !(Less(a, b) && Less(b, a))
  {
    if a.Txt? && b.Txt? && LexLess(a.units, b.units) && LexLess(b.units, a.units) {
      LexLessTransitive(a.units, b.units, a.units);
      LexLessIrreflexive(a.units);
    }
  }

  /** NaN is neither below nor above anything, so it is "equal" to every
      key, which is what keeps a comparator with NaN keys from being an
      order. */
  lemma NaNIncomparable(k: Key)
    ensures !Less(NotANumber, k) && !Less(k, NotANumber)
  {
  }

  /** The comparator `sortTasks` builds from `<`, `>` and the direction:
      -1, 1 or 0. `a > b` is `b < a`. */
  function Compare(a: Key, b: Key, isAsc: bool): (r: int)
    ensures r < 0 <==> (if isAsc then Less(a, b) else Less(b, a))
    ensures -1 <= r <= 1
  {
    LessAsymmetric(a, b);
    if Less(a, b) then (if isAsc then -1 else 1)
    else if Less(b, a) then (if isAsc then 1 else -1)
    else 0
  }

  /** `before` is a strict weak order on the elements of `xs`: irreflexive,
      asymmetric, and "does not come before" is transitive. */
  ghost predicate WeakOrderOn<T(!new)>(xs: seq<T>, before: (T, T) -> bool)
  {
    forall a, b, c :: a in xs && b in xs && c in xs ==>
      && !before(a, a)
      && (before(a, b) ==> !before(b, a))
      && (!before(b, a) && !before(c, b) ==> !before(c, a))
  }

  /** No element comes before an element ahead of it. */
  predicate Sorted<T>(r: seq<T>, before: (T, T) -> bool)
  {
    forall i, j :: 0 <= i < j < |r| ==> !before(r[j], r[i])
  }

  /** Places `x` ahead of the first element it does not come after, so
      `x` stays ahead of the elements it ties with. */
  function Insert<T>(x: T, ys: seq<T>, before: (T, T) -> bool): (r: seq<T>)
    ensures multiset(r) == multiset(ys) + multiset{x}
  {
    if |ys| == 0 || !before(ys[0], x) then [x] + ys
    else
      assert ys == [ys[0]] + ys[1..];
      [ys[0]] + Insert(x, ys[1..], before)
  }

  /** A stable insertion sort (`SortKeepsTies`); the sort
      `Array.prototype.sort` is required to be stable since ECMAScript
      2019. */
  function InsertionSort<T>(xs: seq<T>, before: (T, T) -> bool): (r: seq<T>)
    ensures multiset(r) == multiset(xs)
  {
    if |xs| == 0 then []
    else
      assert xs == [xs[0]] + xs[1..];
      Insert(xs[0], InsertionSort(xs[1..], before), before)
  }

  /** The three order facts for one triple of elements. */
  lemma OrderAt<T(!new)>(all: seq<T>, before: (T, T) -> bool, a: T, b: T, c: T)
    requires WeakOrderOn(all, before) && a in all && b in all && c in all
    ensures !before(a, a)
    ensures before(a, b) ==> !before(b, a)
    ensures !before(b, a) && !before(c, b) ==> !before(c, a)
  {
  }

  ghost predicate Within<T(!new)>(ys: seq<T>, all: seq<T>)
  {
    forall t :: t in ys ==> t in all
  }

  /** `x` goes in front: it does not come after `ys[0]`, so it comes after
      nothing in the sorted `ys`. */
  lemma InsertAtFront<T(!new)>(x: T, ys: seq<T>, before: (T, T) -> bool, all: seq<T>)
    requires Sorted(ys, before) && WeakOrderOn(all, before) && x in all && Within(ys, all)
    requires |ys| == 0 || !before(ys[0], x)
    ensures Sorted([x] + ys, before)
  {
    var r := [x] + ys;
    forall i, j | 0 <= i < j < |r| ensures !before(r[j], r[i]) {
      if i == 0 && j > 1 {
        assert ys[0] in ys && ys[j - 1] in ys;
        OrderAt(all, before, x, ys[0], ys[j - 1]);
      } else if i > 0 {
        assert r[i] == ys[i - 1] && r[j] == ys[j - 1];
      }
    }
  }

  /** `ys[0]` stays in front: `x` comes after it and so does the rest of
      `ys`. */
  lemma InsertBehind<T(!new)>(x: T, ys: seq<T>, rest: seq<T>, before: (T, T) -> bool, all: seq<T>)
    requires Sorted(ys, before) && WeakOrderOn(all, before) && x in all && Within(ys, all)
    requires |ys| > 0 && before(ys[0], x)
    requires Sorted(rest, before) && multiset(rest) == multiset(ys[1..]) + multiset{x}
    ensures Sorted([ys[0]] + rest, before)
  {
    var r := [ys[0]] + rest;
    assert ys[0] in ys;
    forall i, j | 0 <= i < j < |r| ensures !before(r[j], r[i]) {
      if i == 0 {
        var y := rest[j - 1];
        assert y in multiset(ys[1..]) + multiset{x} by {
          assert y in multiset(rest);
        }
        if y == x {
          OrderAt(all, before, ys[0], x, x);
        } else {
          assert y in ys[1..];
          var k :| 0 <= k < |ys[1..]| && ys[1..][k] == y;
          assert y == ys[k + 1];
        }
      } else {
        assert r[i] == rest[i - 1] && r[j] == rest[j - 1];
      }
    }
  }

  lemma {:induction false} InsertKeepsSorted<T(!new)>(x: T, ys: seq<T>, before: (T, T) -> bool, all: seq<T>)
    requires Sorted(ys, before) && WeakOrderOn(all, before) && x in all && Within(ys, all)
    ensures Sorted(Insert(x, ys, before), before)
  {
    if |ys| == 0 || !before(ys[0], x) {
      InsertAtFront(x, ys, before, all);
    } else {
      var tail := ys[1..];
      assert Sorted(tail, before) by {
        forall i, j | 0 <= i < j < |tail| ensures !before(tail[j], tail[i]) {
          assert tail[i] == ys[i + 1] && tail[j] == ys[j + 1];
        }
      }
      assert Within(tail, all) by {
        forall t | t in tail ensures t in all {
          assert t in ys;
        }
      }
      InsertKeepsSorted(x, tail, before, all);
      InsertBehind(x, ys, Insert(x, tail, before), before, all);
    }
  }

  /** Under a strict weak order the insertion sort sorts. */
  lemma {:induction false} SortIsSorted<T(!new)>(xs: seq<T>, before: (T, T) -> bool, all: seq<T>)
    requires WeakOrderOn(all, before) && Within(xs, all)
    ensures Sorted(InsertionSort(xs, before), before)
  {
    if |xs| > 0 {
      var tail := xs[1..];
      assert Within(tail, all) by {
        forall t | t in tail ensures t in all {
          assert t in xs;
        }
      }
      SortIsSorted(tail, before, all);
      var s := InsertionSort(tail, before);
      assert Within(s, all) by {
        forall t | t in s ensures t in all {
          assert t in multiset(s);
          assert t in tail;
        }
      }
      assert xs[0] in xs;
      InsertKeepsSorted(xs[0], s, before, all);
    }
  }

  /** The elements that tie with `z`: neither comes before the other. */
  function Ties<T>(before: (T, T) -> bool, z: T): T -> bool
  {
    y => !before(y, z) && !before(z, y)
  }

  /** Inserting `x` keeps it ahead of everything it ties with: each
      element it passes comes before it, so ties with nothing `x` ties
      with. */
  lemma {:induction false} InsertKeepsTies<T(!new)>(x: T, ys: seq<T>, before: (T, T) -> bool, all: seq<T>, z: T)
    requires WeakOrderOn(all, before) && x in all && z in all && Within(ys, all)
    ensures Filter(Insert(x, ys, before), Ties(before, z)) == Filter([x] + ys, Ties(before, z))
  {
    var p := Ties(before, z);
    if |ys| > 0 && before(ys[0], x) {
      var y, tail := ys[0], ys[1..];
      assert y in ys;
      assert Within(tail, all) by {
        forall t | t in tail ensures t in all {
          assert t in ys;
        }
      }
      OrderAt(all, before, x, z, y);
      InsertKeepsTies(x, tail, before, all, z);
      FilterCons(y, Insert(x, tail, before), p);
      FilterCons(x, tail, p);
      FilterCons(x, ys, p);
      assert ys == [y] + tail;
      FilterCons(y, tail, p);
    }
  }

  /** The sorted copy draws its elements from the same pool. */
  lemma SortWithin<T(!new)>(xs: seq<T>, before: (T, T) -> bool, all: seq<T>)
    requires Within(xs, all)
    ensures Within(InsertionSort(xs, before), all)
  {
    var s := InsertionSort(xs, before);
    forall t | t in s ensures t in all {
      assert t in multiset(s);
      assert t in xs;
    }
  }

  /** The insertion sort is stable: the elements that tie with any one
      element come out in the order they went in. */
  lemma {:induction false} SortKeepsTies<T(!new)>(xs: seq<T>, before: (T, T) -> bool, all: seq<T>, z: T)
    requires WeakOrderOn(all, before) && Within(xs, all) && z in all
    ensures Filter(InsertionSort(xs, before), Ties(before, z)) == Filter(xs, Ties(before, z))
  {
    if |xs| > 0 {
      var x, tail := xs[0], xs[1..];
      assert xs == [x] + tail;
      assert x in xs;
      assert Within(tail, all);
      SortKeepsTies(tail, before, all, z);
      var s := InsertionSort(tail, before);
      SortWithin(tail, before, all);
      InsertKeepsTies(x, s, before, all, z);
      FilterCons(x, s, Ties(before, z));
      FilterCons(x, tail, Ties(before, z));
    }
  }

  /** When nothing comes before anything, the stable sort keeps the
      order. */
  lemma {:induction false} SortWithoutPrecedence<T>(xs: seq<T>, before: (T, T) -> bool)
    requires forall a, b :: !before(a, b)
    ensures InsertionSort(xs, before) == xs
  {
    if |xs| > 0 {
      SortWithoutPrecedence(xs[1..], before);
      assert xs == [xs[0]] + xs[1..];
    }
  }

  /** A list that is already sorted comes back unchanged, whatever
      `before` is: each element is inserted ahead of the sorted rest. */
  lemma {:induction false} SortedIsFixed<T>(xs: seq<T>, before: (T, T) -> bool)
    requires Sorted(xs, before)
    ensures InsertionSort(xs, before) == xs
  {
    if |xs| > 0 {
      var tail := xs[1..];
      assert Sorted(tail, before) by {
        forall i, j | 0 <= i < j < |tail| ensures !before(tail[j], tail[i]) {
          assert tail[i] == xs[i + 1] && tail[j] == xs[j + 1];
        }
      }
      SortedIsFixed(tail, before);
      assert |tail| > 0 ==> tail[0] == xs[1];
      assert xs == [xs[0]] + tail;
    }
  }

  /** Sorting twice is sorting once. */
  lemma SortIdempotent<T(!new)>(xs: seq<T>, before: (T, T) -> bool)
    requires WeakOrderOn(xs, before)
    ensures InsertionSort(InsertionSort(xs, before), before) == InsertionSort(xs, before)
  {
    SortIsSorted(xs, before, xs);
    SortedIsFixed(InsertionSort(xs, before), before);
  }
}
