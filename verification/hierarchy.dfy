/** Parent/sub-task edges of a store, and the cascade they induce: the
    foreign key `parentTaskId REFERENCES tasks(id) ON DELETE CASCADE` with
    foreign keys switched on deletes a row and, transitively, every row
    whose parent was deleted. */
module Hierarchy {
  import opened Wrappers
  import opened Tasks

  /** `k` is a stored task whose parent is among `ids`. */
  predicate ChildOf(s: Store, k: Id, ids: set<Id>)
  {
    k in s && s[k].parentTaskId.Some? && s[k].parentTaskId.value in ids
  }

  /** Deleting `ids` leaves no row whose parent was deleted. */
  predicate ClosedUnderChildren(s: Store, ids: set<Id>)
  {
    forall k | k in s :: ChildOf(s, k, ids) ==> k in ids
  }

  lemma {:induction false} SubsetNoLarger<T>(a: set<T>, b: set<T>)
    requires a <= b
    ensures |a| <= |b|
    decreases a
  {
    if a != {} {
      var x :| x in a;
      SubsetNoLarger(a - {x}, b - {x});
    }
  }

  lemma ProperSubsetSmaller<T>(a: set<T>, b: set<T>)
    requires a < b
    ensures |a| < |b|
  {
    assert !(b <= a);
    var x :| x in b && x !in a;
    SubsetNoLarger(a, b - {x});
  }

  /** The cascade of deleting `acc`: keep adding the rows whose parent is
      already being deleted until nothing new appears. */
  function Closure(s: Store, acc: set<Id>): (r: set<Id>)
    ensures acc <= r <= acc + s.Keys
    ensures ClosedUnderChildren(s, r)
    decreases |s.Keys - acc|
  {
    var next := acc + (set k | k in s.Keys && ChildOf(s, k, acc));
    if next <= acc then acc
    else
      ProperSubsetSmaller(s.Keys - next, s.Keys - acc);
      Closure(s, next)
  }

  /** The cascade is the least set containing `acc` that leaves no orphan:
      it deletes nothing the foreign key does not force it to. */
  lemma {:induction false} ClosureLeast(s: Store, acc: set<Id>, x: set<Id>)
    requires acc <= x && ClosedUnderChildren(s, x)
    ensures Closure(s, acc) <= x
    decreases |s.Keys - acc|
  {
    var next := acc + (set k | k in s.Keys && ChildOf(s, k, acc));
    if !(next <= acc) {
      ProperSubsetSmaller(s.Keys - next, s.Keys - acc);
      assert next <= x;
      ClosureLeast(s, next, x);
    }
  }

  /** `path` walks from `path[0]` down parent/sub-task edges. */
  ghost predicate IsChain(s: Store, path: seq<Id>)
  {
    && |path| >= 1
    && forall i :: 0 < i < |path| ==> path[i] in s && s[path[i]].parentTaskId == Some(path[i - 1])
  }

  /** `k` is a sub-task of `root`, directly or through sub-tasks. */
  ghost predicate IsDescendant(s: Store, root: Id, k: Id)
  {
    exists path :: |path| >= 2 && IsChain(s, path) && path[0] == root && path[|path| - 1] == k
  }

  /** A chain that starts inside a set closed under children stays in it. */
  lemma {:induction false} ChainStaysInClosed(s: Store, path: seq<Id>, x: set<Id>)
    requires IsChain(s, path) && path[0] in x && ClosedUnderChildren(s, x)
    ensures path[|path| - 1] in x
    decreases |path|
  {
    if |path| > 1 {
      var front := path[..|path| - 1];
      assert IsChain(s, front);
      ChainStaysInClosed(s, front, x);
      assert ChildOf(s, path[|path| - 1], x);
    }
  }

  /** Every task the cascade reaches lies below a task of the base set. */
  lemma {:induction false} ClosureReachable(s: Store, base: set<Id>, acc: set<Id>)
    requires base <= acc
    requires forall k :: k in acc ==> k in base || exists b :: b in base && IsDescendant(s, b, k)
    ensures forall k :: k in Closure(s, acc) ==> k in base || exists b :: b in base && IsDescendant(s, b, k)
    decreases |s.Keys - acc|
  {
    var next := acc + (set k | k in s.Keys && ChildOf(s, k, acc));
    if !(next <= acc) {
      ProperSubsetSmaller(s.Keys - next, s.Keys - acc);
      forall k | k in next
        ensures k in base || exists b :: b in base && IsDescendant(s, b, k)
      {
        if k !in acc {
          var p := s[k].parentTaskId.value;
          assert p in acc;
          if p in base {
            assert IsChain(s, [p, k]);
            assert IsDescendant(s, p, k);
          } else {
            var b, path :| b in base && |path| >= 2 && IsChain(s, path) && path[0] == b && path[|path| - 1] == p;
            var longer := path + [k];
            assert IsChain(s, longer);
            assert IsDescendant(s, b, k);
          }
        }
      }
      ClosureReachable(s, base, next);
    }
  }

  /** The rows deleting `root` removes: `root` and all its descendants. */
  function Cascade(s: Store, root: Id): (r: set<Id>)
    ensures root in r
    ensures ClosedUnderChildren(s, r)
  {
    Closure(s, {root})
  }

  /** The cascade of `root` is exactly `root` and its transitive sub-tasks. */
  lemma CascadeIsSubtree(s: Store, root: Id, k: Id)
    ensures k in Cascade(s, root) <==> k == root || IsDescendant(s, root, k)
  {
    ClosureReachable(s, {root}, {root});
    if IsDescendant(s, root, k) {
      var path :| |path| >= 2 && IsChain(s, path) && path[0] == root && path[|path| - 1] == k;
      ChainStaysInClosed(s, path, Cascade(s, root));
    }
  }
}
