/**
 * The sorted set (sortedset.go): a handle on the root of an AVL tree whose values are
 * kept strictly ascending by a caller-supplied three-way comparator. The tree algebra
 * lives in SortedSetNode, SortedSetPush and SortedSetRemove; this module holds the set
 * object, its queries and the properties of whole operations.
 *
 * The comparator is passed to every comparing call, as in the Go code; the set stays
 * valid as long as every call uses the same comparator, which is what `Valid(cmp)` says.
 */
module SortedSet {
  import opened Optional
  import opened Ordering
  import opened SortedSetNode
  import opened Traversal
  import SortedSetPush
  import SortedSetRemove

  // ---------------------------------------------------------------------------
  // Queries on a tree

  /** containsRecursive: a full scan comparing with `==`, not with the comparator. */
  function Contains<T(==)>(t: Tree<T>, v: T): (b: bool)
    ensures b <==> v in Values(t)
  {
    if t.Nil? then false
    else if t.value == v then true
    else if Contains(t.left, v) then true
    else Contains(t.right, v)
  }

  /** containsByComparatorRecursive: a descent steered by the comparator. */
  function ContainsByComparator<T>(t: Tree<T>, v: T, cmp: (T, T) -> int): (b: bool)
    ensures b ==> Member(Values(t), v, cmp)
  {
    if t.Nil? then false
    else
      var diff := cmp(v, t.value);
      if diff < 0 then
        var b := ContainsByComparator(t.left, v, cmp);
        assert b ==> Member(Values(t), v, cmp) by {
          if b {
            var i :| 0 <= i < |Values(t.left)| && cmp(v, Values(t.left)[i]) == 0;
            assert Values(t)[i] == Values(t.left)[i];
          }
        }
        b
      else if diff > 0 then
        var b := ContainsByComparator(t.right, v, cmp);
        assert b ==> Member(Values(t), v, cmp) by {
          if b {
            var i :| 0 <= i < |Values(t.right)| && cmp(v, Values(t.right)[i]) == 0;
            assert Values(t)[|Values(t.left)| + 1 + i] == Values(t.right)[i];
          }
        }
        b
      else
        assert Values(t)[|Values(t.left)|] == t.value;
        true
  }

  /** On a valid tree the descent finds `v` exactly when some stored value compares equal to it. */
  lemma {:induction false} ContainsByComparatorComplete<T(!new)>(t: Tree<T>, v: T, cmp: (T, T) -> int)
    requires IsComparator(cmp) && IsAvl(t, cmp)
    ensures ContainsByComparator(t, v, cmp) <==> Member(Values(t), v, cmp)
  {
    if t.Node? {
      AvlChildren(t, cmp);
      var diff := cmp(v, t.value);
      if diff < 0 {
        ContainsByComparatorComplete(t.left, v, cmp);
        DeleteLeftOf(Values(t.left), t.value, Values(t.right), v, cmp);
      } else if diff > 0 {
        ContainsByComparatorComplete(t.right, v, cmp);
        DeleteRightOf(Values(t.left), t.value, Values(t.right), v, cmp);
      }
    }
  }

  /** cloneRecursive: a node-by-node copy, which as a value is the tree itself. */
  function CloneTree<T>(t: Tree<T>): (c: Tree<T>)
    ensures c == t
  {
    if t.Nil? then Nil
    else Node(t.value, CloneTree(t.left), CloneTree(t.right), t.h, t.len)
  }

  /** sliceRecursive: append the values of `t` in order to what was collected so far. */
  method AppendInOrder<T>(t: Tree<T>, acc: seq<T>) returns (out: seq<T>)
    ensures out == acc + Values(t)
    decreases t
  {
    if t.Nil? {
      return acc;
    }
    out := AppendInOrder(t.left, acc);
    out := out + [t.value];
    out := AppendInOrder(t.right, out);
    assert acc + Values(t.left) + [t.value] + Values(t.right) == acc + Values(t);
  }


  /**
   * doRecursive: the procedures' side effects are not modelled; what is, is the order of
   * the calls: every procedure on the least value, then every procedure on the next one.
   */
  function Do<T>(t: Tree<T>, procs: nat): (calls: seq<(nat, T)>)
    ensures calls == Calls(Values(t), procs)
  {
    if t.Nil? then []
    else
      var calls := Do(t.left, procs) + EachProcedure(t.value, procs) + Do(t.right, procs);
      CallsAppend(Values(t.left) + [t.value], Values(t.right), procs);
      CallsAppend(Values(t.left), [t.value], procs);
      assert Calls([t.value], procs) == EachProcedure(t.value, procs) + [];
      calls
  }


  /** stringRecursive: each value's text and a space, in order. */
  function StringOf<T>(t: Tree<T>, show: T -> string): (s: string)
    ensures s == Spaced(Values(t), show)
  {
    if t.Nil? then ""
    else
      var s := StringOf(t.left, show) + show(t.value) + " " + StringOf(t.right, show);
      SpacedAppend(Values(t.left) + [t.value], Values(t.right), show);
      SpacedAppend(Values(t.left), [t.value], show);
      s
  }

  /** String: "[]" when empty, otherwise the texts in order with the trailing spaces trimmed. */
  function String<T>(t: Tree<T>, show: T -> string): (s: string)
    ensures |s| >= 2 && s[0] == '[' && s[|s| - 1] == ']'
    ensures s == "[" + TrimRight(Spaced(Values(t), show)) + "]"
  {
    if t.Nil? then "[]" else "[" + TrimRight(StringOf(t, show)) + "]"
  }


  /**
   * When no value's text is empty or ends in a space, String is the bracketed,
   * space-separated list of the texts in ascending order.
   */
  lemma StringIsJoined<T>(t: Tree<T>, show: T -> string)
    requires forall v :: v in Values(t) ==> show(v) != [] && show(v)[|show(v)| - 1] != ' '
    ensures String(t, show) == "[" + Joined(Values(t), show) + "]"
  {
    var vs := Values(t);
    if vs != [] {
      SpacedIsJoinedPlusSpace(vs, show);
      TrimRightOneSpace(Joined(vs, show));
      JoinedEndsWithLast(vs, show);
    }
  }

  // ---------------------------------------------------------------------------
  // Properties of whole operations on valid trees

  /** Push keeps the search-tree order at every node, not only near the root. */
  lemma PushKeepsSearchTree<T(!new)>(t: Tree<T>, v: T, cmp: (T, T) -> int)
    requires IsComparator(cmp) && IsAvl(t, cmp)
    ensures SearchTree(SortedSetPush.Push(t, v, cmp), cmp)
  {
    SortedIffSearchTree(SortedSetPush.Push(t, v, cmp), cmp);
  }

  /** Push stores `v`, grows the size by one for a new value and keeps it for an equivalent one. */
  lemma PushLength<T(!new)>(t: Tree<T>, v: T, cmp: (T, T) -> int)
    requires IsComparator(cmp) && IsAvl(t, cmp)
    ensures v in Values(SortedSetPush.Push(t, v, cmp))
    ensures Length(SortedSetPush.Push(t, v, cmp)) == Length(t) + (if Member(Values(t), v, cmp) then 0 else 1)
  {
    var r := SortedSetPush.Push(t, v, cmp);
    LengthIsCount(t);
    LengthIsCount(r);
    InsertLength(Values(t), v, cmp);
    InsertElements(Values(t), v, cmp);
  }

  /** Two trees with the same nodes in the same places and the same cached fields. */
  ghost predicate SameShape<T>(a: Tree<T>, b: Tree<T>) {
    && a.Nil? == b.Nil?
    && (a.Node? ==>
          a.h == b.h && a.len == b.len && SameShape(a.left, b.left) && SameShape(a.right, b.right))
  }

  /** Pushing a value equivalent to a stored one only overwrites that value: no node moves. */
  lemma {:induction false} PushOverwriteKeepsShape<T(!new)>(t: Tree<T>, v: T, cmp: (T, T) -> int)
    requires IsComparator(cmp) && IsAvl(t, cmp) && Member(Values(t), v, cmp)
    ensures SameShape(SortedSetPush.Push(t, v, cmp), t)
    ensures Height(SortedSetPush.Push(t, v, cmp)) == Height(t)
    ensures Length(SortedSetPush.Push(t, v, cmp)) == Length(t)
    decreases t
  {
    AvlChildren(t, cmp);
    var diff := cmp(v, t.value);
    if diff < 0 {
      DeleteLeftOf(Values(t.left), t.value, Values(t.right), v, cmp);
      var left := SortedSetPush.Push(t.left, v, cmp);
      PushOverwriteKeepsShape(t.left, v, cmp);
      SortedSetPush.PushLeft(t, v, cmp, left);
      SameShapeRefl(t.right);
      RecomputedSameShape(t.value, left, t.right, t);
    } else if diff > 0 {
      DeleteRightOf(Values(t.left), t.value, Values(t.right), v, cmp);
      var right := SortedSetPush.Push(t.right, v, cmp);
      PushOverwriteKeepsShape(t.right, v, cmp);
      SortedSetPush.PushRight(t, v, cmp, right);
      SameShapeRefl(t.left);
      RecomputedSameShape(t.value, t.left, right, t);
    } else {
      SameShapeRefl(t.left);
      SameShapeRefl(t.right);
    }
  }

  lemma SameShapeRefl<T>(t: Tree<T>)
    ensures SameShape(t, t)
  {
  }

  /** A node recomputed over children shaped like a consistent node's is shaped like it. */
  lemma RecomputedSameShape<T>(x: T, l: Tree<T>, r: Tree<T>, t: Tree<T>)
    requires t.Node? && Cached(t) && SameShape(l, t.left) && SameShape(r, t.right)
    ensures SameShape(Recomputed(x, l, r), t) && Balance(Recomputed(x, l, r)) == Balance(t)
  {
    assert Height(l) == Height(t.left) && Length(l) == Length(t.left);
    assert Height(r) == Height(t.right) && Length(r) == Length(t.right);
  }

  /**
   * Remove reports whether an equivalent value was present; if so the size drops by
   * one, otherwise the values are unchanged; either way nothing equivalent to `v` is left.
   */
  lemma RemoveLength<T(!new)>(t: Tree<T>, v: T, cmp: (T, T) -> int)
    requires IsComparator(cmp) && IsAvl(t, cmp)
    ensures var (r, removed) := SortedSetRemove.Remove(t, v, cmp);
      && Length(r) == Length(t) - (if removed then 1 else 0)
      && (!removed ==> Values(r) == Values(t))
      && !Member(Values(r), v, cmp)
  {
    var (r, removed) := SortedSetRemove.Remove(t, v, cmp);
    LengthIsCount(t);
    LengthIsCount(r);
    DeleteElements(Values(t), v, cmp);
    DeleteLeavesNone(Values(t), v, cmp);
    if !removed {
      DeleteAbsent(Values(t), v, cmp);
    }
  }

  /** The least stored value is the first in order, the greatest the last. */
  lemma MinMaxAreExtreme<T(!new)>(t: Tree<T>, cmp: (T, T) -> int)
    requires IsComparator(cmp) && IsAvl(t, cmp) && t.Node?
    ensures forall x :: x in Values(t) ==> cmp(Leftmost(t), x) <= 0 && cmp(x, Rightmost(t)) <= 0
  {
    var vs := Values(t);
    forall x | x in vs ensures cmp(Leftmost(t), x) <= 0 && cmp(x, Rightmost(t)) <= 0 {
      var i :| 0 <= i < |vs| && vs[i] == x;
      assert 0 < i ==> cmp(vs[0], vs[i]) < 0;
      assert i < |vs| - 1 ==> cmp(vs[i], vs[|vs| - 1]) < 0;
    }
  }

  /** Pushing every value of `vs`, first to last, into a tree holding `s`. */
  function PushAll<T>(s: seq<T>, vs: seq<T>, cmp: (T, T) -> int): seq<T>
    decreases |vs|
  {
    if vs == [] then s else PushAll(SortedInsert(s, vs[0], cmp), vs[1..], cmp)
  }

  /** Building a set from a strictly ascending slice and slicing it gives the slice back. */
  lemma {:induction false} PushAllSorted<T(!new)>(s: seq<T>, vs: seq<T>, cmp: (T, T) -> int)
    requires IsComparator(cmp) && Sorted(s + vs, cmp)
    ensures PushAll(s, vs, cmp) == s + vs
    decreases |vs|
  {
    if vs != [] {
      var x := vs[0];
      forall i | 0 <= i < |s| ensures cmp(x, s[i]) > 0 {
        assert (s + vs)[i] == s[i] && (s + vs)[|s|] == x;
      }
      InsertRightOf(s, [], x, cmp);
      assert s + [] == s;
      assert s + [x] + vs[1..] == s + vs;
      PushAllSorted(s + [x], vs[1..], cmp);
    }
  }

  // ---------------------------------------------------------------------------
  // The set object

  /**
   * The set object of sortedset.go, holding the root of its tree. Remove here is the
   * corrected removal (SortedSetRemove.Remove), which splices the surviving child in
   * on the one-child path; the Go code's removal, which leaves a cleared node behind
   * there, is SortedSetRemove.RemoveAsWritten, and the facts the class proves about its
   * values and size after a Remove do not hold for that version.
   */
  class SortedSet<T(==, !new)> {
    var root: Tree<T>

    /** The set invariant for the comparator all calls use. */
    ghost predicate Valid(cmp: (T, T) -> int)
      reads this
    {
      IsComparator(cmp) && IsAvl(root, cmp)
    }

    /** New: an empty set. */
    constructor ()
      ensures root == Nil
    {
      root := Nil;
    }

    /** Push inserts `v` in order, overwriting an equivalent value. */
    method Push(v: T, cmp: (T, T) -> int)
      requires Valid(cmp)
      modifies this
      ensures Valid(cmp)
      ensures Values(root) == SortedInsert(old(Values(root)), v, cmp)
    {
      root := SortedSetPush.Push(root, v, cmp);
    }

    /**
     * Remove drops the value equivalent to `v`, if any, and says whether there was one.
     * This is the corrected removal; see the class comment.
     */
    method Remove(v: T, cmp: (T, T) -> int) returns (removed: bool)
      requires Valid(cmp)
      modifies this
      ensures Valid(cmp)
      ensures Values(root) == SortedDelete(old(Values(root)), v, cmp)
      ensures removed <==> Member(old(Values(root)), v, cmp)
    {
      var r := SortedSetRemove.Remove(root, v, cmp);
      root, removed := r.0, r.1;
    }

    /** RemoveAll empties the set. */
    method RemoveAll()
      modifies this
      ensures root == Nil
    {
      root := Nil;
    }

    /** IsEmpty: the root is absent exactly when there are no values. */
    function IsEmpty(): (b: bool)
      reads this
      ensures b <==> Values(root) == []
    {
      assert root.Node? ==> Values(root)[|Values(root.left)|] == root.value;
      root.Nil?
    }

    /** Len reads the root's cached size, which on a consistent tree is the number of values. */
    function Len(): (n: int)
      reads this
      requires Cached(root)
      ensures n == |Values(root)|
    {
      LengthIsCount(root);
      if IsEmpty() then 0 else root.len
    }

    /** Max: follow right children from the root; nothing when empty. */
    method Max() returns (m: Option<T>)
      ensures root.Nil? ==> m == None
      ensures root.Node? ==> m == Some(Values(root)[|Values(root)| - 1])
    {
      if IsEmpty() {
        return None;
      }
      var n := root;
      while n.right.Node?
        invariant n.Node? && Rightmost(n) == Rightmost(root)
        decreases n
      {
        n := n.right;
      }
      return Some(n.value);
    }

    /** Min: follow left children from the root (sortedset.go min); nothing when empty. */
    method Min() returns (m: Option<T>)
      ensures root.Nil? ==> m == None
      ensures root.Node? ==> m == Some(Values(root)[0])
    {
      if IsEmpty() {
        return None;
      }
      var n := root;
      while n.left.Node?
        invariant n.Node? && Leftmost(n) == Leftmost(root)
        decreases n
      {
        n := n.left;
      }
      return Some(n.value);
    }

    /** Slice: the values in ascending order. */
    method Slice() returns (s: seq<T>)
      ensures s == Values(root)
    {
      s := AppendInOrder(root, []);
    }

    /** Clone: a new set over a copy of the tree. */
    method Clone() returns (c: SortedSet<T>)
      ensures fresh(c) && c.root == root
    {
      c := new SortedSet();
      c.root := CloneTree(root);
    }
  }

  /** NewBySlice: push the values one after the other into a new set. */
  method NewBySlice<T(==, !new)>(values: seq<T>, cmp: (T, T) -> int) returns (s: SortedSet<T>)
    requires IsComparator(cmp)
    ensures fresh(s) && s.Valid(cmp)
    ensures Values(s.root) == PushAll([], values, cmp)
  {
    s := new SortedSet();
    var i := 0;
    while i < |values|
      invariant 0 <= i <= |values|
      invariant s.Valid(cmp)
      invariant PushAll(Values(s.root), values[i..], cmp) == PushAll([], values, cmp)
    {
      assert values[i..][1..] == values[i + 1..];
      s.Push(values[i], cmp);
      i := i + 1;
    }
  }
}
