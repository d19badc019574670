/**
 * Insertion into the AVL tree (sortedset.go pushRecursive): descend by the comparator,
 * create a leaf at the empty slot or overwrite an equivalent value in place, then on the
 * way back recompute the cached fields and rebalance, choosing the rotation by comparing
 * the pushed value with the heavy child's value.
 */
module SortedSetPush {
  import opened Ordering
  import opened SortedSetNode

  /**
   * The rebalancing step of pushRecursive for a node whose cached fields were just
   * recomputed. A node leaning by two has a heavy child that grew by the push, and that
   * child leans towards the side where `v` went, which is what the value comparison detects.
   */
  function RebalanceAfterPush<T(!new)>(n: Tree<T>, v: T, cmp: (T, T) -> int): (r: Tree<T>)
    requires IsComparator(cmp)
    requires n.Node? && Cached(n) && Balanced(n.left) && Balanced(n.right) && Sorted(Values(n), cmp)
    requires -2 <= Balance(n) <= 2
    requires Balance(n) == 2 ==>
      n.left.Node? && cmp(v, n.left.value) != 0 && Balance(n.left) == (if cmp(v, n.left.value) < 0 then 1 else -1)
    requires Balance(n) == -2 ==>
      n.right.Node? && cmp(v, n.right.value) != 0 && Balance(n.right) == (if cmp(v, n.right.value) < 0 then 1 else -1)
    ensures IsAvl(r, cmp) && Values(r) == Values(n)
    ensures if -1 <= Balance(n) <= 1 then r == n else Height(r) == Height(n) - 1
  {
    if Balance(n) > 1 then
      if cmp(v, n.left.value) < 0 then // left-left
        RotateRightRepairs(n);
        RotateRight(n)
      else // left-right
        LeftRightRepairs(n);
        RotateRight(n.(left := RotateLeft(n.left)))
    else if Balance(n) < -1 then
      if cmp(v, n.right.value) > 0 then // right-right
        RotateLeftRepairs(n);
        RotateLeft(n)
      else // right-left
        RightLeftRepairs(n);
        RotateLeft(n.(right := RotateRight(n.right)))
    else
      n
  }

  /** What Push promises about its result `r` for the tree `t`. */
  ghost predicate PushResult<T>(t: Tree<T>, v: T, cmp: (T, T) -> int, r: Tree<T>) {
    && IsAvl(r, cmp)
    && Values(r) == SortedInsert(Values(t), v, cmp)
    && Height(t) <= Height(r) <= Height(t) + 1
    && (t.Node? && Height(r) == Height(t) + 1 ==>
          && r.Node? && r.value == t.value && cmp(v, t.value) != 0
          && Balance(r) == (if cmp(v, t.value) < 0 then 1 else -1))
  }

  /**
   * pushRecursive: the result is a valid AVL tree whose values are the reference
   * insertion's; the height grows by at most one, and when it grows the root is
   * unchanged and leans towards the side the new value went to.
   */
  function Push<T(!new)>(t: Tree<T>, v: T, cmp: (T, T) -> int): (r: Tree<T>)
    requires IsComparator(cmp) && IsAvl(t, cmp)
    ensures IsAvl(r, cmp)
    ensures Values(r) == SortedInsert(Values(t), v, cmp)
    ensures Height(t) <= Height(r) <= Height(t) + 1
    ensures t.Node? && Height(r) == Height(t) + 1 ==>
      && r.Node? && r.value == t.value && cmp(v, t.value) != 0
      && Balance(r) == (if cmp(v, t.value) < 0 then 1 else -1)
    decreases t
  {
    if t.Nil? then
      Node(v, Nil, Nil, 1, 1)
    else
      AvlChildren(t, cmp);
      var diff := cmp(v, t.value);
      if diff < 0 then
        var left := Push(t.left, v, cmp);
        PushLeft(t, v, cmp, left);
        RebalanceAfterPush(Recomputed(t.value, left, t.right), v, cmp)
      else if diff > 0 then
        var right := Push(t.right, v, cmp);
        PushRight(t, v, cmp, right);
        RebalanceAfterPush(Recomputed(t.value, t.left, right), v, cmp)
      else
        // an equivalent value is stored here: overwrite it, keep the cached fields
        PushHere(t, v, cmp);
        t.(value := v)
  }

  lemma PushLeft<T(!new)>(t: Tree<T>, v: T, cmp: (T, T) -> int, left: Tree<T>)
    requires IsComparator(cmp) && IsAvl(t, cmp) && t.Node? && cmp(v, t.value) < 0
    requires PushResult(t.left, v, cmp, left)
    ensures var n := Recomputed(t.value, left, t.right);
      && Cached(n) && Balanced(n.left) && Balanced(n.right) && Sorted(Values(n), cmp)
      && -2 <= Balance(n) <= 2
      && (Balance(n) == 2 ==>
            n.left.Node? && cmp(v, n.left.value) != 0 && Balance(n.left) == (if cmp(v, n.left.value) < 0 then 1 else -1))
      && Balance(n) > -2
      && PushResult(t, v, cmp, RebalanceAfterPush(n, v, cmp))
  {
    SortedSplit(Values(t.left), t.value, Values(t.right), cmp);
    HeightOfNode(t.left);
    HeightOfNode(t.right);
    InsertLeftOf(Values(t.left), t.value, Values(t.right), v, cmp);
    InsertSorted(Values(t), v, cmp);
  }

  lemma PushRight<T(!new)>(t: Tree<T>, v: T, cmp: (T, T) -> int, right: Tree<T>)
    requires IsComparator(cmp) && IsAvl(t, cmp) && t.Node? && cmp(v, t.value) > 0
    requires PushResult(t.right, v, cmp, right)
    ensures var n := Recomputed(t.value, t.left, right);
      && Cached(n) && Balanced(n.left) && Balanced(n.right) && Sorted(Values(n), cmp)
      && -2 <= Balance(n) <= 2
      && (Balance(n) == -2 ==>
            n.right.Node? && cmp(v, n.right.value) != 0 && Balance(n.right) == (if cmp(v, n.right.value) < 0 then 1 else -1))
      && Balance(n) < 2
      && PushResult(t, v, cmp, RebalanceAfterPush(n, v, cmp))
  {
    SortedSplit(Values(t.left), t.value, Values(t.right), cmp);
    HeightOfNode(t.left);
    HeightOfNode(t.right);
    InsertAtOrAfter(Values(t.left), t.value, Values(t.right), v, cmp);
    InsertSorted(Values(t), v, cmp);
  }

  lemma PushHere<T(!new)>(t: Tree<T>, v: T, cmp: (T, T) -> int)
    requires IsComparator(cmp) && IsAvl(t, cmp) && t.Node? && cmp(v, t.value) == 0
    ensures PushResult(t, v, cmp, t.(value := v))
  {
    InsertAtOrAfter(Values(t.left), t.value, Values(t.right), v, cmp);
    InsertSorted(Values(t), v, cmp);
  }
}
