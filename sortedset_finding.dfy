/**
 * The one-child case of removeRecursive, on the smallest input that reaches it. Pushing
 * `x` and then a greater `y` gives a root holding `x` with a single right child holding
 * `y`. Removing `x` as the Go code does copies `y` into the root and clears the child,
 * which stays linked: the set then reports 1 as its size but walks over two values, `y`
 * and `nil`, and its maximum is `nil`. The corrected removal (SortedSetRemove.Remove)
 * leaves just `y`, as its contract states for every valid tree.
 */
module SortedSetFinding {
  import opened Ordering
  import opened SortedSetNode
  import SortedSetPush
  import SortedSetRemove

  /** The tree that pushing `x` and then `y` into an empty set builds. */
  function TwoValues<T>(x: T, y: T): Tree<T> {
    Node(x, Nil, Node(y, Nil, Nil, 1, 1), 2, 2)
  }

  /** The second push goes right of the root, which then leans by one and needs no rotation. */
  lemma PushTwoValues<T(!new)>(x: T, y: T, cmp: (T, T) -> int)
    requires IsComparator(cmp) && cmp(x, y) < 0
    ensures SortedSetPush.Push(SortedSetPush.Push(Nil, x, cmp), y, cmp) == TwoValues(x, y)
    ensures IsAvl(TwoValues(x, y), cmp)
  {
    var one := Node(x, Nil, Nil, 1, 1);
    var leaf := Node(y, Nil, Nil, 1, 1);
    assert SortedSetPush.Push(Nil, x, cmp) == one;
    assert SortedSetPush.Push(Nil, y, cmp) == leaf;
    assert Values(one) == [x];
    SortedSetPush.PushRight(one, y, cmp, leaf);
    assert Recomputed(x, Nil, leaf) == TwoValues(x, y);
  }

  /** As written, removing `x` leaves a cleared node behind: two values walked, size 1, maximum nil. */
  lemma RemoveOneChildAsWritten<T(!new)>(x: T, y: T, nil: T, cmp: (T, T) -> int)
    requires IsComparator(cmp) && cmp(x, y) < 0
    ensures NonNegative(TwoValues(x, y))
    ensures var (r, removed) := SortedSetRemove.RemoveAsWritten(TwoValues(x, y), x, cmp, nil);
      && removed
      && r == Node(y, Nil, Node(nil, Nil, Nil, 0, 0), 1, 1)
      && Values(r) == [y, nil]
      && Length(r) == 1
      && Rightmost(r) == nil
      && Values(r) != SortedDelete(Values(TwoValues(x, y)), x, cmp)
  {
    var t := TwoValues(x, y);
    assert Values(t) == [x, y];
    var r := SortedSetRemove.RemoveAsWritten(t, x, cmp, nil).0;
    assert r == Node(y, Nil, Node(nil, Nil, Nil, 0, 0), 1, 1);
    assert Values(r) == [y] + [nil];
  }

  /** The corrected removal of `x` from the same tree leaves exactly `y`. */
  lemma RemoveOneChildCorrected<T(!new)>(x: T, y: T, cmp: (T, T) -> int)
    requires IsComparator(cmp) && cmp(x, y) < 0
    ensures IsAvl(TwoValues(x, y), cmp)
    ensures var (r, removed) := SortedSetRemove.Remove(TwoValues(x, y), x, cmp);
      removed && r == Node(y, Nil, Nil, 1, 1) && Values(r) == [y]
  {
    PushTwoValues(x, y, cmp);
  }
}
