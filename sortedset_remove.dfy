/**
 * Removal from the AVL tree (sortedset.go removeRecursive). The descent, the two-child
 * case (replace the value by the in-order successor and remove that from the right
 * subtree) and the rebalancing, which picks the rotation by the heavy child's balance
 * factor, are shared by both versions below. They differ in the one-child case:
 * `RemoveAsWritten` follows the Go code, which copies the child's value into the node
 * and then clears the child while leaving it linked; `Remove` splices the child in,
 * as the surrounding code evidently intends.
 */
module SortedSetRemove {
  import opened Ordering
  import opened SortedSetNode

  /**
   * The rebalancing step of removeRecursive for a node whose cached fields were just
   * recomputed: a node leaning by more than one is rotated towards its lighter side,
   * with a double rotation when the heavy child leans the other way.
   */
  function RebalanceAfterRemove<T>(n: Tree<T>): (r: Tree<T>)
    requires n.Node? && NonNegative(n)
    ensures r.Node? && NonNegative(r) && Values(r) == Values(n)
  {
    NonNegativeHeight(n.left);
    NonNegativeHeight(n.right);
    if Balance(n) > 1 then
      NonNegativeHeight(n.left.left);
      if Balance(n.left) >= 0 then // left-left
        RotateRight(n)
      else // left-right
        RotateLeftNonNegative(n.left);
        RotateRight(n.(left := RotateLeft(n.left)))
    else if Balance(n) < -1 then
      NonNegativeHeight(n.right.right);
      if Balance(n.right) <= 0 then // right-right
        RotateLeft(n)
      else // right-left
        RotateRightNonNegative(n.right);
        RotateLeft(n.(right := RotateRight(n.right)))
    else
      n
  }

  /**
   * On a node whose children are AVL trees and which leans by at most two, the
   * rebalancing yields an AVL tree of the same or one smaller height, and leaves a node
   * that leans by at most one untouched.
   */
  lemma RebalanceAfterRemoveRepairs<T>(n: Tree<T>)
    requires n.Node? && NonNegative(n) && Cached(n) && Balanced(n.left) && Balanced(n.right)
    requires -2 <= Balance(n) <= 2
    ensures Cached(RebalanceAfterRemove(n)) && Balanced(RebalanceAfterRemove(n))
    ensures -1 <= Balance(n) <= 1 ==> RebalanceAfterRemove(n) == n
    ensures Height(n) - 1 <= Height(RebalanceAfterRemove(n)) <= Height(n)
  {
    if Balance(n) == 2 {
      LeftHeavyRepairs(n);
    } else if Balance(n) == -2 {
      RightHeavyRepairs(n);
    } else {
      HeightOfNode(n.left);
      HeightOfNode(n.right);
    }
  }

  /** The left-leaning case of RebalanceAfterRemoveRepairs. */
  lemma LeftHeavyRepairs<T>(n: Tree<T>)
    requires n.Node? && NonNegative(n) && Cached(n) && Balanced(n.left) && Balanced(n.right)
    requires Balance(n) == 2
    ensures Cached(RebalanceAfterRemove(n)) && Balanced(RebalanceAfterRemove(n))
    ensures Height(n) - 1 <= Height(RebalanceAfterRemove(n)) <= Height(n)
  {
    HeightOfNode(n.left);
    HeightOfNode(n.right);
    if Balance(n.left) >= 0 {
      RotateRightRepairs(n);
    } else {
      LeftRightRepairs(n);
    }
  }

  /** The right-leaning case of RebalanceAfterRemoveRepairs. */
  lemma RightHeavyRepairs<T>(n: Tree<T>)
    requires n.Node? && NonNegative(n) && Cached(n) && Balanced(n.left) && Balanced(n.right)
    requires Balance(n) == -2
    ensures Cached(RebalanceAfterRemove(n)) && Balanced(RebalanceAfterRemove(n))
    ensures Height(n) - 1 <= Height(RebalanceAfterRemove(n)) <= Height(n)
  {
    HeightOfNode(n.left);
    HeightOfNode(n.right);
    if Balance(n.right) <= 0 {
      RotateLeftRepairs(n);
    } else {
      RightLeftRepairs(n);
    }
  }

  // ---------------------------------------------------------------------------
  // The corrected removal

  /** What Remove promises about its result `r` for the tree `t`. */
  ghost predicate RemoveResult<T>(t: Tree<T>, v: T, cmp: (T, T) -> int, r: (Tree<T>, bool)) {
    && IsAvl(r.0, cmp)
    && Values(r.0) == SortedDelete(Values(t), v, cmp)
    && (r.1 <==> Member(Values(t), v, cmp))
    && Height(t) - 1 <= Height(r.0) <= Height(t)
  }

  /**
   * removeRecursive with the one-child case splicing the surviving child in: the result
   * is an AVL tree holding the reference deletion's values, the flag says whether an
   * equivalent value was present, and the height drops by at most one.
   */
  function Remove<T(!new)>(t: Tree<T>, v: T, cmp: (T, T) -> int): (r: (Tree<T>, bool))
    requires IsComparator(cmp) && IsAvl(t, cmp)
    ensures IsAvl(r.0, cmp)
    ensures Values(r.0) == SortedDelete(Values(t), v, cmp)
    ensures r.1 <==> Member(Values(t), v, cmp)
    ensures Height(t) - 1 <= Height(r.0) <= Height(t)
    decreases t
  {
    if t.Nil? then
      (Nil, false)
    else
      AvlChildren(t, cmp);
      var diff := cmp(v, t.value);
      if diff < 0 then
        var left := Remove(t.left, v, cmp);
        RemoveLeft(t, v, cmp, left);
        (RebalanceAfterRemove(Recomputed(t.value, left.0, t.right)), left.1)
      else if diff > 0 then
        var right := Remove(t.right, v, cmp);
        RemoveRight(t, v, cmp, right);
        (RebalanceAfterRemove(Recomputed(t.value, t.left, right.0)), right.1)
      else if t.left.Nil? || t.right.Nil? then
        // no child, or one child that takes the node's place
        RemoveHere(t, v, cmp);
        (if t.left.Nil? then t.right else t.left, true)
      else
        var successor := Leftmost(t.right);
        var right := Remove(t.right, successor, cmp);
        RemoveSuccessor(t, v, cmp, right);
        (RebalanceAfterRemove(Recomputed(successor, t.left, right.0)), true)
  }

  lemma RemoveLeft<T(!new)>(t: Tree<T>, v: T, cmp: (T, T) -> int, left: (Tree<T>, bool))
    requires IsComparator(cmp) && IsAvl(t, cmp) && t.Node? && cmp(v, t.value) < 0
    requires RemoveResult(t.left, v, cmp, left)
    ensures NonNegative(Recomputed(t.value, left.0, t.right))
    ensures RemoveResult(t, v, cmp, (RebalanceAfterRemove(Recomputed(t.value, left.0, t.right)), left.1))
  {
    var n := Recomputed(t.value, left.0, t.right);
    CachedNonNegative(t);
    CachedNonNegative(left.0);
    HeightOfNode(t.left);
    HeightOfNode(t.right);
    HeightOfNode(left.0);
    DeleteLeftOf(Values(t.left), t.value, Values(t.right), v, cmp);
    DeleteSorted(Values(t), v, cmp);
    RebalanceAfterRemoveRepairs(n);
  }

  lemma RemoveRight<T(!new)>(t: Tree<T>, v: T, cmp: (T, T) -> int, right: (Tree<T>, bool))
    requires IsComparator(cmp) && IsAvl(t, cmp) && t.Node? && cmp(v, t.value) > 0
    requires RemoveResult(t.right, v, cmp, right)
    ensures NonNegative(Recomputed(t.value, t.left, right.0))
    ensures RemoveResult(t, v, cmp, (RebalanceAfterRemove(Recomputed(t.value, t.left, right.0)), right.1))
  {
    var n := Recomputed(t.value, t.left, right.0);
    CachedNonNegative(t);
    CachedNonNegative(right.0);
    HeightOfNode(t.left);
    HeightOfNode(t.right);
    HeightOfNode(right.0);
    DeleteRightOf(Values(t.left), t.value, Values(t.right), v, cmp);
    DeleteSorted(Values(t), v, cmp);
    RebalanceAfterRemoveRepairs(n);
  }

  lemma RemoveHere<T(!new)>(t: Tree<T>, v: T, cmp: (T, T) -> int)
    requires IsComparator(cmp) && IsAvl(t, cmp) && t.Node? && cmp(v, t.value) == 0
    requires t.left.Nil? || t.right.Nil?
    ensures RemoveResult(t, v, cmp, (if t.left.Nil? then t.right else t.left, true))
  {
    AvlChildren(t, cmp);
    HeightOfNode(t.left);
    HeightOfNode(t.right);
    DeleteAt(Values(t.left), t.value, Values(t.right), v, cmp);
    if t.left.Nil? {
      assert Values(t.left) + Values(t.right) == Values(t.right);
    } else {
      assert Values(t.left) + Values(t.right) == Values(t.left);
    }
  }

  lemma RemoveSuccessor<T(!new)>(t: Tree<T>, v: T, cmp: (T, T) -> int, right: (Tree<T>, bool))
    requires IsComparator(cmp) && IsAvl(t, cmp) && t.Node? && cmp(v, t.value) == 0
    requires t.left.Node? && t.right.Node?
    requires RemoveResult(t.right, Leftmost(t.right), cmp, right)
    ensures NonNegative(Recomputed(Leftmost(t.right), t.left, right.0))
    ensures RemoveResult(t, v, cmp, (RebalanceAfterRemove(Recomputed(Leftmost(t.right), t.left, right.0)), true))
  {
    var n := Recomputed(Leftmost(t.right), t.left, right.0);
    SuccessorValues(t, v, cmp, right.0);
    CachedNonNegative(t);
    CachedNonNegative(right.0);
    HeightOfNode(t.left);
    HeightOfNode(t.right);
    HeightOfNode(right.0);
    RebalanceAfterRemoveRepairs(n);
  }

  /** Moving the successor up keeps the values those of the reference deletion. */
  lemma SuccessorValues<T(!new)>(t: Tree<T>, v: T, cmp: (T, T) -> int, right: Tree<T>)
    requires IsComparator(cmp) && IsAvl(t, cmp) && t.Node? && cmp(v, t.value) == 0 && t.right.Node?
    requires Values(right) == SortedDelete(Values(t.right), Leftmost(t.right), cmp)
    ensures Values(Recomputed(Leftmost(t.right), t.left, right)) == SortedDelete(Values(t), v, cmp)
    ensures Sorted(SortedDelete(Values(t), v, cmp), cmp)
    ensures Member(Values(t), v, cmp)
  {
    DeleteBySuccessor(Values(t.left), t.value, Values(t.right), v, cmp);
  }

  // ---------------------------------------------------------------------------
  // The removal as written

  /**
   * removeRecursive exactly as the Go code has it, with `nil` the value a cleared node
   * holds. In the one-child case the node takes the child's value and the child is
   * cleared but stays linked, as a node with value `nil`, no children, height 0 and
   * size 0. The result keeps the heights usable by the rotations, and nothing more.
   */
  function RemoveAsWritten<T>(t: Tree<T>, v: T, cmp: (T, T) -> int, nil: T): (r: (Tree<T>, bool))
    requires NonNegative(t)
    ensures NonNegative(r.0)
    ensures t.Nil? ==> r == (Nil, false)
    decreases t
  {
    if t.Nil? then
      (Nil, false)
    else
      var diff := cmp(v, t.value);
      if diff < 0 then
        var left := RemoveAsWritten(t.left, v, cmp, nil);
        (RebalanceAfterRemove(Recomputed(t.value, left.0, t.right)), left.1)
      else if diff > 0 then
        var right := RemoveAsWritten(t.right, v, cmp, nil);
        (RebalanceAfterRemove(Recomputed(t.value, t.left, right.0)), right.1)
      else if t.left.Nil? && t.right.Nil? then
        (Nil, true)
      else if t.left.Nil? || t.right.Nil? then
        var cleared := Node(nil, Nil, Nil, 0, 0);
        var child := if t.left.Nil? then t.right else t.left;
        var n := if t.left.Nil? then Recomputed(child.value, Nil, cleared)
                 else Recomputed(child.value, cleared, Nil);
        (RebalanceAfterRemove(n), true)
      else
        var successor := Leftmost(t.right);
        var right := RemoveAsWritten(t.right, successor, cmp, nil);
        (RebalanceAfterRemove(Recomputed(successor, t.left, right.0)), true)
  }

  /**
   * Whether removing `v` from `t` reaches a node with exactly one child: the node holding
   * `v`, or, when that node has two children, the node of the successor removed in its place.
   */
  ghost predicate ReachesOneChild<T>(t: Tree<T>, v: T, cmp: (T, T) -> int)
    decreases t
  {
    if t.Nil? then false
    else if cmp(v, t.value) < 0 then ReachesOneChild(t.left, v, cmp)
    else if cmp(v, t.value) > 0 then ReachesOneChild(t.right, v, cmp)
    else if t.left.Nil? && t.right.Nil? then false
    else if t.left.Nil? || t.right.Nil? then true
    else ReachesOneChild(t.right, Leftmost(t.right), cmp)
  }

  /** Recomputing the cached fields of a node whose fields are consistent changes nothing. */
  lemma RecomputedSame<T>(t: Tree<T>)
    requires t.Node? && Cached(t)
    ensures Recomputed(t.value, t.left, t.right) == t
  {
  }

  /**
   * As written, removing a value that no stored value is equivalent to reports false and
   * returns the tree unchanged: every node on the search path is rebuilt as it was, and a
   * balanced node is not rotated.
   */
  lemma {:induction false} RemoveAsWrittenAbsent<T(!new)>(t: Tree<T>, v: T, cmp: (T, T) -> int, nil: T)
    requires IsComparator(cmp) && IsAvl(t, cmp) && !Member(Values(t), v, cmp)
    ensures NonNegative(t) && RemoveAsWritten(t, v, cmp, nil) == (t, false)
    decreases t
  {
    CachedNonNegative(t);
    if t.Node? {
      AvlChildren(t, cmp);
      var l, x, r := Values(t.left), t.value, Values(t.right);
      RecomputedSame(t);
      if cmp(v, x) < 0 {
        DeleteLeftOf(l, x, r, v, cmp);
        RemoveAsWrittenAbsent(t.left, v, cmp, nil);
        RebalanceAfterRemoveRepairs(t);
      } else if cmp(v, x) > 0 {
        DeleteRightOf(l, x, r, v, cmp);
        RemoveAsWrittenAbsent(t.right, v, cmp, nil);
        RebalanceAfterRemoveRepairs(t);
      } else {
        DeleteAt(l, x, r, v, cmp);
        assert false;
      }
    }
  }

  /**
   * As written, the removal agrees with the corrected one whenever it never reaches a
   * node with exactly one child: the two differ in that case alone.
   */
  lemma {:induction false} RemoveAsWrittenAgrees<T(!new)>(t: Tree<T>, v: T, cmp: (T, T) -> int, nil: T)
    requires IsComparator(cmp) && IsAvl(t, cmp) && !ReachesOneChild(t, v, cmp)
    ensures NonNegative(t) && RemoveAsWritten(t, v, cmp, nil) == Remove(t, v, cmp)
    decreases t
  {
    CachedNonNegative(t);
    if t.Node? {
      AvlChildren(t, cmp);
      if cmp(v, t.value) < 0 {
        RemoveAsWrittenAgrees(t.left, v, cmp, nil);
      } else if cmp(v, t.value) > 0 {
        RemoveAsWrittenAgrees(t.right, v, cmp, nil);
      } else if t.left.Node? && t.right.Node? {
        RemoveAsWrittenAgrees(t.right, Leftmost(t.right), cmp, nil);
      }
    }
  }

  /**
   * The tree without the nodes the removal as written clears and leaves linked: a node of
   * height 0 and size 0 is dropped, with whatever hangs below it.
   */
  function Erase<T>(t: Tree<T>): (r: Tree<T>)
    ensures Height(r) == Height(t) && Length(r) == Length(t)
  {
    if t.Nil? || (t.h == 0 && t.len == 0) then Nil
    else Node(t.value, Erase(t.left), Erase(t.right), t.h, t.len)
  }

  /** A tree whose cached fields are right has no cleared node to erase. */
  lemma {:induction false} EraseCached<T>(t: Tree<T>)
    requires Cached(t)
    ensures Erase(t) == t
  {
    if t.Node? {
      HeightOfNode(t);
      EraseCached(t.left);
      EraseCached(t.right);
    }
  }

  lemma EraseRecomputed<T>(v: T, left: Tree<T>, right: Tree<T>)
    requires NonNegative(left) && NonNegative(right)
    ensures Erase(Recomputed(v, left, right)) == Recomputed(v, Erase(left), Erase(right))
  {
    NonNegativeHeight(left);
    NonNegativeHeight(right);
  }

  lemma EraseRotateLeft<T>(n: Tree<T>)
    requires n.Node? && n.right.Node? && NonNegative(n) && n.h >= 1 && n.right.h >= 1
    ensures Erase(n).Node? && Erase(n).right.Node?
    ensures Erase(RotateLeft(n)) == RotateLeft(Erase(n))
  {
    var root := n.right;
    EraseRecomputed(n.value, n.left, root.left);
    EraseRecomputed(root.value, Recomputed(n.value, n.left, root.left), root.right);
  }

  lemma EraseRotateRight<T>(n: Tree<T>)
    requires n.Node? && n.left.Node? && NonNegative(n) && n.h >= 1 && n.left.h >= 1
    ensures Erase(n).Node? && Erase(n).left.Node?
    ensures Erase(RotateRight(n)) == RotateRight(Erase(n))
  {
    var root := n.left;
    EraseRecomputed(n.value, root.right, n.right);
    EraseRecomputed(root.value, root.left, Recomputed(n.value, root.right, n.right));
  }

  /** The rebalancing reads only heights, which erasing keeps, so it commutes with erasing. */
  lemma EraseRebalance<T>(n: Tree<T>)
    requires n.Node? && NonNegative(n) && n.h >= 1
    ensures Erase(n).Node? && NonNegative(Erase(n))
    ensures Erase(RebalanceAfterRemove(n)) == RebalanceAfterRemove(Erase(n))
  {
    EraseNonNegative(n);
    NonNegativeHeight(n.left);
    NonNegativeHeight(n.right);
    if Balance(n) > 1 {
      EraseLeftHeavy(n);
    } else if Balance(n) < -1 {
      EraseRightHeavy(n);
    }
  }

  /** The left-leaning case of EraseRebalance. */
  lemma EraseLeftHeavy<T>(n: Tree<T>)
    requires n.Node? && NonNegative(n) && n.h >= 1 && Balance(n) > 1
    ensures Erase(n).Node? && NonNegative(Erase(n))
    ensures Erase(RebalanceAfterRemove(n)) == RebalanceAfterRemove(Erase(n))
  {
    EraseNonNegative(n);
    NonNegativeHeight(n.right);
    NonNegativeHeight(n.left.left);
    if Balance(n.left) >= 0 {
      EraseRotateRight(n);
    } else {
      NonNegativeHeight(n.left.right);
      RotateLeftNonNegative(n.left);
      EraseRotateLeft(n.left);
      EraseRotateRight(n.(left := RotateLeft(n.left)));
    }
  }

  /** The right-leaning case of EraseRebalance. */
  lemma EraseRightHeavy<T>(n: Tree<T>)
    requires n.Node? && NonNegative(n) && n.h >= 1 && Balance(n) < -1
    ensures Erase(n).Node? && NonNegative(Erase(n))
    ensures Erase(RebalanceAfterRemove(n)) == RebalanceAfterRemove(Erase(n))
  {
    EraseNonNegative(n);
    NonNegativeHeight(n.left);
    NonNegativeHeight(n.right.right);
    if Balance(n.right) <= 0 {
      EraseRotateLeft(n);
    } else {
      NonNegativeHeight(n.right.left);
      RotateRightNonNegative(n.right);
      EraseRotateRight(n.right);
      EraseRotateLeft(n.(right := RotateRight(n.right)));
    }
  }

  lemma {:induction false} EraseNonNegative<T>(t: Tree<T>)
    requires NonNegative(t)
    ensures NonNegative(Erase(t))
  {
    if t.Node? {
      EraseNonNegative(t.left);
      EraseNonNegative(t.right);
    }
  }

  /** One step back up the search path commutes with erasing. */
  lemma EraseStep<T>(v: T, left: Tree<T>, right: Tree<T>, left': Tree<T>, right': Tree<T>)
    requires NonNegative(left) && NonNegative(right) && Erase(left) == left' && Erase(right) == right'
    ensures NonNegative(Recomputed(v, left, right)) && NonNegative(Recomputed(v, left', right'))
    ensures Erase(RebalanceAfterRemove(Recomputed(v, left, right))) == RebalanceAfterRemove(Recomputed(v, left', right'))
  {
    NonNegativeHeight(left);
    NonNegativeHeight(right);
    EraseRebalance(Recomputed(v, left, right));
    EraseRecomputed(v, left, right);
  }

  /** At a node with one child, erasing the cleared node leaves the child the corrected removal keeps. */
  lemma EraseOneChild<T(!new)>(t: Tree<T>, v: T, cmp: (T, T) -> int, nil: T)
    requires IsComparator(cmp) && IsAvl(t, cmp) && t.Node? && cmp(v, t.value) == 0
    requires t.left.Nil? != t.right.Nil?
    ensures NonNegative(t)
    ensures Erase(RemoveAsWritten(t, v, cmp, nil).0) == Remove(t, v, cmp).0
    ensures RemoveAsWritten(t, v, cmp, nil).1 == Remove(t, v, cmp).1
  {
    CachedNonNegative(t);
    var child := if t.left.Nil? then t.right else t.left;
    HeightOfNode(child);
    HeightOfNode(child.left);
    HeightOfNode(child.right);
    var cleared := Node(nil, Nil, Nil, 0, 0);
    var n := if t.left.Nil? then Recomputed(child.value, Nil, cleared) else Recomputed(child.value, cleared, Nil);
    assert RemoveAsWritten(t, v, cmp, nil) == (RebalanceAfterRemove(n), true);
    EraseRebalance(n);
    assert Erase(n) == child;
  }

  /**
   * The removal as written is the corrected removal plus the cleared nodes: erasing them
   * from its result gives exactly the corrected result, and the two report the same.
   */
  lemma {:induction false} RemoveAsWrittenErased<T(!new)>(t: Tree<T>, v: T, cmp: (T, T) -> int, nil: T)
    requires IsComparator(cmp) && IsAvl(t, cmp)
    ensures NonNegative(t)
    ensures Erase(RemoveAsWritten(t, v, cmp, nil).0) == Remove(t, v, cmp).0
    ensures RemoveAsWritten(t, v, cmp, nil).1 == Remove(t, v, cmp).1
    decreases t
  {
    CachedNonNegative(t);
    if t.Node? {
      AvlChildren(t, cmp);
      CachedNonNegative(t.left);
      CachedNonNegative(t.right);
      EraseCached(t.left);
      EraseCached(t.right);
      if cmp(v, t.value) < 0 {
        RemoveAsWrittenErased(t.left, v, cmp, nil);
        EraseStep(t.value, RemoveAsWritten(t.left, v, cmp, nil).0, t.right, Remove(t.left, v, cmp).0, t.right);
      } else if cmp(v, t.value) > 0 {
        RemoveAsWrittenErased(t.right, v, cmp, nil);
        EraseStep(t.value, t.left, RemoveAsWritten(t.right, v, cmp, nil).0, t.left, Remove(t.right, v, cmp).0);
      } else if t.left.Nil? && t.right.Nil? {
      } else if t.left.Nil? || t.right.Nil? {
        EraseOneChild(t, v, cmp, nil);
      } else {
        var successor := Leftmost(t.right);
        RemoveAsWrittenErased(t.right, successor, cmp, nil);
        EraseStep(successor, t.left, RemoveAsWritten(t.right, successor, cmp, nil).0, t.left, Remove(t.right, successor, cmp).0);
      }
    }
  }

  /**
   * When it does reach a node with exactly one child, the removal as written reports
   * the value removed yet walks over as many values as before, one of them the cleared
   * `nil`, whereas the corrected removal leaves one value fewer.
   */
  lemma {:induction false} RemoveAsWrittenOneChild<T(!new)>(t: Tree<T>, v: T, cmp: (T, T) -> int, nil: T)
    requires IsComparator(cmp) && IsAvl(t, cmp) && ReachesOneChild(t, v, cmp)
    ensures NonNegative(t) && RemoveAsWritten(t, v, cmp, nil).1 && Member(Values(t), v, cmp)
    ensures |Values(RemoveAsWritten(t, v, cmp, nil).0)| == |Values(t)|
    ensures nil in Values(RemoveAsWritten(t, v, cmp, nil).0)
    ensures Length(RemoveAsWritten(t, v, cmp, nil).0) == |Values(t)| - 1
    ensures |Values(Remove(t, v, cmp).0)| == |Values(t)| - 1
    decreases t
  {
    CachedNonNegative(t);
    AvlChildren(t, cmp);
    var l, x, r := Values(t.left), t.value, Values(t.right);
    if cmp(v, x) < 0 {
      RemoveAsWrittenOneChild(t.left, v, cmp, nil);
      DeleteLeftOf(l, x, r, v, cmp);
    } else if cmp(v, x) > 0 {
      RemoveAsWrittenOneChild(t.right, v, cmp, nil);
      DeleteRightOf(l, x, r, v, cmp);
    } else if t.left.Nil? || t.right.Nil? {
      OneChildAsWritten(t, v, cmp, nil);
      DeleteAt(l, x, r, v, cmp);
    } else {
      RemoveAsWrittenOneChild(t.right, Leftmost(t.right), cmp, nil);
      DeleteAt(l, x, r, v, cmp);
    }
    DeleteElements(Values(t), v, cmp);
    RemoveAsWrittenErased(t, v, cmp, nil);
    LengthIsCount(Remove(t, v, cmp).0);
  }

  /** The one-child case itself: the single child of an AVL node is a leaf, and the two values become its value and `nil`. */
  lemma OneChildAsWritten<T(!new)>(t: Tree<T>, v: T, cmp: (T, T) -> int, nil: T)
    requires IsComparator(cmp) && IsAvl(t, cmp) && t.Node? && cmp(v, t.value) == 0
    requires t.left.Nil? != t.right.Nil?
    ensures NonNegative(t) && RemoveAsWritten(t, v, cmp, nil).1
    ensures |Values(RemoveAsWritten(t, v, cmp, nil).0)| == |Values(t)| == 2
    ensures nil in Values(RemoveAsWritten(t, v, cmp, nil).0)
  {
    CachedNonNegative(t);
    var child := if t.left.Nil? then t.right else t.left;
    HeightOfNode(child);
    HeightOfNode(child.left);
    HeightOfNode(child.right);
    assert child.left.Nil? && child.right.Nil?;
    assert |Values(child)| == 1;
    var cleared := Node(nil, Nil, Nil, 0, 0);
    var n := if t.left.Nil? then Recomputed(child.value, Nil, cleared) else Recomputed(child.value, cleared, Nil);
    assert RemoveAsWritten(t, v, cmp, nil) == (RebalanceAfterRemove(n), true);
    assert |Values(n)| == 2 && nil in Values(n);
  }
}
