/**
 * The nodes of the AVL tree behind the sorted set: each node keeps its value, its two
 * exclusively owned subtrees and two cached fields, the height `h` and the subtree
 * size `len`. Nodes are never shared, so a subtree is a value here and the Go code's
 * in-place field updates are functional updates that return the new subtree root.
 */
module SortedSetNode {
  import opened Ordering

  datatype Tree<T> = Nil | Node(value: T, left: Tree<T>, right: Tree<T>, h: int, len: int)

  /** The cached height, 0 for an absent subtree. */
  function Height<T>(t: Tree<T>): int {
    if t.Nil? then 0 else t.h
  }

  /** The cached size, 0 for an absent subtree. */
  function Length<T>(t: Tree<T>): int {
    if t.Nil? then 0 else t.len
  }

  /** The balance factor, 0 for an absent subtree. */
  function Balance<T>(t: Tree<T>): int {
    if t.Nil? then 0 else Height(t.left) - Height(t.right)
  }

  function MaxInt(a: int, b: int): (m: int)
    ensures m >= a && m >= b && (m == a || m == b)
  {
    if a > b then a else b
  }

  /**
   * A node holding `v` over `left` and `right` whose cached height and size have been
   * recomputed from its children's cached fields, as every mutation does once the
   * children are final.
   */
  function Recomputed<T>(v: T, left: Tree<T>, right: Tree<T>): (n: Tree<T>)
    ensures Cached(left) && Cached(right) ==> Cached(n)
  {
    Node(v, left, right, 1 + MaxInt(Height(left), Height(right)), 1 + Length(left) + Length(right))
  }

  // ---------------------------------------------------------------------------
  // What a well-formed tree is

  /** The values in in-order: what Slice, Do and String walk through. */
  function Values<T>(t: Tree<T>): seq<T> {
    if t.Nil? then [] else Values(t.left) + [t.value] + Values(t.right)
  }

  /** At every node the cached height and size agree with the children's. */
  ghost predicate Cached<T>(t: Tree<T>) {
    t.Node? ==>
      && Cached(t.left) && Cached(t.right)
      && t.h == 1 + MaxInt(Height(t.left), Height(t.right))
      && t.len == 1 + Length(t.left) + Length(t.right)
  }

  /** At every node the two subtree heights differ by at most one. */
  ghost predicate Balanced<T>(t: Tree<T>) {
    t.Node? ==>
      && Balanced(t.left) && Balanced(t.right)
      && -1 <= Height(t.left) - Height(t.right) <= 1
  }

  /** The invariant the set keeps: cached fields right, AVL-balanced, strictly ascending. */
  ghost predicate IsAvl<T>(t: Tree<T>, cmp: (T, T) -> int) {
    Cached(t) && Balanced(t) && Sorted(Values(t), cmp)
  }

  /** The search-tree property, node by node. */
  ghost predicate SearchTree<T>(t: Tree<T>, cmp: (T, T) -> int) {
    t.Node? ==>
      && SearchTree(t.left, cmp) && SearchTree(t.right, cmp)
      && (forall x :: x in Values(t.left) ==> cmp(x, t.value) < 0)
      && (forall x :: x in Values(t.right) ==> cmp(t.value, x) < 0)
  }

  /** Every cached height is non-negative: all the rebalancing code needs to find the children it rotates. */
  ghost predicate NonNegative<T>(t: Tree<T>) {
    t.Node? ==> t.h >= 0 && NonNegative(t.left) && NonNegative(t.right)
  }

  /** The first value in order, reached by following left children (sortedset.go min). */
  function Leftmost<T>(t: Tree<T>): (m: T)
    requires t.Node?
    ensures m == Values(t)[0]
  {
    if t.left.Nil? then t.value else Leftmost(t.left)
  }

  /** The last value in order, reached by following right children. */
  function Rightmost<T>(t: Tree<T>): (m: T)
    requires t.Node?
    ensures m == Values(t)[|Values(t)| - 1]
  {
    if t.right.Nil? then t.value else Rightmost(t.right)
  }

  /** With consistent cached fields the cached size is the number of values. */
  lemma {:induction false} LengthIsCount<T>(t: Tree<T>)
    requires Cached(t)
    ensures Length(t) == |Values(t)|
  {
    if t.Node? {
      LengthIsCount(t.left);
      LengthIsCount(t.right);
    }
  }

  /** With consistent cached fields a node's height is at least 1. */
  lemma HeightOfNode<T>(t: Tree<T>)
    requires Cached(t)
    ensures t.Node? <==> Height(t) >= 1
    ensures Height(t) >= 0
  {
  }

  lemma CachedNonNegative<T>(t: Tree<T>)
    requires Cached(t)
    ensures NonNegative(t)
  {
  }

  lemma NonNegativeHeight<T>(t: Tree<T>)
    requires NonNegative(t)
    ensures Height(t) >= 0
  {
  }

  lemma SortedSplit<T>(l: seq<T>, x: T, r: seq<T>, cmp: (T, T) -> int)
    requires Sorted(l + [x] + r, cmp)
    ensures Sorted(l, cmp) && Sorted(r, cmp)
    ensures forall y :: y in l ==> cmp(y, x) < 0
    ensures forall y :: y in r ==> cmp(x, y) < 0
  {
    var s := l + [x] + r;
    assert forall i :: 0 <= i < |l| ==> s[i] == l[i];
    assert forall i :: 0 <= i < |r| ==> s[|l| + 1 + i] == r[i];
    assert s[|l|] == x;
  }

  /** Both subtrees of a valid tree are valid trees. */
  lemma AvlChildren<T>(t: Tree<T>, cmp: (T, T) -> int)
    requires t.Node? && IsAvl(t, cmp)
    ensures IsAvl(t.left, cmp) && IsAvl(t.right, cmp)
  {
    SortedSplit(Values(t.left), t.value, Values(t.right), cmp);
  }

  lemma SortedJoin<T(!new)>(l: seq<T>, x: T, r: seq<T>, cmp: (T, T) -> int)
    requires IsComparator(cmp)
    requires Sorted(l, cmp) && Sorted(r, cmp)
    requires forall y :: y in l ==> cmp(y, x) < 0
    requires forall y :: y in r ==> cmp(x, y) < 0
    ensures Sorted(l + [x] + r, cmp)
  {
    var s := l + [x] + r;
    forall i, j | 0 <= i < j < |s| ensures cmp(s[i], s[j]) < 0 {
      if i < |l| && j > |l| {
        assert s[i] in l && s[j] in r;
        LessLe(cmp, s[i], x, s[j]);
      } else if i < |l| && j < |l| {
        assert s[i] == l[i] && s[j] == l[j];
      } else if i > |l| {
        assert s[i] == r[i - |l| - 1] && s[j] == r[j - |l| - 1];
      }
    }
  }

  /**
   * A strictly ascending in-order sequence is the same thing as the search-tree
   * property holding at every node.
   */
  lemma {:induction false} SortedIffSearchTree<T(!new)>(t: Tree<T>, cmp: (T, T) -> int)
    requires IsComparator(cmp)
    ensures Sorted(Values(t), cmp) <==> SearchTree(t, cmp)
  {
    if t.Node? {
      SortedIffSearchTree(t.left, cmp);
      SortedIffSearchTree(t.right, cmp);
      if Sorted(Values(t), cmp) {
        SortedSplit(Values(t.left), t.value, Values(t.right), cmp);
      }
      if SearchTree(t, cmp) {
        SortedJoin(Values(t.left), t.value, Values(t.right), cmp);
      }
    }
  }

  // ---------------------------------------------------------------------------
  // Rotations (sortedset.go leftRotate, rightRotate)

  /**
   * Promote the right child: its former left subtree becomes the demoted node's right
   * subtree; the demoted node's cached fields are recomputed first, then the new root's.
   */
  function RotateLeft<T>(n: Tree<T>): (r: Tree<T>)
    requires n.Node? && n.right.Node?
    ensures r.Node? && r.value == n.right.value && r.right == n.right.right
    ensures r.left.Node? && r.left.value == n.value
    ensures r.left.left == n.left && r.left.right == n.right.left
    ensures Values(r) == Values(n)
  {
    var root := n.right;
    var demoted := Recomputed(n.value, n.left, root.left);
    Recomputed(root.value, demoted, root.right)
  }

  /** The mirror image of RotateLeft: promote the left child. */
  function RotateRight<T>(n: Tree<T>): (r: Tree<T>)
    requires n.Node? && n.left.Node?
    ensures r.Node? && r.value == n.left.value && r.left == n.left.left
    ensures r.right.Node? && r.right.value == n.value
    ensures r.right.left == n.left.right && r.right.right == n.right
    ensures Values(r) == Values(n)
  {
    var root := n.left;
    var demoted := Recomputed(n.value, root.right, n.right);
    Recomputed(root.value, root.left, demoted)
  }

  /** Rotations keep the cached fields right everywhere, given the three moved subtrees' are. */
  lemma RotateLeftCached<T>(n: Tree<T>)
    requires n.Node? && n.right.Node?
    requires Cached(n.left) && Cached(n.right.left) && Cached(n.right.right)
    ensures Cached(RotateLeft(n))
  {
  }

  lemma RotateRightCached<T>(n: Tree<T>)
    requires n.Node? && n.left.Node?
    requires Cached(n.left.left) && Cached(n.left.right) && Cached(n.right)
    ensures Cached(RotateRight(n))
  {
  }

  lemma RotateLeftNonNegative<T>(n: Tree<T>)
    requires n.Node? && n.right.Node? && NonNegative(n)
    ensures NonNegative(RotateLeft(n))
  {
  }

  lemma RotateRightNonNegative<T>(n: Tree<T>)
    requires n.Node? && n.left.Node? && NonNegative(n)
    ensures NonNegative(RotateRight(n))
  {
  }

  // ---------------------------------------------------------------------------
  // How rotations repair a node that leans by two

  /** A single right rotation of a node leaning left by two whose left child does not lean right. */
  lemma RotateRightRepairs<T>(n: Tree<T>)
    requires n.Node? && n.left.Node? && Cached(n) && Balanced(n.left) && Balanced(n.right)
    requires Balance(n) == 2 && 0 <= Balance(n.left) <= 1
    ensures Cached(RotateRight(n)) && Balanced(RotateRight(n))
    ensures Height(RotateRight(n)) == Height(n) - (if Balance(n.left) == 1 then 1 else 0)
  {
    HeightOfNode(n.left.left);
    HeightOfNode(n.left.right);
    HeightOfNode(n.right);
    RotateRightCached(n);
  }

  /** The mirror image of RotateRightRepairs. */
  lemma RotateLeftRepairs<T>(n: Tree<T>)
    requires n.Node? && n.right.Node? && Cached(n) && Balanced(n.left) && Balanced(n.right)
    requires Balance(n) == -2 && -1 <= Balance(n.right) <= 0
    ensures Cached(RotateLeft(n)) && Balanced(RotateLeft(n))
    ensures Height(RotateLeft(n)) == Height(n) - (if Balance(n.right) == -1 then 1 else 0)
  {
    HeightOfNode(n.right.left);
    HeightOfNode(n.right.right);
    HeightOfNode(n.left);
    RotateLeftCached(n);
  }

  /** A left-right double rotation of a node leaning left by two whose left child leans right. */
  lemma LeftRightRepairs<T>(n: Tree<T>)
    requires n.Node? && n.left.Node? && Cached(n) && Balanced(n.left) && Balanced(n.right)
    requires Balance(n) == 2 && Balance(n.left) == -1
    ensures n.left.right.Node?
    ensures Cached(RotateRight(n.(left := RotateLeft(n.left))))
    ensures Balanced(RotateRight(n.(left := RotateLeft(n.left))))
    ensures Height(RotateRight(n.(left := RotateLeft(n.left)))) == Height(n) - 1
  {
    var a := n.left;
    HeightOfNode(a.left);
    HeightOfNode(a.right);
    HeightOfNode(n.right);
    var b := a.right;
    HeightOfNode(b.left);
    HeightOfNode(b.right);
    RotateLeftCached(a);
    RotateRightCached(n.(left := RotateLeft(a)));
  }

  /** The mirror image of LeftRightRepairs. */
  lemma RightLeftRepairs<T>(n: Tree<T>)
    requires n.Node? && n.right.Node? && Cached(n) && Balanced(n.left) && Balanced(n.right)
    requires Balance(n) == -2 && Balance(n.right) == 1
    ensures n.right.left.Node?
    ensures Cached(RotateLeft(n.(right := RotateRight(n.right))))
    ensures Balanced(RotateLeft(n.(right := RotateRight(n.right))))
    ensures Height(RotateLeft(n.(right := RotateRight(n.right)))) == Height(n) - 1
  {
    var a := n.right;
    HeightOfNode(a.left);
    HeightOfNode(a.right);
    HeightOfNode(n.left);
    var b := a.left;
    HeightOfNode(b.left);
    HeightOfNode(b.right);
    RotateRightCached(a);
    RotateLeftCached(n.(right := RotateRight(a)));
  }
}
