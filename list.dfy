/**
 * The doubly-linked list of list.go, whose code linkedlist.go repeats line for line
 * under the name LinkedList. Elements are objects linked by `next` and `prev`, each
 * pointing back at its list through `parent`; the list keeps `front`, `back` and `len`.
 *
 * The model adds two ghost fields: `elems`, the elements from front to back, and `vals`,
 * their values. `Valid` ties the pointers, the parents and `len` to them, and every
 * operation states its effect on `elems` and `vals` through the functions of ListSpec.
 */
module LinkedList {
  import opened Optional
  import opened Ordering
  import opened Traversal
  import opened ListSpec
  import opened ListSort

  /** An element: its value, its neighbours and the list it belongs to. */
  class Element<T(==, !new)> {
    var value: T
    var next: Element?<T>
    var prev: Element?<T>
    var parent: List?<T>

    constructor (value: T, next: Element?<T>, prev: Element?<T>, parent: List?<T>)
      ensures this.value == value && this.next == next && this.prev == prev && this.parent == parent
    {
      this.value, this.next, this.prev, this.parent := value, next, prev, parent;
    }
  }

  class List<T(==, !new)> {
    var front: Element?<T>
    var back: Element?<T>
    var len: int
    ghost var elems: seq<Element<T>>
    ghost var vals: seq<T>

    /** Every element of `es` names this list as its parent and holds the value at its index in `vs`. */
    ghost predicate Owned(es: seq<Element<T>>, vs: seq<T>)
      reads es`parent, es`value
    {
      && |vs| == |es|
      && forall i :: 0 <= i < |es| ==> es[i].parent == this && es[i].value == vs[i]
    }

    /** Each element of `es` is linked to its neighbours, with `first` and `last` at the two ends. */
    ghost predicate Links(es: seq<Element<T>>, first: Element?<T>, last: Element?<T>)
      reads es`next, es`prev
    {
      && (forall i :: 0 < i < |es| ==> es[i - 1].next == es[i] && es[i].prev == es[i - 1])
      && (es == [] ==> first == null && last == null)
      && (es != [] ==> first == es[0] && es[0].prev == null && last == es[|es| - 1] && es[|es| - 1].next == null)
    }

    /** The chain `es` holding `vs`: distinct elements, owned by this list and linked in order. */
    ghost predicate Chain(es: seq<Element<T>>, vs: seq<T>, first: Element?<T>, last: Element?<T>)
      reads es
    {
      Distinct(es) && Owned(es, vs) && Links(es, first, last)
    }

    /** The pointers of this list form the chain of its ghost elements. */
    ghost predicate Linked()
      reads this`front, this`back, this`elems, this`vals, elems
    {
      Chain(elems, vals, front, back)
    }

    /** The list invariant: a well-formed chain whose length is `len`. */
    ghost predicate Valid()
      reads this, elems
    {
      Linked() && len == |elems|
    }

    /**
     * An element that names this list as its parent is one of its elements. Every
     * element satisfies this except those that RemoveAll detached without clearing.
     */
    ghost predicate Tracked(e: Element?<T>)
      reads this, e
    {
      e != null && e.parent == this ==> e in elems
    }

    /** The element after the one at index `k`, as the links give it. */
    lemma NextOf(k: nat, k': nat)
      requires Linked() && k < |elems| && k' == k + 1
      ensures elems[k].next == if k' < |elems| then elems[k'] else null
    {
    }

    /** The element before the one at index `k`, as the links give it. */
    lemma PrevOf(k: nat, k': int)
      requires Linked() && k < |elems| && k' == k - 1
      ensures elems[k].prev == if k' >= 0 then elems[k'] else null
    {
    }

    /** Inserting an element owned by this list and holding `v` keeps the chain owned. */
    lemma OwnedInsert(es: seq<Element<T>>, vs: seq<T>, p: nat, x: Element<T>, v: T)
      requires p <= |es| && Owned(es, vs) && x.parent == this && x.value == v
      ensures Owned(InsertAt(es, p, x), InsertAt(vs, p, v))
    {
      var es', vs' := InsertAt(es, p, x), InsertAt(vs, p, v);
      forall i | 0 <= i < |es'| ensures es'[i].parent == this && es'[i].value == vs'[i] {
        if i < p {
          assert es'[i] == es[i] && vs'[i] == vs[i];
        } else if i > p {
          assert es'[i] == es[i - 1] && vs'[i] == vs[i - 1];
        }
      }
    }

    /** Taking an element out keeps the chain owned. */
    lemma OwnedWithout(es: seq<Element<T>>, vs: seq<T>, k: nat)
      requires k < |es| && Owned(es, vs)
      ensures Owned(Without(es, k), Without(vs, k))
    {
      var es', vs' := Without(es, k), Without(vs, k);
      forall i | 0 <= i < |es'| ensures es'[i].parent == this && es'[i].value == vs'[i] {
        assert es'[i] == es[if i < k then i else i + 1] && vs'[i] == vs[if i < k then i else i + 1];
      }
    }

    /**
     * Splicing `x` into the linked chain `es` of the previous state at index `p`: once
     * `x` and its two neighbours point at each other, the ends are updated and every other
     * element kept its links, the chain with `x` inserted is linked.
     */
    twostate lemma LinksIn(new es: seq<Element<T>>, p: nat, new x: Element<T>)
      requires old(allocated(es)) && old(Links(es, front, back))
      requires p <= |es| && Distinct(es) && x !in es
      requires forall o :: o in es && (p == 0 || o != es[p - 1]) && (p == |es| || o != es[p]) ==>
        o.next == old(o.next) && o.prev == old(o.prev)
      requires 0 < p ==> es[p - 1].next == x && es[p - 1].prev == old(es[p - 1].prev)
      requires p < |es| ==> es[p].prev == x && es[p].next == old(es[p].next)
      requires x.prev == (if p == 0 then null else es[p - 1]) && x.next == (if p == |es| then null else es[p])
      requires front == (if p == 0 then x else old(front)) && back == (if p == |es| then x else old(back))
      ensures Links(InsertAt(es, p, x), front, back)
    {
      var es' := InsertAt(es, p, x);
      forall i | 0 <= i < |es'| ensures es'[i] == if i < p then es[i] else if i == p then x else es[i - 1] {
      }
      forall i | 0 < i < |es'| ensures es'[i - 1].next == es'[i] && es'[i].prev == es'[i - 1] {
        if i < p {
          assert es[i - 1] in es && es[i] in es && es[i - 1] != es[p - 1];
          assert p < |es| ==> es[i - 1] != es[p] && es[i] != es[p];
        } else if i > p + 1 {
          assert es[i - 2] in es && es[i - 1] in es && es[i - 1] != es[p];
          assert 0 < p ==> es[i - 2] != es[p - 1] && es[i - 1] != es[p - 1];
        }
      }
      if p == 0 && es != [] {
        assert es[|es| - 1] in es && (|es| > 1 ==> es[|es| - 1] != es[0]);
      }
      if 0 < p && p < |es| {
        assert es[0] in es && es[0] != es[p] && es[|es| - 1] in es && es[|es| - 1] != es[p - 1];
      }
      if p == |es| && es != [] {
        assert es[0] in es && (|es| > 1 ==> es[0] != es[|es| - 1]);
      }
    }

    /**
     * Taking the element at index `k` out of the linked chain `es` of the previous state:
     * once its two neighbours point at each other, the ends are updated and every other
     * element kept its links, the chain without it is linked.
     */
    twostate lemma LinksOut(new es: seq<Element<T>>, k: nat)
      requires old(allocated(es)) && old(Links(es, front, back))
      requires k < |es| && Distinct(es)
      requires forall o :: o in es && o != es[k] && (k == 0 || o != es[k - 1]) && (k == |es| - 1 || o != es[k + 1]) ==>
        o.next == old(o.next) && o.prev == old(o.prev)
      requires 0 < k ==> es[k - 1].next == (if k == |es| - 1 then null else es[k + 1]) && es[k - 1].prev == old(es[k - 1].prev)
      requires k < |es| - 1 ==> es[k + 1].prev == (if k == 0 then null else es[k - 1]) && es[k + 1].next == old(es[k + 1].next)
      requires front == (if k > 0 then old(front) else if k < |es| - 1 then es[k + 1] else null)
      requires back == (if k < |es| - 1 then old(back) else if k > 0 then es[k - 1] else null)
      ensures Links(Without(es, k), front, back)
    {
      var es' := Without(es, k);
      forall i | 0 <= i < |es'| ensures es'[i] == es[if i < k then i else i + 1] {
      }
      forall i | 0 < i < |es'| ensures es'[i - 1].next == es'[i] && es'[i].prev == es'[i - 1] {
        if i < k {
          assert es[i - 1] in es && es[i] in es && es[i - 1] != es[k] && es[i] != es[k];
          assert es[i - 1] != es[k - 1] && (k < |es| - 1 ==> es[i - 1] != es[k + 1] && es[i] != es[k + 1]);
          assert i < k - 1 ==> es[i] != es[k - 1];
        } else if i > k {
          assert es[i] in es && es[i + 1] in es && es[i] != es[k] && es[i + 1] != es[k];
          assert es[i + 1] != es[k + 1] && (0 < k ==> es[i] != es[k - 1] && es[i + 1] != es[k - 1]);
          assert i > k + 1 ==> es[i] != es[k + 1];
        }
      }
      if es' != [] {
        assert es[0] in es && es[|es| - 1] in es;
        assert 1 < k ==> es[0] != es[k - 1];
        assert k < |es| - 2 ==> es[|es| - 1] != es[k + 1];
      }
    }

    /** New: an empty list. */
    constructor ()
      ensures Valid() && elems == [] && vals == []
    {
      front, back, len := null, null, 0;
      elems, vals := [], [];
    }

    /** IsEmpty: no elements. */
    function IsEmpty(): (b: bool)
      reads this, elems
      requires Valid()
      ensures b <==> elems == []
    {
      len == 0
    }

    /** Len: the number of elements. */
    function Len(): (n: int)
      reads this, elems
      requires Valid()
      ensures n == |vals|
    {
      len
    }

    /** Contains: `e` names this list as its parent; for tracked elements, membership. */
    function Contains(e: Element?<T>): (b: bool)
      reads this, elems, e
      ensures Valid() && Tracked(e) ==> (b <==> e in elems)
    {
      e != null && e.parent == this
    }

    /** Front: the first element, or null when empty. */
    function Front(): (e: Element?<T>)
      reads this, elems
      requires Valid()
      ensures e == null <==> vals == []
      ensures e != null ==> e == elems[0] && e.value == vals[0]
    {
      if IsEmpty() then null else front
    }

    /** Back: the last element, or null when empty. */
    function Back(): (e: Element?<T>)
      reads this, elems
      requires Valid()
      ensures e == null <==> vals == []
      ensures e != null ==> e == elems[|elems| - 1] && e.value == vals[|vals| - 1]
    {
      if IsEmpty() then null else back
    }

    /**
     * Get: the element at `index`, walked to from the front when it lies in the first
     * half and from the back otherwise; null when `index` is out of range.
     */
    method Get(index: int) returns (e: Element?<T>)
      requires Valid()
      ensures 0 <= index < |elems| ==> e == elems[index]
      ensures index < 0 || index >= |elems| ==> e == null
    {
      if index < 0 || index > len - 1 {
        return null;
      }
      if index < len / 2 {
        e := front;
        var i := 0;
        while i < index
          invariant 0 <= i <= index && e == elems[i]
        {
          e := e.next;
          i := i + 1;
        }
      } else {
        e := back;
        var i := len - 1;
        while i > index
          invariant index <= i < |elems| && e == elems[i]
        {
          e := e.prev;
          i := i - 1;
        }
      }
    }

    /** Search: the index of the first element holding `v` and that element; -1 and null when none does. */
    method Search(v: T) returns (index: int, e: Element?<T>)
      requires Valid()
      ensures index == IndexOf(vals, v)
      ensures e == if index == -1 then null else elems[index]
    {
      e := front;
      var i := 0;
      while e != null
        invariant 0 <= i <= |elems| && e == (if i < |elems| then elems[i] else null)
        invariant v !in vals[..i]
        decreases |elems| - i
      {
        if e.value == v {
          assert vals[..i + 1] == vals[..i] + [v];
          return i, e;
        }
        assert vals[..i + 1] == vals[..i] + [vals[i]];
        e := e.next;
        i := i + 1;
      }
      assert vals[..i] == vals;
      return -1, null;
    }

    /**
     * SearchByComparator: as Search, with `equals(value, v)` deciding a match.
     */
    method SearchByComparator(v: T, equals: (T, T) -> bool) returns (index: int, e: Element?<T>)
      requires Valid()
      ensures index == FirstIndex(vals, x => equals(x, v))
      ensures e == if index == -1 then null else elems[index]
    {
      e := front;
      var i := 0;
      while e != null
        invariant 0 <= i <= |elems| && e == (if i < |elems| then elems[i] else null)
        invariant forall k :: 0 <= k < i ==> !equals(vals[k], v)
        decreases |elems| - i
      {
        if equals(e.value, v) {
          return i, e;
        }
        e := e.next;
        i := i + 1;
      }
      return -1, null;
    }

    /** Slice: the values from front to back. */
    method Slice() returns (s: seq<T>)
      requires Valid()
      ensures s == vals
    {
      s := [];
      var e := front;
      ghost var i := 0;
      while e != null
        invariant 0 <= i <= |elems| && e == (if i < |elems| then elems[i] else null)
        invariant s == vals[..i]
        decreases |elems| - i
      {
        assert vals[..i + 1] == vals[..i] + [e.value];
        s := s + [e.value];
        e := e.next;
        i := i + 1;
      }
      assert vals[..i] == vals;
    }

    /**
     * Do: every value, from front to back, is handed to each of the `procs` procedures in
     * turn; the calls made are the result. The list is left as it was.
     */
    method Do(procs: nat) returns (calls: seq<(nat, T)>)
      requires Valid()
      ensures calls == Calls(vals, procs)
    {
      calls := [];
      var e := front;
      ghost var i := 0;
      while e != null
        invariant 0 <= i <= |elems| && e == (if i < |elems| then elems[i] else null)
        invariant calls == Calls(vals[..i], procs)
        decreases |elems| - i
      {
        calls := Visit(calls, e.value, procs);
        assert vals[..i + 1] == vals[..i] + [e.value];
        CallsSnoc(vals[..i], e.value, procs);
        e := e.next;
        i := i + 1;
      }
      assert vals[..i] == vals;
    }

    /**
     * String: "[]" for the empty list, otherwise the values' texts between brackets,
     * separated by single spaces.
     */
    method String(show: T -> string) returns (s: string)
      requires Valid()
      ensures s == if vals == [] then "[]" else "[" + Joined(vals, show) + "]"
    {
      if IsEmpty() {
        return "[]";
      }
      s := "[";
      var e := front;
      ghost var i := 0;
      while e.next != null
        invariant 0 <= i < |elems| && e == elems[i]
        invariant e.next == if i + 1 < |elems| then elems[i + 1] else null
        invariant s == "[" + Spaced(vals[..i], show)
        decreases |elems| - i
      {
        assert vals[..i + 1] == vals[..i] + [e.value];
        SpacedSnoc(vals[..i], e.value, show);
        s := s + show(e.value) + " ";
        e := e.next;
        i := i + 1;
      }
      assert i == |vals| - 1 && e.value == vals[i];
      SpacedThenLast(vals, show);
      s := s + show(e.value) + "]";
    }

    /** Equals: the two lists hold equal values in the same order. */
    method Equals(other: List<T>) returns (b: bool)
      requires Valid() && other.Valid()
      ensures b <==> vals == other.vals
    {
      if len != other.len {
        return false;
      }
      var e, f := front, other.front;
      ghost var i := 0;
      while e != null
        invariant 0 <= i <= |elems| == |other.elems|
        invariant e == (if i < |elems| then elems[i] else null)
        invariant f == (if i < |other.elems| then other.elems[i] else null)
        invariant vals[..i] == other.vals[..i]
        decreases |elems| - i
      {
        if e.value != f.value {
          return false;
        }
        assert vals[..i + 1] == other.vals[..i + 1] by {
          assert vals[..i + 1] == vals[..i] + [e.value] && other.vals[..i + 1] == other.vals[..i] + [f.value];
        }
        e, f := e.next, f.next;
        i := i + 1;
      }
      assert vals[..i] == vals && other.vals[..i] == other.vals;
      return true;
    }

    /** EqualsByComparator: as Equals, with `equals` deciding whether two values match. */
    method EqualsByComparator(other: List<T>, equals: (T, T) -> bool) returns (b: bool)
      requires Valid() && other.Valid()
      ensures b <==> Pairwise(vals, other.vals, equals)
    {
      if len != other.len {
        return false;
      }
      var e, f := front, other.front;
      ghost var i := 0;
      while e != null
        invariant 0 <= i <= |elems| == |other.elems|
        invariant e == (if i < |elems| then elems[i] else null)
        invariant f == (if i < |other.elems| then other.elems[i] else null)
        invariant forall k :: 0 <= k < i ==> equals(vals[k], other.vals[k])
        decreases |elems| - i
      {
        if !equals(e.value, f.value) {
          return false;
        }
        e, f := e.next, f.next;
        i := i + 1;
      }
      return true;
    }

    /** PushBack: a new element holding `v` becomes the back. */
    method PushBack(v: T)
      requires Valid()
      modifies this, back
      ensures Valid()
      ensures vals == old(vals) + [v]
      ensures |elems| == |old(elems)| + 1 && elems[..|old(elems)|] == old(elems)
      ensures fresh(elems[|old(elems)|])
    {
      ghost var es := elems;
      var e := new Element(v, null, back, this);
      if IsEmpty() {
        front := e;
      } else {
        back.next := e;
      }
      back := e;
      len := len + 1;
      elems, vals := InsertAt(es, |es|, e), InsertAt(vals, |es|, v);
      DistinctInsertAt(es, |es|, e);
      OwnedInsert(es, old(vals), |es|, e, v);
      LinksIn(es, |es|, e);
    }

    /** Two different lists share no element: each element names only one of them as parent. */
    lemma Disjoint(other: List<T>)
      requires Valid() && other.Valid() && other != this
      ensures forall x :: x in other.elems ==> x !in elems
    {
      forall x | x in other.elems ensures x !in elems {
        var k :| 0 <= k < |other.elems| && other.elems[k] == x;
        assert x.parent == other;
      }
    }

    /**
     * PushBackList: the values of `other`, from its front to its back, are pushed at the
     * back of this list; a null `other` changes nothing.
     */
    method PushBackList(other: List?<T>)
      requires Valid() && (other == this ==> len == 0) && (other != null ==> other.Valid())
      modifies this, elems
      ensures Valid()
      ensures vals == old(vals) + if other == null then [] else old(other.vals)
    {
      if other == null {
        return;
      }
      ghost var os := other.vals;
      var e := other.front;
      ghost var i := 0;
      while e != null
        invariant Valid() && other.Valid() && other.vals == os && other.elems == old(other.elems)
        invariant 0 <= i <= |other.elems| && e == (if i < |other.elems| then other.elems[i] else null)
        invariant vals == old(vals) + os[..i]
        invariant back == null || back in old(elems) || fresh(back)
        decreases |other.elems| - i
      {
        e := PushBackOf(other, e, os, i, old(vals));
        i := i + 1;
      }
      assert os[..i] == os;
    }

    /** PushFront: a new element holding `v` becomes the front. */
    method PushFront(v: T)
      requires Valid()
      modifies this, front
      ensures Valid()
      ensures vals == [v] + old(vals)
      ensures |elems| == |old(elems)| + 1 && elems[1..] == old(elems)
      ensures fresh(elems[0])
    {
      ghost var es := elems;
      var e := new Element(v, front, null, this);
      if IsEmpty() {
        back := e;
      } else {
        front.prev := e;
      }
      front := e;
      len := len + 1;
      elems, vals := InsertAt(es, 0, e), InsertAt(vals, 0, v);
      DistinctInsertAt(es, 0, e);
      OwnedInsert(es, old(vals), 0, e, v);
      LinksIn(es, 0, e);
    }

    /**
     * PushFrontList: the values of `other`, from its back to its front, are pushed at the
     * front of this list, so they end up ahead of it in their own order; a null `other`
     * changes nothing.
     */
    method PushFrontList(other: List?<T>)
      requires Valid() && (other == this ==> len == 0) && (other != null ==> other.Valid())
      modifies this, elems
      ensures Valid()
      ensures vals == (if other == null then [] else old(other.vals)) + old(vals)
    {
      if other == null {
        return;
      }
      ghost var os := other.vals;
      var e := other.back;
      ghost var j := |os|;
      while e != null
        invariant Valid() && other.Valid() && other.vals == os && other.elems == old(other.elems)
        invariant 0 <= j <= |other.elems| && e == (if j > 0 then other.elems[j - 1] else null)
        invariant vals == os[j..] + old(vals)
        invariant front == null || front in old(elems) || fresh(front)
        decreases j
      {
        e := PushFrontOf(other, e, os, j, old(vals));
        j := j - 1;
      }
      assert os[0..] == os;
    }

    /**
     * One step of PushFrontList: the value of `e`, the element at index `j - 1` of
     * `other`, is pushed at the front; the element before `e` is handed back.
     */
    method PushFrontOf(other: List<T>, e: Element<T>, ghost os: seq<T>, ghost j: nat, ghost base: seq<T>)
      returns (prev: Element?<T>)
      requires Valid() && other.Valid() && other != this && other.vals == os
      requires 0 < j <= |other.elems| && e == other.elems[j - 1]
      requires vals == os[j..] + base
      modifies this, front
      ensures Valid() && other.Valid() && other.vals == os && other.elems == old(other.elems)
      ensures vals == os[j - 1..] + base
      ensures prev == if j > 1 then other.elems[j - 2] else null
      ensures fresh(front)
    {
      var v := e.value;
      PrependFrom(os, j, base);
      Disjoint(other);
      PushFront(v);
      prev := e.prev;
    }

    /** Clone: a new list of new elements holding the same values in the same order. */
    method Clone() returns (c: List<T>)
      requires Valid()
      ensures fresh(c) && c.Valid() && c.vals == vals
      ensures forall k :: 0 <= k < |c.elems| ==> fresh(c.elems[k])
    {
      c := new List();
      var e := front;
      ghost var i := 0;
      while e != null
        invariant 0 <= i <= |elems| && e == (if i < |elems| then elems[i] else null)
        invariant fresh(c) && c.Valid() && c.vals == vals[..i]
        invariant forall k :: 0 <= k < |c.elems| ==> fresh(c.elems[k])
        decreases |elems| - i
      {
        assert vals[..i + 1] == vals[..i] + [e.value];
        c.PushBack(e.value);
        e := e.next;
        i := i + 1;
      }
      assert vals[..i] == vals;
    }

    /**
     * One step of PushBackList: the value of `e`, the element at index `i` of `other`, is
     * pushed at the back; the element after `e` is handed back.
     */
    method PushBackOf(other: List<T>, e: Element<T>, ghost os: seq<T>, ghost i: nat, ghost base: seq<T>)
      returns (next: Element?<T>)
      requires Valid() && other.Valid() && other != this && other.vals == os
      requires i < |other.elems| && e == other.elems[i]
      requires vals == base + os[..i]
      modifies this, back
      ensures Valid() && other.Valid() && other.vals == os && other.elems == old(other.elems)
      ensures vals == base + os[..i + 1]
      ensures next == if i + 1 < |other.elems| then other.elems[i + 1] else null
      ensures fresh(back)
    {
      var v := e.value;
      AppendFrom(os, i, base);
      Disjoint(other);
      PushBack(v);
      next := e.next;
    }

    /** The element at index `k` and its neighbours: all that taking it out touches. */
    ghost function Around(k: nat): (r: set<Element<T>>)
      reads this
      requires k < |elems|
      ensures forall x :: x in r ==> x in elems
    {
      {elems[k]} + (if k > 0 then {elems[k - 1]} else {}) + (if k + 1 < |elems| then {elems[k + 1]} else {})
    }

    /**
     * unlink: take the element at index `k` out of the chain and clear its links. The
     * length is left for the caller to decrement, so only the chain is well formed here.
     */
    method Unlink(e: Element<T>, ghost k: nat)
      requires Valid() && k < |elems| && elems[k] == e
      modifies this, Around(k)
      ensures Linked() && len == old(len)
      ensures elems == Without(old(elems), k) && vals == Without(old(vals), k)
      ensures e.next == null && e.prev == null && e.parent == this && e.value == old(e.value)
      ensures e !in elems
    {
      ghost var es, vs := elems, vals;
      WithoutExcludes(es, k);
      assert e.prev == if k == 0 then null else es[k - 1];
      assert e.next == if k == |es| - 1 then null else es[k + 1];
      assert k > 0 ==> es[k - 1] != e;
      assert k < |es| - 1 ==> es[k + 1] != e;
      if e.prev == null {
        if e.next == null {
          front, back := null, null;
        } else {
          e.next.prev := null;
          front := e.next;
        }
      } else {
        if e.next != null {
          e.prev.next := e.next;
          e.next.prev := e.prev;
        } else {
          e.prev.next := null;
          back := e.prev;
        }
      }
      e.next := null;
      e.prev := null;
      elems, vals := Without(es, k), Without(vs, k);
      DistinctWithout(es, k);
      OwnedWithout(es, vs, k);
      LinksOut(es, k);
    }

    /** RemoveElement: unlink and clear a member element and hand back its value; None for any other. */
    method RemoveElement(e: Element?<T>) returns (v: Option<T>)
      requires Valid() && Tracked(e)
      modifies this, elems
      ensures Valid()
      ensures !old(Contains(e)) ==> v == None && elems == old(elems) && vals == old(vals)
      ensures old(Contains(e)) ==>
        var k := IndexOf(old(elems), e);
        && v == Some(old(vals)[k])
        && elems == Without(old(elems), k) && vals == Without(old(vals), k)
        && e.parent == null && e.next == null && e.prev == null
    {
      if !Contains(e) {
        return None;
      }
      Detach(e, IndexOf(elems, e));
      v := Some(e.value);
    }

    /**
     * The removal that RemoveElement, Remove and RemoveIf share: unlink the element at
     * index `k`, clear its links and its parent, and count one element fewer.
     */
    method Detach(e: Element<T>, ghost k: nat)
      requires Valid() && k < |elems| && elems[k] == e
      modifies this, Around(k)
      ensures Valid()
      ensures elems == Without(old(elems), k) && vals == Without(old(vals), k)
      ensures e.parent == null && e.next == null && e.prev == null && e.value == old(e.value)
    {
      Unlink(e, k);
      e.parent := null;
      len := len - 1;
    }

    /** Remove: unlink the first element holding `v`, if any, and say whether there was one. */
    method Remove(v: T) returns (removed: bool)
      requires Valid()
      modifies this, elems
      ensures Valid()
      ensures removed <==> v in old(vals)
      ensures vals == RemovedFirst(old(vals), v)
      ensures elems == if removed then Without(old(elems), IndexOf(old(vals), v)) else old(elems)
    {
      var e := front;
      ghost var i := 0;
      while e != null
        invariant Valid() && elems == old(elems) && vals == old(vals)
        invariant 0 <= i <= |elems| && e == (if i < |elems| then elems[i] else null)
        invariant v !in vals[..i]
        decreases |elems| - i
      {
        if v == e.value {
          assert vals[..i + 1] == vals[..i] + [v];
          Detach(e, i);
          return true;
        }
        assert vals[..i + 1] == vals[..i] + [e.value];
        e := e.next;
        i := i + 1;
      }
      assert vals[..i] == vals;
      return false;
    }

    /** PushAfter: a new element holding `v` right after a member `mark`; null for any other mark. */
    method PushAfter(v: T, mark: Element?<T>) returns (e: Element?<T>)
      requires Valid() && Tracked(mark)
      modifies this, elems
      ensures Valid()
      ensures !old(Contains(mark)) ==> e == null && elems == old(elems) && vals == old(vals)
      ensures old(Contains(mark)) ==>
        var k := IndexOf(old(elems), mark);
        && e != null && fresh(e)
        && elems == InsertAt(old(elems), k + 1, e) && vals == InsertAt(old(vals), k + 1, v)
    {
      if !Contains(mark) {
        return null;
      }
      e := InsertAfter(v, mark, IndexOf(elems, mark));
    }

    /** The splice of PushAfter, once `mark` is known to sit at index `k`. */
    method InsertAfter(v: T, mark: Element<T>, ghost k: nat) returns (e: Element<T>)
      requires Valid() && k < |elems| && elems[k] == mark
      modifies this, elems
      ensures Valid() && fresh(e)
      ensures elems == InsertAt(old(elems), k + 1, e) && vals == InsertAt(old(vals), k + 1, v)
    {
      ghost var es, vs := elems, vals;
      assert mark.next == if k == |es| - 1 then null else es[k + 1];
      e := new Element(v, mark.next, mark, this);
      mark.next := e;
      if mark == back {
        back := e;
      } else {
        e.next.prev := e;
      }
      len := len + 1;
      elems, vals := InsertAt(es, k + 1, e), InsertAt(vs, k + 1, v);
      DistinctInsertAt(es, k + 1, e);
      OwnedInsert(es, vs, k + 1, e, v);
      LinksIn(es, k + 1, e);
    }

    /** PushBefore: a new element holding `v` right before a member `mark`; null for any other mark. */
    method PushBefore(v: T, mark: Element?<T>) returns (e: Element?<T>)
      requires Valid() && Tracked(mark)
      modifies this, elems
      ensures Valid()
      ensures !old(Contains(mark)) ==> e == null && elems == old(elems) && vals == old(vals)
      ensures old(Contains(mark)) ==>
        var k := IndexOf(old(elems), mark);
        && e != null && fresh(e)
        && elems == InsertAt(old(elems), k, e) && vals == InsertAt(old(vals), k, v)
    {
      if !Contains(mark) {
        return null;
      }
      e := InsertBefore(v, mark, IndexOf(elems, mark));
    }

    /** The splice of PushBefore, once `mark` is known to sit at index `k`. */
    method InsertBefore(v: T, mark: Element<T>, ghost k: nat) returns (e: Element<T>)
      requires Valid() && k < |elems| && elems[k] == mark
      modifies this, elems
      ensures Valid() && fresh(e)
      ensures elems == InsertAt(old(elems), k, e) && vals == InsertAt(old(vals), k, v)
    {
      ghost var es, vs := elems, vals;
      assert mark.prev == if k == 0 then null else es[k - 1];
      e := new Element(v, mark, mark.prev, this);
      mark.prev := e;
      if mark == front {
        front := e;
      } else {
        e.prev.next := e;
      }
      len := len + 1;
      elems, vals := InsertAt(es, k, e), InsertAt(vs, k, v);
      DistinctInsertAt(es, k, e);
      OwnedInsert(es, vs, k, e, v);
      LinksIn(es, k, e);
    }

    /**
     * MoveAfter: a member `e` is taken out and put right after a member `mark`. False,
     * and no change, unless both are members; true and no change when they are the same.
     */
    method MoveAfter(e: Element?<T>, mark: Element?<T>) returns (ok: bool)
      requires Valid() && Tracked(e) && Tracked(mark)
      modifies this, elems
      ensures Valid()
      ensures ok <==> old(Contains(e) && Contains(mark))
      ensures !ok || e == mark ==> elems == old(elems) && vals == old(vals)
      ensures ok && e != mark ==>
        var i, j := IndexOf(old(elems), e), IndexOf(old(elems), mark);
        elems == MovedAfter(old(elems), i, j) && vals == MovedAfter(old(vals), i, j)
    {
      if !Contains(e) || !Contains(mark) {
        return false;
      }
      if e == mark {
        return true;
      }
      MoveAt(e, mark, IndexOf(elems, e), IndexOf(elems, mark), true);
      ok := true;
    }

    /** MoveBefore: as MoveAfter, with `e` put right before `mark`. */
    method MoveBefore(e: Element?<T>, mark: Element?<T>) returns (ok: bool)
      requires Valid() && Tracked(e) && Tracked(mark)
      modifies this, elems
      ensures Valid()
      ensures ok <==> old(Contains(e) && Contains(mark))
      ensures !ok || e == mark ==> elems == old(elems) && vals == old(vals)
      ensures ok && e != mark ==>
        var i, j := IndexOf(old(elems), e), IndexOf(old(elems), mark);
        elems == MovedBefore(old(elems), i, j) && vals == MovedBefore(old(vals), i, j)
    {
      if !Contains(e) || !Contains(mark) {
        return false;
      }
      if e == mark {
        return true;
      }
      MoveAt(e, mark, IndexOf(elems, e), IndexOf(elems, mark), false);
      ok := true;
    }

    /** The moves of MoveAfter (`after`) and MoveBefore, for `e` at index `i` and `mark` at `j`. */
    method MoveAt(e: Element<T>, mark: Element<T>, ghost i: nat, ghost j: nat, after: bool)
      requires Valid() && i < |elems| && j < |elems| && i != j && elems[i] == e && elems[j] == mark
      modifies this, elems
      ensures Valid()
      ensures after ==> elems == MovedAfter(old(elems), i, j) && vals == MovedAfter(old(vals), i, j)
      ensures !after ==> elems == MovedBefore(old(elems), i, j) && vals == MovedBefore(old(vals), i, j)
    {
      ghost var es, vs := elems, vals;
      ghost var m := if j < i then j else j - 1;
      assert e.value == vs[i];
      MovedAt(es, i, j, m);
      MovedAt(vs, i, j, m);
      Unlink(e, i);
      WithoutIn(es, i);
      assert elems[m] == mark;
      Relink(e, mark, m, after);
    }

    /** The second half of a move: a detached `e` goes right after, or right before, `mark`. */
    method Relink(e: Element<T>, mark: Element<T>, ghost k: nat, after: bool)
      requires Linked() && k < |elems| && elems[k] == mark && e !in elems && e.parent == this
      modifies this, e, Around(k)
      ensures Linked() && len == old(len) && e.value == old(e.value)
      ensures elems == InsertAt(old(elems), if after then k + 1 else k, e)
      ensures vals == InsertAt(old(vals), if after then k + 1 else k, e.value)
    {
      if after {
        RelinkAfter(e, mark, k);
      } else {
        RelinkBefore(e, mark, k);
      }
    }

    /** The second half of MoveAfter: a detached `e` goes right after `mark`, at index `k`. */
    method RelinkAfter(e: Element<T>, mark: Element<T>, ghost k: nat)
      requires Linked() && k < |elems| && elems[k] == mark && e !in elems && e.parent == this
      modifies this, e, Around(k)
      ensures Linked() && len == old(len)
      ensures elems == InsertAt(old(elems), k + 1, e) && vals == InsertAt(old(vals), k + 1, e.value)
      ensures e.value == old(e.value)
    {
      ghost var es, vs := elems, vals;
      assert mark.next == if k == |es| - 1 then null else es[k + 1];
      if mark.next == null {
        back := e;
      } else {
        mark.next.prev := e;
      }
      e.next := mark.next;
      e.prev := mark;
      mark.next := e;
      elems, vals := InsertAt(es, k + 1, e), InsertAt(vs, k + 1, e.value);
      DistinctInsertAt(es, k + 1, e);
      OwnedInsert(es, vs, k + 1, e, e.value);
      LinksIn(es, k + 1, e);
    }

    /** The second half of MoveBefore: a detached `e` goes right before `mark`, at index `k`. */
    method RelinkBefore(e: Element<T>, mark: Element<T>, ghost k: nat)
      requires Linked() && k < |elems| && elems[k] == mark && e !in elems && e.parent == this
      modifies this, e, Around(k)
      ensures Linked() && len == old(len)
      ensures elems == InsertAt(old(elems), k, e) && vals == InsertAt(old(vals), k, e.value)
      ensures e.value == old(e.value)
    {
      ghost var es, vs := elems, vals;
      assert mark.prev == if k == 0 then null else es[k - 1];
      if mark.prev == null {
        front := e;
      } else {
        mark.prev.next := e;
      }
      e.prev := mark.prev;
      e.next := mark;
      mark.prev := e;
      elems, vals := InsertAt(es, k, e), InsertAt(vs, k, e.value);
      DistinctInsertAt(es, k, e);
      OwnedInsert(es, vs, k, e, e.value);
      LinksIn(es, k, e);
    }

    /** MoveToBack: a member `e` becomes the back, the others keeping their order. */
    method MoveToBack(e: Element?<T>) returns (ok: bool)
      requires Valid() && Tracked(e)
      modifies this, elems
      ensures Valid()
      ensures ok <==> old(Contains(e))
      ensures !ok ==> elems == old(elems) && vals == old(vals)
      ensures ok ==>
        var i := IndexOf(old(elems), e);
        elems == Without(old(elems), i) + [e] && vals == Without(old(vals), i) + [old(vals)[i]]
    {
      ghost var es, vs := elems, vals;
      ok := MoveAfter(e, back);
      if ok {
        ghost var i, n := IndexOf(es, e), |es| - 1;
        IndexOfDistinct(es, n);
        if i == n {
          LastIsWithoutPlusLast(es);
          LastIsWithoutPlusLast(vs);
        } else {
          MovedAfterLast(es, i);
          MovedAfterLast(vs, i);
        }
      }
    }

    /**
     * MoveToFront as written: it moves a member `e` after the front rather than before it,
     * so a member that is not already the front lands at index 1 and the front stays put.
     */
    method MoveToFront(e: Element?<T>) returns (ok: bool)
      requires Valid() && Tracked(e)
      modifies this, elems
      ensures Valid()
      ensures ok <==> old(Contains(e))
      ensures !ok || e == old(front) ==> elems == old(elems) && vals == old(vals)
      ensures ok && e != old(front) ==>
        var i := IndexOf(old(elems), e);
        && elems == InsertAt(Without(old(elems), i), 1, e)
        && vals == InsertAt(Without(old(vals), i), 1, old(vals)[i])
        && elems[0] == old(elems)[0] && elems[0] != e
    {
      ghost var es, vs := elems, vals;
      if es != [] {
        IndexOfDistinct(es, 0);
      }
      ok := MoveAfter(e, front);
    }

    /** MoveToFront as intended: a member `e` becomes the front, the others keeping their order. */
    method MoveToFrontCorrected(e: Element?<T>) returns (ok: bool)
      requires Valid() && Tracked(e)
      modifies this, elems
      ensures Valid()
      ensures ok <==> old(Contains(e))
      ensures !ok ==> elems == old(elems) && vals == old(vals)
      ensures ok ==>
        var i := IndexOf(old(elems), e);
        elems == [e] + Without(old(elems), i) && vals == [old(vals)[i]] + Without(old(vals), i)
    {
      ghost var es, vs := elems, vals;
      if es != [] {
        IndexOfDistinct(es, 0);
        if e != null && e.parent == this {
          ghost var i := IndexOf(es, e);
          if i == 0 {
            FirstIsFirstPlusWithout(es);
            FirstIsFirstPlusWithout(vs);
          } else {
            MovedBeforeFirst(es, i);
            MovedBeforeFirst(vs, i);
          }
        }
      }
      ok := MoveBefore(e, front);
    }

    /** Swap: the values of two members are exchanged; false, and no change, unless both are members. */
    method Swap(a: Element?<T>, b: Element?<T>) returns (ok: bool)
      requires Valid() && Tracked(a) && Tracked(b)
      modifies this, elems
      ensures Valid() && elems == old(elems)
      ensures ok <==> old(Contains(a) && Contains(b))
      ensures !ok ==> vals == old(vals)
      ensures ok ==> vals == Swapped(old(vals), IndexOf(elems, a), IndexOf(elems, b))
    {
      if !Contains(a) || !Contains(b) {
        return false;
      }
      SwapValues(a, b, IndexOf(elems, a), IndexOf(elems, b));
      ok := true;
    }

    /** The exchange of Swap, for members `a` at index `i` and `b` at index `j`. */
    method SwapValues(a: Element<T>, b: Element<T>, ghost i: nat, ghost j: nat)
      requires Valid() && i < |elems| && j < |elems| && elems[i] == a && elems[j] == b
      modifies this, a, b
      ensures Valid() && elems == old(elems)
      ensures vals == Swapped(old(vals), i, j)
    {
      a.value, b.value := b.value, a.value;
      vals := Swapped(vals, i, j);
    }

    /**
     * Sort: lists of more than ten values are sorted by quicksort, shorter ones by
     * selection sort; either way the elements stay in place and only the values move.
     */
    method Sort(cmp: (T, T) -> int)
      requires Valid() && IsComparator(cmp)
      modifies this, elems
      ensures Valid() && elems == old(elems)
      ensures NonDecreasing(vals, cmp) && multiset(vals) == multiset(old(vals))
    {
      if len > 10 {
        QuickSort(cmp);
      } else if len > 1 {
        SelectionSort(cmp);
      }
    }

    /** Selection sort: each round exchanges the last minimum of the unsorted rest into place. */
    method SelectionSort(cmp: (T, T) -> int)
      requires Valid() && IsComparator(cmp)
      modifies this, elems
      ensures Valid() && elems == old(elems)
      ensures NonDecreasing(vals, cmp) && multiset(vals) == multiset(old(vals))
    {
      ghost var es, s := elems, vals;
      var i := front;
      ghost var p := 0;
      while i != back
        invariant Valid() && elems == es
        invariant p <= |elems| && i == (if p < |elems| then elems[p] else null)
        invariant elems != [] ==> p < |elems|
        invariant Selected(vals, p, cmp) && multiset(vals) == multiset(s)
        decreases |elems| - p
      {
        i, p := SelectRound(i, p, cmp);
      }
      if elems != [] {
        DistinctIndex(elems, p, |elems| - 1);
        SelectedAll(vals, cmp);
      }
    }

    /** One round of selectionSort: the least value from index `p` on is exchanged into `i`, at `p`. */
    method SelectRound(i: Element<T>, ghost p: nat, cmp: (T, T) -> int) returns (next: Element?<T>, ghost p': nat)
      requires Valid() && IsComparator(cmp) && p < |elems| && elems[p] == i && Selected(vals, p, cmp)
      modifies this, elems
      ensures Valid() && elems == old(elems) && p' == p + 1
      ensures next == (if p' < |elems| then elems[p'] else null)
      ensures Selected(vals, p', cmp) && multiset(vals) == multiset(old(vals))
    {
      var minor, m := LastMinimum(i, p, cmp);
      p' := p + 1;
      ghost var s := vals;
      SelectStep(s, p, m, p', cmp);
      assert p' < |elems| ==> elems[p].next == elems[p'];
      next := i.next;
      SwapValues(i, minor, p, m);
    }

    /**
     * The inner loop of selectionSort: from the element `i` at index `p` to the back, the
     * element holding the least value, taking a later one on a tie.
     */
    method LastMinimum(i: Element<T>, ghost p: nat, cmp: (T, T) -> int) returns (minor: Element<T>, ghost m: nat)
      requires Valid() && IsComparator(cmp) && p < |elems| && elems[p] == i
      ensures p <= m < |elems| && minor == elems[m]
      ensures forall k :: p <= k < |elems| ==> cmp(vals[m], vals[k]) <= 0
      ensures forall k :: m < k < |elems| ==> cmp(vals[k], vals[m]) > 0
    {
      minor, m := i, p;
      var j := i.next;
      ghost var q := p + 1;
      while j != null
        invariant LastLeast(vals, p, m, q, cmp) && minor == elems[m]
        invariant j == if q < |elems| then elems[q] else null
        decreases |elems| - q
      {
        ghost var q' := q + 1;
        LastLeastStep(vals, p, m, q, q', cmp);
        NextOf(q, q');
        if cmp(j.value, minor.value) < 1 {
          minor, m := j, q;
        }
        j, q := j.next, q';
      }
    }

    /** quickSort: the whole list is the first range. */
    method QuickSort(cmp: (T, T) -> int)
      requires Valid() && IsComparator(cmp)
      modifies this, elems
      ensures Valid() && elems == old(elems)
      ensures NonDecreasing(vals, cmp) && multiset(vals) == multiset(old(vals))
    {
      QuickSortRange(front, back, 0, |elems| - 1, cmp);
      RearrangedAll(old(vals), vals);
      assert vals[0..|vals|] == vals;
    }

    /**
     * quickSortRecursive on the range from `first` (index `lo`) to `last` (index `hi`):
     * the range is sorted and rearranged, and nothing outside it moves.
     */
    method QuickSortRange(first: Element?<T>, last: Element?<T>, ghost lo: int, ghost hi: int, cmp: (T, T) -> int)
      requires Valid() && IsComparator(cmp) && 0 <= lo <= hi + 1 <= |elems|
      requires first == (if lo < |elems| then elems[lo] else null)
      requires last == (if hi >= 0 then elems[hi] else null)
      modifies this, elems
      ensures Valid() && elems == old(elems)
      ensures Rearranged(old(vals), vals, lo, hi) && NonDecreasing(vals[lo..hi + 1], cmp)
      decreases hi - lo + 1, 1
    {
      RangeGuard(first, last, lo, hi);
      if first != null && last != null && first != last.next {
        QuickSortSplit(first, last, lo, hi, cmp);
      } else {
        RearrangedSame(vals, lo, hi);
      }
    }

    /** The body of quickSortRecursive on a range that is not empty: partition, then sort both sides. */
    method QuickSortSplit(first: Element<T>, last: Element<T>, ghost lo: nat, ghost hi: nat, cmp: (T, T) -> int)
      requires Valid() && IsComparator(cmp) && lo <= hi < |elems| && elems[lo] == first && elems[hi] == last
      modifies this, elems
      ensures Valid() && elems == old(elems)
      ensures Rearranged(old(vals), vals, lo, hi) && NonDecreasing(vals[lo..hi + 1], cmp)
      decreases hi - lo + 1, 0
    {
      var pivot, p := Partition(first, last, lo, hi, cmp);
      ghost var s1 := vals;
      QuickSortRange(first, pivot.prev, lo, p as int - 1, cmp);
      ghost var s2 := vals;
      QuickSortRange(pivot.next, last, p + 1, hi, cmp);
      QuickSortJoin(old(vals), s1, s2, vals, lo, p, hi, cmp);
    }

    /** quickSortRecursive's guard holds exactly when the range is not empty. */
    lemma RangeGuard(first: Element?<T>, last: Element?<T>, lo: int, hi: int)
      requires Valid() && 0 <= lo <= hi + 1 <= |elems|
      requires first == (if lo < |elems| then elems[lo] else null)
      requires last == (if hi >= 0 then elems[hi] else null)
      ensures (first != null && last != null && first != last.next) <==> lo <= hi
    {
      if lo <= hi && hi + 1 < |elems| {
        assert last.next == elems[hi + 1];
      }
    }

    /**
     * The partition of quickSortRecursive (Lomuto's scheme): the value of `last` is the
     * pivot value; values comparing at most it are exchanged to the left, then the pivot
     * value is exchanged into the element after them, which is returned.
     */
    method Partition(first: Element<T>, last: Element<T>, ghost lo: nat, ghost hi: nat, cmp: (T, T) -> int)
      returns (pivot: Element<T>, ghost p: nat)
      requires Valid() && lo <= hi < |elems| && elems[lo] == first && elems[hi] == last
      modifies this, elems
      ensures Valid() && elems == old(elems) && lo <= p <= hi && pivot == elems[p]
      ensures Rearranged(old(vals), vals, lo, hi) && SplitAt(vals, lo, p, hi, cmp)
    {
      var piv, b := PartitionLoop(first, last, lo, hi, cmp);
      ghost var before := vals;
      pivot, p := PartitionFinish(piv, first, last, lo, b, hi, cmp);
      RearrangedThen(old(vals), before, vals, lo, hi);
    }

    /**
     * The loop of the partition: `j` walks from `first` to `last`, and `piv` ends as the
     * last element of the left side, or the element before the range while that is empty.
     */
    method PartitionLoop(first: Element<T>, last: Element<T>, ghost lo: nat, ghost hi: nat, cmp: (T, T) -> int)
      returns (piv: Element?<T>, ghost b: int)
      requires Valid() && lo <= hi < |elems| && elems[lo] == first && elems[hi] == last
      modifies this, elems
      ensures Valid() && elems == old(elems) && Rearranged(old(vals), vals, lo, hi)
      ensures Parted(vals, lo, b, hi, hi, cmp) && piv == (if b >= 0 then elems[b] else null)
    {
      ghost var es, s0 := elems, vals;
      piv, b := PartitionStart(first, lo);
      var j := first;
      ghost var q := lo;
      RearrangedSame(vals, lo, hi);
      while j != last
        invariant Valid() && elems == es
        invariant q <= hi && j == es[q]
        invariant Parted(vals, lo, b, q, hi, cmp) && piv == (if b >= 0 then es[b] else null)
        invariant Rearranged(s0, vals, lo, hi)
        decreases hi - q
      {
        j, piv, b, q := PartitionStep(s0, es, j, piv, first, last, lo, b, q, hi, cmp);
      }
      DistinctIndex(es, q, hi);
    }

    /** The partition starts with an empty left side: `piv` is the element before `first`. */
    method PartitionStart(first: Element<T>, ghost lo: nat) returns (piv: Element?<T>, ghost b: int)
      requires Valid() && lo < |elems| && elems[lo] == first
      ensures b == lo - 1 && piv == (if b >= 0 then elems[b] else null)
    {
      b := lo - 1;
      PrevOf(lo, b);
      piv := first.prev;
    }

    /**
     * One turn of the partition loop, on the element `j` at index `q`: it returns the
     * element after `j`, the new last element of the left side and the new indices, and
     * keeps the range a rearrangement of `s0`, the values before the loop.
     */
    method PartitionStep(ghost s0: seq<T>, ghost es: seq<Element<T>>, j: Element<T>, piv: Element?<T>,
                         first: Element<T>, last: Element<T>,
                         ghost lo: nat, ghost b: int, ghost q: nat, ghost hi: nat, cmp: (T, T) -> int)
      returns (next: Element?<T>, piv': Element?<T>, ghost b': int, ghost q': nat)
      requires Valid() && elems == es && Parted(vals, lo, b, q, hi, cmp) && q < hi < |es|
      requires es[lo] == first && es[q] == j && es[hi] == last && piv == (if b >= 0 then es[b] else null)
      requires Rearranged(s0, vals, lo, hi)
      modifies this, es
      ensures Valid() && elems == es && Rearranged(s0, vals, lo, hi)
      ensures q' == q + 1 && next == es[q'] && Parted(vals, lo, b', q', hi, cmp)
      ensures piv' == (if b' >= 0 then es[b'] else null)
    {
      q' := q + 1;
      NextOf(q, q');
      next := j.next;
      ghost var before := vals;
      piv', b' := PartitionTurn(piv, j, first, last, lo, b, q, q', hi, cmp);
      RearrangedThen(s0, before, vals, lo, hi);
    }

    /** The comparison of one turn: the value of `j` joins the left side when it is at most the pivot value. */
    method PartitionTurn(piv: Element?<T>, j: Element<T>, first: Element<T>, last: Element<T>,
                         ghost lo: nat, ghost b: int, ghost q: nat, ghost q': nat, ghost hi: nat, cmp: (T, T) -> int)
      returns (piv': Element?<T>, ghost b': int)
      requires Valid() && Parted(vals, lo, b, q, hi, cmp) && q < hi < |elems| && q' == q + 1
      requires elems[lo] == first && elems[q] == j && elems[hi] == last && piv == (if b >= 0 then elems[b] else null)
      modifies this, elems
      ensures Valid() && elems == old(elems) && Rearranged(old(vals), vals, lo, hi)
      ensures Parted(vals, lo, b', q', hi, cmp) && piv' == (if b' >= 0 then elems[b'] else null)
    {
      if cmp(j.value, last.value) < 1 {
        piv', b' := PartitionTakeStep(piv, j, first, last, lo, b, q, q', hi, cmp);
      } else {
        PartitionSkip(vals, lo, b, q, q', hi, cmp);
        RearrangedSame(vals, lo, hi);
        piv', b' := piv, b;
      }
    }

    /** A value at most the pivot value joins the left side. */
    method PartitionTakeStep(piv: Element?<T>, j: Element<T>, first: Element<T>, last: Element<T>,
                             ghost lo: nat, ghost b: int, ghost q: nat, ghost q': nat, ghost hi: nat, cmp: (T, T) -> int)
      returns (piv': Element<T>, ghost b': int)
      requires Valid() && Parted(vals, lo, b, q, hi, cmp) && q < hi < |elems| && q' == q + 1
      requires elems[lo] == first && elems[q] == j && elems[hi] == last && piv == (if b >= 0 then elems[b] else null)
      requires cmp(vals[q], vals[hi]) <= 0
      modifies this, elems
      ensures Valid() && elems == old(elems) && Rearranged(old(vals), vals, lo, hi)
      ensures b' == b + 1 && piv' == elems[b'] && Parted(vals, lo, b', q', hi, cmp)
    {
      piv' := NextPivot(piv, first, lo, b);
      b' := b + 1;
      ghost var s := vals;
      ghost var t := Swapped(s, b', q);
      PartitionTake(s, t, lo, b, b', q, q', hi, cmp);
      Exchange(piv', j, lo, b', q, hi);
    }

    /**
     * The element after the left side of the partition: the first element of the range
     * while the left side is empty and `piv` is the element before the range, or null at
     * the front of the list.
     */
    method NextPivot(piv: Element?<T>, first: Element<T>, ghost lo: nat, ghost b: int) returns (p: Element<T>)
      requires Valid() && lo <= b + 1 < |elems| && elems[lo] == first
      requires piv == (if b >= 0 then elems[b] else null)
      ensures p == elems[b + 1]
    {
      assert b >= 0 ==> elems[b].next == elems[b + 1];
      p := if piv == null then first else piv.next;
    }

    /** The closing exchange of the partition: the pivot value moves to the element after the left side. */
    method PartitionFinish(piv: Element?<T>, first: Element<T>, last: Element<T>,
                           ghost lo: nat, ghost b: int, ghost hi: nat, cmp: (T, T) -> int)
      returns (pivot: Element<T>, ghost p: nat)
      requires Valid() && Parted(vals, lo, b, hi, hi, cmp) && hi < |elems|
      requires elems[lo] == first && elems[hi] == last && piv == (if b >= 0 then elems[b] else null)
      modifies this, elems
      ensures Valid() && elems == old(elems) && Rearranged(old(vals), vals, lo, hi)
      ensures p == b + 1 && pivot == elems[p] && SplitAt(vals, lo, p, hi, cmp)
    {
      pivot := NextPivot(piv, first, lo, b);
      p := b + 1;
      ghost var s := vals;
      PartitionClose(s, Swapped(s, p, hi), lo, b, p, hi, cmp);
      Exchange(pivot, last, lo, p, hi, hi);
    }

    /** Exchanging the values of two elements of the range from `lo` to `hi` rearranges it. */
    method Exchange(a: Element<T>, b: Element<T>, ghost lo: nat, ghost i: nat, ghost j: nat, ghost hi: nat)
      requires Valid() && lo <= i <= hi < |elems| && lo <= j <= hi && elems[i] == a && elems[j] == b
      modifies this, elems
      ensures Valid() && elems == old(elems) && vals == Swapped(old(vals), i, j)
      ensures Rearranged(old(vals), vals, lo, hi)
    {
      SwappedRearranges(vals, lo, hi, i, j);
      SwapValues(a, b, i, j);
    }

    /**
     * RemoveAll as written: the list forgets its elements, which keep naming it as their
     * parent, so Contains still holds for each of them although the list is empty.
     */
    method RemoveAll()
      requires Valid()
      modifies this
      ensures Valid() && elems == [] && vals == []
      ensures forall k :: 0 <= k < |old(elems)| ==> Contains(old(elems)[k])
    {
      front, back, len := null, null, 0;
      elems, vals := [], [];
    }

    /** RemoveAll as intended: every element is cleared as RemoveElement clears one, then the list is emptied. */
    method RemoveAllCorrected()
      requires Valid()
      modifies this, elems
      ensures Valid() && elems == [] && vals == []
      ensures forall k :: 0 <= k < |old(elems)| ==>
        !Contains(old(elems)[k]) && old(elems)[k].next == null && old(elems)[k].prev == null
    {
      ghost var es := elems;
      var e := front;
      ghost var i := 0;
      while e != null
        invariant 0 <= i <= |es| && e == if i < |es| then es[i] else null
        invariant Distinct(es)
        invariant forall k :: i <= k < |es| ==> es[k].next == if k + 1 < |es| then es[k + 1] else null
        invariant forall k :: 0 <= k < i ==> es[k].parent == null && es[k].next == null && es[k].prev == null
        decreases |es| - i
      {
        var next := e.next;
        e.next, e.prev, e.parent := null, null, null;
        e := next;
        i := i + 1;
      }
      front, back, len := null, null, 0;
      elems, vals := [], [];
    }

    /**
     * RemoveFrom: the members `start` and `end` and everything between them go; when `end`
     * comes before `start`, everything from `start` to the back goes. Answers how many
     * elements went, 0 (and no change) unless both are members.
     */
    method RemoveFrom(start: Element?<T>, end: Element?<T>) returns (count: int)
      requires Valid() && Tracked(start) && Tracked(end)
      modifies this, elems
      ensures Valid()
      ensures !old(Contains(start) && Contains(end)) ==> count == 0 && elems == old(elems) && vals == old(vals)
      ensures old(Contains(start) && Contains(end)) ==>
        var i, j := IndexOf(old(elems), start), IndexOf(old(elems), end);
        && count == (if i <= j then j - i + 1 else |old(elems)| - i)
        && elems == old(elems)[..i] + old(elems)[i + count..] && vals == old(vals)[..i] + old(vals)[i + count..]
    {
      if !Contains(start) || !Contains(end) {
        return 0;
      }
      ghost var es, vs := elems, vals;
      ghost var i := IndexOf(es, start);
      count := RemoveRange(start, end, i, IndexOf(es, end));
      CutIs(es, i, count);
      CutIs(vs, i, count);
    }

    /** The loop of RemoveFrom, for members `start` at index `i` and `end` at index `j`. */
    method RemoveRange(start: Element<T>, end: Element<T>, ghost i: nat, ghost j: nat) returns (count: int)
      requires Valid() && i < |elems| && j < |elems| && elems[i] == start && elems[j] == end
      modifies this, elems
      ensures Valid()
      ensures count == if i <= j then j - i + 1 else |old(elems)| - i
      ensures i + count <= |old(elems)| && elems == Cut(old(elems), i, count) && vals == Cut(old(vals), i, count)
    {
      ghost var es, vs := elems, vals;
      var s, before := RemoveBefore(start, end, i, j);
      count := RemoveEnd(s, end, es, vs, i, before);
    }

    /** The tail of RemoveFrom: `end`, if the loop stopped at it, goes too. */
    method RemoveEnd(s: Element?<T>, end: Element<T>, ghost es: seq<Element<T>>, ghost vs: seq<T>, ghost i: nat, c: nat)
      returns (count: nat)
      requires Valid() && i + c <= |es| == |vs| && elems == Cut(es, i, c) && vals == Cut(vs, i, c)
      requires s == end ==> i + c < |es| && es[i + c] == s
      modifies this, es
      ensures Valid() && count == if s == end then c + 1 else c
      ensures i + count <= |es| && elems == Cut(es, i, count) && vals == Cut(vs, i, count)
    {
      count := c;
      if s == end {
        var _ := RemoveAt(s, es, vs, i, c);
        count := c + 1;
      }
    }

    /**
     * The loop proper: elements go from index `i` on until `end` or the back of the list
     * is reached; `s` is where it stopped.
     */
    method RemoveBefore(start: Element<T>, end: Element<T>, ghost i: nat, ghost j: nat) returns (s: Element?<T>, count: int)
      requires Valid() && i < |elems| && j < |elems| && elems[i] == start && elems[j] == end
      modifies this, elems
      ensures Valid() && count >= 0 && i + count <= |old(elems)|
      ensures elems == Cut(old(elems), i, count) && vals == Cut(old(vals), i, count)
      ensures s == end ==> i <= j && count == j - i && i + count < |old(elems)| && old(elems)[i + count] == s
      ensures s != end ==> j < i && count == |old(elems)| - i
    {
      ghost var es, vs := elems, vals;
      assert Distinct(es) && |vs| == |es|;
      count := 0;
      s := start;
      while s != end && s != null
        invariant Valid() && es[j] == end
        invariant i + count <= |es| && (i <= j ==> i + count <= j)
        invariant elems == Cut(es, i, count) && vals == Cut(vs, i, count)
        invariant s == if i + count < |es| then es[i + count] else null
        decreases |es| - count
      {
        assert i + count < |es| && i + count != j;
        s := RemoveAt(s, es, vs, i, count);
        count := count + 1;
      }
      if s == end {
        DistinctIndex(es, i + count, j);
      }
    }

    /**
     * One step of RemoveFrom's loop: once `c` elements went from index `i` of `es`, the
     * next one, `e`, goes too, and the element that followed it is handed back.
     */
    method RemoveAt(e: Element<T>, ghost es: seq<Element<T>>, ghost vs: seq<T>, ghost i: nat, ghost c: nat)
      returns (next: Element?<T>)
      requires Valid() && i + c < |es| == |vs| && es[i + c] == e
      requires elems == Cut(es, i, c) && vals == Cut(vs, i, c)
      modifies this, es
      ensures Valid()
      ensures elems == Cut(es, i, c + 1) && vals == Cut(vs, i, c + 1)
      ensures next == if i + c + 1 < |es| then es[i + c + 1] else null
    {
      var j := i + c;
      CutIs(es, i, c);
      CutIs(vs, i, c);
      assert elems[i] == e && (j + 1 < |es| ==> elems[i + 1] == es[j + 1]);
      next := e.next;
      IndexOfDistinct(elems, i);
      var _ := RemoveElement(e);
    }

    /**
     * RemoveIf: every element whose value meets `cond` is unlinked and cleared, the others
     * staying in order; answers how many went.
     */
    method RemoveIf(cond: T -> bool) returns (count: int)
      requires Valid()
      modifies this, elems
      ensures Valid()
      ensures vals == RemovedIf(old(vals), cond) && elems == KeptBy(old(elems), old(vals), cond)
      ensures count == |Taken(old(vals), cond)|
      ensures forall k :: 0 <= k < |old(elems)| && cond(old(vals)[k]) ==> old(elems)[k].parent == null
    {
      ghost var es, vs := elems, vals;
      count := Sift(cond, es, vs);
      SiftedIs(es, vs, cond, |es|);
      assert es[..|es|] == es && vs[..|vs|] == vs;
      TakenLength(vs, cond);
    }

    /** RemoveIf's walk over the list, its result stated as the state after its last step. */
    method Sift(cond: T -> bool, ghost es: seq<Element<T>>, ghost vs: seq<T>) returns (count: int)
      requires Valid() && elems == es && vals == vs
      modifies this, es
      ensures Valid() && |es| == |vs|
      ensures elems == SiftedElems(es, vs, cond, |es|) && vals == SiftedValues(vs, cond, |es|)
      ensures count == |es| - |elems|
      ensures forall k :: 0 <= k < |es| && Meets(cond, vs[k]) ==> es[k].parent == null
    {
      assert Distinct(es) && |vs| == |es|;
      count := 0;
      var e := front;
      ghost var i := 0;
      while e != null
        invariant Valid() && i <= |es|
        invariant elems == SiftedElems(es, vs, cond, i) && vals == SiftedValues(vs, cond, i)
        invariant count == |es| - |elems|
        invariant e == if i < |es| then es[i] else null
        invariant forall k :: 0 <= k < i && Meets(cond, vs[k]) ==> es[k].parent == null
        decreases |es| - i
      {
        var removed;
        e, removed := RemoveIfAt(e, es, vs, i, cond);
        if removed {
          count := count + 1;
        }
        i := i + 1;
      }
      assert i == |es|;
    }

    /**
     * One step of RemoveIf's loop: `e`, the element at index `i` of `es`, is unlinked and
     * cleared when its value meets `cond`; the element that followed it is handed back.
     */
    method RemoveIfAt(e: Element<T>, ghost es: seq<Element<T>>, ghost vs: seq<T>, ghost i: nat, cond: T -> bool)
      returns (next: Element?<T>, removed: bool)
      requires Valid() && i < |es| == |vs| && es[i] == e && Distinct(es)
      requires elems == SiftedElems(es, vs, cond, i) && vals == SiftedValues(vs, cond, i)
      requires forall k :: 0 <= k < i && Meets(cond, vs[k]) ==> es[k].parent == null
      modifies this, es
      ensures Valid()
      ensures elems == SiftedElems(es, vs, cond, i + 1) && vals == SiftedValues(vs, cond, i + 1)
      ensures |elems| == |old(elems)| - if removed then 1 else 0
      ensures next == if i + 1 < |es| then es[i + 1] else null
      ensures removed == Meets(cond, vs[i])
      ensures forall k :: 0 <= k < i + 1 && Meets(cond, vs[k]) ==> es[k].parent == null
    {
      SiftedIs(es, vs, cond, i);
      ghost var kept := KeptBy(es[..i], vs[..i], cond);
      ghost var k := |kept|;
      FilterAdvance(es, vs, cond, i);
      KeptThenRestIn(es, vs, cond, i);
      assert e.value == vs[i];
      if cond(e.value) {
        next := e.next;
        Detach(e, k);
        removed := true;
      } else {
        next := e.next;
        removed := false;
      }
    }
  }

  /** NewBySlice: a new list holding `values` in their order, each in a new element. */
  method NewBySlice<T(==, !new)>(values: seq<T>) returns (l: List<T>)
    ensures fresh(l) && l.Valid() && l.vals == values
    ensures forall k :: 0 <= k < |l.elems| ==> fresh(l.elems[k])
  {
    l := new List();
    for i := 0 to |values|
      invariant fresh(l) && l.Valid() && l.vals == values[..i]
      invariant forall k :: 0 <= k < |l.elems| ==> fresh(l.elems[k])
    {
      assert values[..i + 1] == values[..i] + [values[i]];
      l.PushBack(values[i]);
    }
    assert values[..|values|] == values;
  }
}
