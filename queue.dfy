/**
 * The queue of queue.go: a singly-linked chain of nodes from the front to the back,
 * with pointers to both ends and a length counter. Push links a new node behind the
 * back one, the only node whose `next` ever changes.
 *
 * The model adds two ghost fields: `nodes`, the chain from the front, and `vals`, their
 * values. `Valid` ties `front`, `back`, the links and `len` to them.
 */
module Queues {
  import opened Optional
  import opened ListSpec
  import opened Traversal
  import opened SinglyLinked

  // ---------------------------------------------------------------------------
  // The queue discipline on the contents, listed from the front

  /** The contents after Push: `v` at the back. */
  function Pushed<T>(vs: seq<T>, v: T): (r: seq<T>)
    ensures |r| == |vs| + 1 && r[|vs|] == v && r[..|vs|] == vs
  {
    vs + [v]
  }

  /** What Get returns, and the contents after it: the front value goes, or nothing when empty. */
  function Popped<T>(vs: seq<T>): (r: (Option<T>, seq<T>))
    ensures vs == [] ==> r == (None, [])
    ensures vs != [] ==> r.0 == Some(vs[0]) && [vs[0]] + r.1 == vs
  {
    if vs == [] then (None, []) else (Some(vs[0]), vs[1..])
  }

  /**
   * First in, first out: on an empty queue Get returns what Push just added; otherwise
   * Get and Push commute, Get returning the old front either way.
   */
  lemma GetAfterPush<T>(vs: seq<T>, v: T)
    ensures vs == [] ==> Popped(Pushed(vs, v)) == (Some(v), [])
    ensures vs != [] ==> Popped(Pushed(vs, v)) == (Some(vs[0]), Pushed(Popped(vs).1, v))
  {
    if vs != [] {
      assert Pushed(vs, v)[1..] == vs[1..] + [v];
    }
  }

  /** The contents after pushing the values of `s` in order onto `vs`. */
  function PushAll<T>(vs: seq<T>, s: seq<T>): seq<T> {
    if s == [] then vs else Pushed(PushAll(vs, s[..|s| - 1]), s[|s| - 1])
  }

  /** Pushing the values of `s` in order, one after the other, queues them in that order behind `vs`. */
  lemma {:induction false} PushAllInOrder<T>(vs: seq<T>, s: seq<T>)
    ensures PushAll(vs, s) == vs + s
  {
    if s != [] {
      PushAllInOrder(vs, s[..|s| - 1]);
      assert s == s[..|s| - 1] + [s[|s| - 1]];
    }
  }

  // ---------------------------------------------------------------------------
  // The queue object

  class Queue<T(==)> {
    var front: Node?<T>
    var back: Node?<T>
    var len: int
    ghost var nodes: seq<Node<T>>
    ghost var vals: seq<T>

    /** The queue invariant: the chain from `front` ends at `back`, `len` nodes long. */
    ghost predicate Valid()
      reads this, nodes
    {
      && len == |nodes|
      && Chain(nodes, vals, front)
      && back == (if nodes == [] then null else nodes[|nodes| - 1])
    }

    /** The node after the one at index `k`, as the links give it. */
    lemma NextOf(k: nat)
      requires Valid() && k < |nodes|
      ensures nodes[k].next == if k + 1 < |nodes| then nodes[k + 1] else null
    {
    }

    /** The back node is the only node of the chain whose `next` is null. */
    lemma OnlyBackEnds(k: nat)
      requires Valid() && k + 1 < |nodes|
      ensures nodes[k] != back
    {
      NextOf(k);
    }

    /** New: an empty queue. */
    constructor ()
      ensures Valid() && vals == []
    {
      front, back, len := null, null, 0;
      nodes, vals := [], [];
    }

    /** IsEmpty: whether the queue holds no values (its counter is zero). */
    function IsEmpty(): (b: bool)
      reads this, nodes
      requires Valid()
      ensures b <==> vals == []
    {
      len == 0
    }

    /** Len: the number of values. */
    function Len(): (n: int)
      reads this, nodes
      requires Valid()
      ensures n == |vals|
    {
      len
    }

    /** Peek: the front value without removing it; nothing when the queue is empty. */
    function Peek(): (v: Option<T>)
      reads this, nodes
      requires Valid()
      ensures v == Popped(vals).0
    {
      if IsEmpty() then None else Some(front.value)
    }

    /** Push: a new node holding `v` is linked behind the back one, or becomes the only node. */
    method Push(v: T)
      requires Valid()
      modifies this, back
      ensures Valid() && vals == Pushed(old(vals), v)
      ensures fresh(back) && nodes == old(nodes) + [back]
    {
      var n := new Node(v, null);
      ghost var ns := nodes;
      if IsEmpty() {
        front := n;
      } else {
        forall k | 0 <= k < |ns| - 1 ensures ns[k] != back {
          OnlyBackEnds(k);
        }
        back.next := n;
      }
      back := n;
      len := len + 1;
      nodes, vals := nodes + [n], vals + [v];
      ChainSnoc(ns, nodes, vals);
    }

    /** The chain `ns` with `n` linked behind its last node: every node keeps its value and all but the last their links. */
    lemma ChainSnoc(ns: seq<Node<T>>, ns': seq<Node<T>>, vs': seq<T>)
      requires back != null && ns' == ns + [back] && |vs'| == |ns'| && front == ns'[0] && back.next == null
      requires forall i :: 0 <= i < |ns'| ==> ns'[i].value == vs'[i]
      requires forall i :: 0 < i < |ns| ==> ns[i - 1].next == ns[i]
      requires ns != [] ==> ns[|ns| - 1].next == back
      ensures Chain(ns', vs', front)
    {
      forall i | 0 < i < |ns'| ensures ns'[i - 1].next == ns'[i] {
        assert ns'[i - 1] == ns[i - 1];
        if i < |ns| {
          assert ns'[i] == ns[i];
        }
      }
    }

    /** Get: the front value is removed and returned; nothing happens on an empty queue. */
    method Get() returns (v: Option<T>)
      requires Valid()
      modifies this
      ensures Valid() && (v, vals) == Popped(old(vals))
      ensures old(vals) != [] ==> nodes == old(nodes)[1..]
    {
      if IsEmpty() {
        return None;
      }
      var n := front;
      ChainTail(nodes, vals, front);
      v := Some(n.value);
      if back == n {
        back := null;
      }
      front := n.next;
      len := len - 1;
      nodes, vals := nodes[1..], vals[1..];
      assert nodes != [] ==> old(nodes)[0] != old(nodes)[|old(nodes)| - 1] by {
        if nodes != [] {
          NextOf(0);
        }
      }
    }

    /**
     * GetIf: values are taken from the front while they meet `cond`; the taken values are
     * returned in their order.
     */
    method GetIf(cond: T -> bool) returns (values: seq<T>)
      requires Valid()
      modifies this
      ensures Valid() && values == LeadingRun(old(vals), cond)
      ensures vals == old(vals)[|values|..]
    {
      ghost var s0 := vals;
      values := [];
      var n := front;
      while n != null
        invariant Valid() && n == front
        invariant s0 == values + vals
        invariant LeadingRun(s0, cond) == values + LeadingRun(vals, cond)
        decreases |vals|
      {
        if cond(n.value) {
          values := GetTaken(cond, s0, values);
          n := front;
        } else {
          return;
        }
      }
    }

    /** One turn of GetIf: the front value meets the condition, so it is taken and added to the taken ones. */
    method GetTaken(cond: T -> bool, ghost s0: seq<T>, values: seq<T>) returns (values': seq<T>)
      requires Valid() && vals != [] && cond(vals[0])
      requires s0 == values + vals && LeadingRun(s0, cond) == values + LeadingRun(vals, cond)
      modifies this
      ensures Valid() && |vals| == old(|vals|) - 1
      ensures s0 == values' + vals && LeadingRun(s0, cond) == values' + LeadingRun(vals, cond)
    {
      assert LeadingRun(vals, cond) == [vals[0]] + LeadingRun(vals[1..], cond);
      var v := Get();
      values' := values + [v.value];
    }

    /** RemoveAll: the queue forgets its nodes. */
    method RemoveAll()
      modifies this
      ensures Valid() && vals == []
    {
      front, back, len := null, null, 0;
      nodes, vals := [], [];
    }

    /** Search: the index from the front of the first node holding `v`; -1 when no node holds `v`. */
    method Search(v: T) returns (index: int)
      requires Valid()
      ensures index == IndexOf(vals, v)
    {
      var n := front;
      index := 0;
      while n != null
        invariant 0 <= index <= |nodes| && n == (if index < |nodes| then nodes[index] else null)
        invariant v !in vals[..index]
        decreases |nodes| - index
      {
        if n.value == v {
          assert vals[..index + 1] == vals[..index] + [v];
          return;
        }
        assert vals[..index + 1] == vals[..index] + [vals[index]];
        NextOf(index);
        n, index := n.next, index + 1;
      }
      assert vals[..index] == vals;
      return -1;
    }

    /** SearchByComparator: as Search, with `equals(value, v)` deciding a match. */
    method SearchByComparator(v: T, equals: (T, T) -> bool) returns (index: int)
      requires Valid()
      ensures index == FirstIndex(vals, x => equals(x, v))
    {
      var n := front;
      index := 0;
      while n != null
        invariant 0 <= index <= |nodes| && n == (if index < |nodes| then nodes[index] else null)
        invariant forall k :: 0 <= k < index ==> !equals(vals[k], v)
        decreases |nodes| - index
      {
        if equals(n.value, v) {
          return;
        }
        NextOf(index);
        n, index := n.next, index + 1;
      }
      return -1;
    }

    /** Slice: the values from the front to the back. */
    method Slice() returns (s: seq<T>)
      requires Valid()
      ensures s == vals
    {
      s := [];
      var n := front;
      ghost var k := 0;
      while n != null
        invariant 0 <= k <= |nodes| && n == (if k < |nodes| then nodes[k] else null)
        invariant s == vals[..k]
        decreases |nodes| - k
      {
        assert vals[..k + 1] == vals[..k] + [n.value];
        s := s + [n.value];
        NextOf(k);
        n := n.next;
        k := k + 1;
      }
      assert vals[..k] == vals;
    }

    /**
     * Do: the queue is drained; each value, from the front, is handed to each of the
     * `procs` procedures in turn, and the calls made are the result.
     */
    method Do(procs: nat) returns (calls: seq<(nat, T)>)
      requires Valid()
      modifies this
      ensures Valid() && vals == [] && calls == Calls(old(vals), procs)
    {
      calls := [];
      while !IsEmpty()
        invariant Valid()
        invariant Calls(old(vals), procs) == calls + Calls(vals, procs)
        decreases |vals|
      {
        var v := Get();
        calls := Visit(calls, v.value, procs);
      }
    }

    /**
     * String: "[]" for the empty queue, otherwise the values' texts from the front
     * between brackets, separated by single spaces.
     */
    method String(show: T -> string) returns (s: string)
      requires Valid()
      ensures s == if vals == [] then "[]" else "[" + Joined(vals, show) + "]"
    {
      if IsEmpty() {
        return "[]";
      }
      var n := front;
      s := "[";
      ghost var k := 0;
      NextOf(0);
      while n.next != null
        invariant 0 <= k < |nodes| && n == nodes[k]
        invariant n.next == if k + 1 < |nodes| then nodes[k + 1] else null
        invariant s == "[" + Spaced(vals[..k], show)
        decreases |nodes| - k
      {
        assert vals[..k + 1] == vals[..k] + [n.value];
        SpacedSnoc(vals[..k], n.value, show);
        s := s + show(n.value) + " ";
        n := n.next;
        k := k + 1;
        NextOf(k);
      }
      SpacedThenLast(vals, show);
      s := s + show(n.value) + "]";
    }

    /** Equals: the two queues hold equal values in the same order. */
    method Equals(other: Queue<T>) returns (b: bool)
      requires Valid() && other.Valid()
      ensures b <==> vals == other.vals
    {
      if len != other.len {
        return false;
      }
      var m, n := front, other.front;
      ghost var k := 0;
      while m != null
        invariant 0 <= k <= |nodes| == |other.nodes|
        invariant m == (if k < |nodes| then nodes[k] else null)
        invariant n == (if k < |other.nodes| then other.nodes[k] else null)
        invariant vals[..k] == other.vals[..k]
        decreases |nodes| - k
      {
        if m.value != n.value {
          return false;
        }
        assert vals[..k + 1] == vals[..k] + [m.value] && other.vals[..k + 1] == other.vals[..k] + [n.value];
        NextOf(k);
        other.NextOf(k);
        m, n := m.next, n.next;
        k := k + 1;
      }
      assert vals[..k] == vals && other.vals[..k] == other.vals;
      return true;
    }

    /** EqualsByComparator: as Equals, with `equals` deciding whether two values match. */
    method EqualsByComparator(other: Queue<T>, equals: (T, T) -> bool) returns (b: bool)
      requires Valid() && other.Valid()
      ensures b <==> Pairwise(vals, other.vals, equals)
    {
      if len != other.len {
        return false;
      }
      var m, n := front, other.front;
      ghost var k := 0;
      while m != null
        invariant 0 <= k <= |nodes| == |other.nodes|
        invariant m == (if k < |nodes| then nodes[k] else null)
        invariant n == (if k < |other.nodes| then other.nodes[k] else null)
        invariant forall j :: 0 <= j < k ==> equals(vals[j], other.vals[j])
        decreases |nodes| - k
      {
        if !equals(m.value, n.value) {
          return false;
        }
        NextOf(k);
        other.NextOf(k);
        m, n := m.next, n.next;
        k := k + 1;
      }
      return true;
    }

    /** Clone: a new queue of new nodes holding the same values in the same order. */
    method Clone() returns (c: Queue<T>)
      requires Valid()
      ensures fresh(c) && c.Valid() && c.vals == vals
      ensures forall i :: 0 <= i < |c.nodes| ==> fresh(c.nodes[i])
    {
      c := new Queue();
      var n := front;
      ghost var k := 0;
      while n != null
        invariant 0 <= k <= |nodes| && n == (if k < |nodes| then nodes[k] else null)
        invariant fresh(c) && c.Valid() && c.vals == vals[..k]
        invariant forall i :: 0 <= i < |c.nodes| ==> fresh(c.nodes[i])
        decreases |nodes| - k
      {
        assert vals[..k + 1] == vals[..k] + [n.value];
        c.Push(n.value);
        NextOf(k);
        n := n.next;
        k := k + 1;
      }
      assert vals[..k] == vals;
    }
  }

  /** NewBySlice: a new queue with the values of `values` pushed in order, the first at the front. */
  method NewBySlice<T(==)>(values: seq<T>) returns (q: Queue<T>)
    ensures fresh(q) && q.Valid() && q.vals == values
  {
    q := new Queue();
    for i := 0 to |values|
      invariant fresh(q) && q.Valid() && q.vals == PushAll([], values[..i])
      invariant forall k :: 0 <= k < |q.nodes| ==> fresh(q.nodes[k])
    {
      assert values[..i + 1][..i] == values[..i];
      q.Push(values[i]);
    }
    assert values[..|values|] == values;
    PushAllInOrder([], values);
  }
}
