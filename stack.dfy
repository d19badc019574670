/**
 * The stack of stack.go: a singly-linked chain of nodes from the top down, with a
 * length counter. Nodes are objects; once linked, a node is never changed again, so
 * the stack's methods modify only the stack itself.
 *
 * The model adds two ghost fields: `nodes`, the chain from the top down, and `vals`,
 * their values. `Valid` ties `top`, the links and `len` to them.
 */
module Stacks {
  import opened Optional
  import opened ListSpec
  import opened Traversal
  import opened SinglyLinked

  // ---------------------------------------------------------------------------
  // The stack discipline on the contents, listed from the top down

  /** The contents after Push: `v` on top. */
  function Pushed<T>(vs: seq<T>, v: T): (r: seq<T>)
    ensures |r| == |vs| + 1 && r[0] == v && r[1..] == vs
  {
    [v] + vs
  }

  /** What Get returns, and the contents after it: the top value goes, or nothing when empty. */
  function Popped<T>(vs: seq<T>): (r: (Option<T>, seq<T>))
    ensures vs == [] ==> r == (None, [])
    ensures vs != [] ==> r.0 == Some(vs[0]) && [vs[0]] + r.1 == vs
  {
    if vs == [] then (None, []) else (Some(vs[0]), vs[1..])
  }

  /** Last in, first out: Get right after Push returns the pushed value and restores the contents. */
  lemma GetAfterPush<T>(vs: seq<T>, v: T)
    ensures Popped(Pushed(vs, v)) == (Some(v), vs)
  {
  }

  /** `s` in reverse order. */
  function Reversed<T>(s: seq<T>): (r: seq<T>)
    ensures |r| == |s|
    ensures forall i :: 0 <= i < |s| ==> r[i] == s[|s| - 1 - i]
  {
    if s == [] then [] else [s[|s| - 1]] + Reversed(s[..|s| - 1])
  }

  /** Pushing the values of `s` in order, one after the other, onto `vs` stacks them reversed. */
  lemma {:induction false} PushAllReversed<T>(vs: seq<T>, s: seq<T>)
    ensures PushAll(vs, s) == Reversed(s) + vs
  {
    if s != [] {
      PushAllReversed(vs, s[..|s| - 1]);
      assert Reversed(s) == [s[|s| - 1]] + Reversed(s[..|s| - 1]);
    }
  }

  /** The contents after pushing the values of `s` in order onto `vs`. */
  function PushAll<T>(vs: seq<T>, s: seq<T>): seq<T> {
    if s == [] then vs else Pushed(PushAll(vs, s[..|s| - 1]), s[|s| - 1])
  }

  // ---------------------------------------------------------------------------
  // The stack object

  class Stack<T(==)> {
    var top: Node?<T>
    var len: int
    ghost var nodes: seq<Node<T>>
    ghost var vals: seq<T>

    /** The stack invariant: the nodes from `top` down form the chain of the ghost nodes, `len` of them. */
    ghost predicate Valid()
      reads this, nodes
    {
      len == |nodes| && Chain(nodes, vals, top)
    }

    /** The node below the one at index `k`, as the links give it. */
    lemma NextOf(k: nat)
      requires Valid() && k < |nodes|
      ensures nodes[k].next == if k + 1 < |nodes| then nodes[k + 1] else null
    {
    }

    /** New: an empty stack. */
    constructor ()
      ensures Valid() && vals == []
    {
      top, len := null, 0;
      nodes, vals := [], [];
    }

    /** A stack made of an existing chain, as Clone builds it. */
    constructor Of(top: Node?<T>, len: int, ghost nodes: seq<Node<T>>, ghost vals: seq<T>)
      requires len == |nodes| && Chain(nodes, vals, top)
      ensures Valid() && this.nodes == nodes && this.vals == vals
    {
      this.top, this.len := top, len;
      this.nodes, this.vals := nodes, vals;
    }

    /** IsEmpty: whether the stack holds no values (its counter is zero). */
    function IsEmpty(): (b: bool)
      reads this, nodes
      requires Valid()
      ensures b <==> vals == []
    {
      len == 0
    }

    /** Len: the number of values. */
    function Len(): (n: int)
      reads this, nodes
      requires Valid()
      ensures n == |vals|
    {
      len
    }

    /** Peek: the top value without removing it; nothing when the stack is empty. */
    function Peek(): (v: Option<T>)
      reads this, nodes
      requires Valid()
      ensures v == Popped(vals).0
    {
      if IsEmpty() then None else Some(top.value)
    }

    /** Push: a new node holding `v` becomes the top. */
    method Push(v: T)
      requires Valid()
      modifies this
      ensures Valid() && vals == Pushed(old(vals), v)
      ensures fresh(top) && nodes == [top] + old(nodes)
    {
      var n := new Node(v, top);
      ChainCons(n, v, nodes, vals, top);
      top := n;
      len := len + 1;
      nodes, vals := [n] + nodes, [v] + vals;
    }

    /** Get: the top value is removed and returned; nothing happens on an empty stack. */
    method Get() returns (v: Option<T>)
      requires Valid()
      modifies this
      ensures Valid() && (v, vals) == Popped(old(vals))
      ensures old(vals) != [] ==> nodes == old(nodes)[1..]
    {
      if IsEmpty() {
        return None;
      }
      var n := top;
      ChainTail(nodes, vals, top);
      v := Some(n.value);
      top := n.next;
      len := len - 1;
      nodes, vals := nodes[1..], vals[1..];
    }

    /**
     * GetIf: values are popped from the top while they meet `cond`; the popped values
     * are returned in the order they came off.
     */
    method GetIf(cond: T -> bool) returns (values: seq<T>)
      requires Valid()
      modifies this
      ensures Valid() && values == LeadingRun(old(vals), cond)
      ensures vals == old(vals)[|values|..]
    {
      ghost var s0 := vals;
      values := [];
      var n := top;
      while n != null
        invariant Valid() && n == top
        invariant s0 == values + vals
        invariant LeadingRun(s0, cond) == values + LeadingRun(vals, cond)
        decreases |vals|
      {
        if cond(n.value) {
          values := GetTaken(cond, s0, values);
          n := top;
        } else {
          return;
        }
      }
    }

    /** One turn of GetIf: the top value meets the condition, so it is popped and added to the taken ones. */
    method GetTaken(cond: T -> bool, ghost s0: seq<T>, values: seq<T>) returns (values': seq<T>)
      requires Valid() && vals != [] && cond(vals[0])
      requires s0 == values + vals && LeadingRun(s0, cond) == values + LeadingRun(vals, cond)
      modifies this
      ensures Valid() && |vals| == old(|vals|) - 1
      ensures s0 == values' + vals && LeadingRun(s0, cond) == values' + LeadingRun(vals, cond)
    {
      assert LeadingRun(vals, cond) == [vals[0]] + LeadingRun(vals[1..], cond);
      var v := Get();
      values' := values + [v.value];
    }

    /** RemoveAll: the stack forgets its nodes. */
    method RemoveAll()
      modifies this
      ensures Valid() && vals == []
    {
      top, len := null, 0;
      nodes, vals := [], [];
    }

    /**
     * Search: the position of the first node from the top holding `v`, counted from the
     * bottom (the top is at `len - 1`); -1 when no node holds `v`.
     */
    method Search(v: T) returns (index: int)
      requires Valid()
      ensures index == -1 <==> v !in vals
      ensures index != -1 ==> 0 <= index < |vals| && vals[|vals| - 1 - index] == v
      ensures index != -1 ==> v !in vals[..|vals| - 1 - index]
    {
      var n := top;
      index := len - 1;
      ghost var k := 0;
      while n != null
        invariant 0 <= k <= |nodes| && n == (if k < |nodes| then nodes[k] else null)
        invariant index == |vals| - 1 - k && v !in vals[..k]
        decreases |nodes| - k
      {
        if n.value == v {
          return;
        }
        assert vals[..k + 1] == vals[..k] + [vals[k]];
        NextOf(k);
        n, index := n.next, index - 1;
        k := k + 1;
      }
      assert vals[..k] == vals;
    }

    /** SearchByComparator: as Search, with `equals(value, v)` deciding a match. */
    method SearchByComparator(v: T, equals: (T, T) -> bool) returns (index: int)
      requires Valid()
      ensures index == -1 <==> forall k :: 0 <= k < |vals| ==> !equals(vals[k], v)
      ensures index != -1 ==> 0 <= index < |vals| && equals(vals[|vals| - 1 - index], v)
      ensures index != -1 ==> forall k :: 0 <= k < |vals| - 1 - index ==> !equals(vals[k], v)
    {
      var n := top;
      index := len - 1;
      ghost var k := 0;
      while n != null
        invariant 0 <= k <= |nodes| && n == (if k < |nodes| then nodes[k] else null)
        invariant index == |vals| - 1 - k
        invariant forall j :: 0 <= j < k ==> !equals(vals[j], v)
        decreases |nodes| - k
      {
        if equals(n.value, v) {
          return;
        }
        NextOf(k);
        n, index := n.next, index - 1;
        k := k + 1;
      }
    }

    /** Slice: the values from the top down. */
    method Slice() returns (s: seq<T>)
      requires Valid()
      ensures s == vals
    {
      s := [];
      var n := top;
      ghost var k := 0;
      while n != null
        invariant 0 <= k <= |nodes| && n == (if k < |nodes| then nodes[k] else null)
        invariant s == vals[..k]
        decreases |nodes| - k
      {
        assert vals[..k + 1] == vals[..k] + [n.value];
        s := s + [n.value];
        NextOf(k);
        n := n.next;
        k := k + 1;
      }
      assert vals[..k] == vals;
    }

    /**
     * Do: the stack is drained; each value, from the top down, is handed to each of the
     * `procs` procedures in turn, and the calls made are the result.
     */
    method Do(procs: nat) returns (calls: seq<(nat, T)>)
      requires Valid()
      modifies this
      ensures Valid() && vals == [] && calls == Calls(old(vals), procs)
    {
      calls := [];
      while !IsEmpty()
        invariant Valid()
        invariant Calls(old(vals), procs) == calls + Calls(vals, procs)
        decreases |vals|
      {
        var v := Get();
        calls := Visit(calls, v.value, procs);
      }
    }

    /**
     * String: "[]" for the empty stack, otherwise the values' texts from the top down
     * between brackets, separated by single spaces.
     */
    method String(show: T -> string) returns (s: string)
      requires Valid()
      ensures s == if vals == [] then "[]" else "[" + Joined(vals, show) + "]"
    {
      if IsEmpty() {
        return "[]";
      }
      s := "[";
      var n := top;
      ghost var k := 0;
      NextOf(0);
      while n.next != null
        invariant 0 <= k < |nodes| && n == nodes[k]
        invariant n.next == if k + 1 < |nodes| then nodes[k + 1] else null
        invariant s == "[" + Spaced(vals[..k], show)
        decreases |nodes| - k
      {
        assert vals[..k + 1] == vals[..k] + [n.value];
        SpacedSnoc(vals[..k], n.value, show);
        s := s + show(n.value) + " ";
        n := n.next;
        k := k + 1;
        NextOf(k);
      }
      SpacedThenLast(vals, show);
      s := s + show(n.value) + "]";
    }

    /** Equals: the two stacks hold equal values in the same order. */
    method Equals(other: Stack<T>) returns (b: bool)
      requires Valid() && other.Valid()
      ensures b <==> vals == other.vals
    {
      if len != other.len {
        return false;
      }
      var m, n := top, other.top;
      ghost var k := 0;
      while m != null
        invariant 0 <= k <= |nodes| == |other.nodes|
        invariant m == (if k < |nodes| then nodes[k] else null)
        invariant n == (if k < |other.nodes| then other.nodes[k] else null)
        invariant vals[..k] == other.vals[..k]
        decreases |nodes| - k
      {
        if m.value != n.value {
          return false;
        }
        assert vals[..k + 1] == vals[..k] + [m.value] && other.vals[..k + 1] == other.vals[..k] + [n.value];
        NextOf(k);
        other.NextOf(k);
        m, n := m.next, n.next;
        k := k + 1;
      }
      assert vals[..k] == vals && other.vals[..k] == other.vals;
      return true;
    }

    /** EqualsByComparator: as Equals, with `equals` deciding whether two values match. */
    method EqualsByComparator(other: Stack<T>, equals: (T, T) -> bool) returns (b: bool)
      requires Valid() && other.Valid()
      ensures b <==> Pairwise(vals, other.vals, equals)
    {
      if len != other.len {
        return false;
      }
      var m, n := top, other.top;
      ghost var k := 0;
      while m != null
        invariant 0 <= k <= |nodes| == |other.nodes|
        invariant m == (if k < |nodes| then nodes[k] else null)
        invariant n == (if k < |other.nodes| then other.nodes[k] else null)
        invariant forall j :: 0 <= j < k ==> equals(vals[j], other.vals[j])
        decreases |nodes| - k
      {
        if !equals(m.value, n.value) {
          return false;
        }
        NextOf(k);
        other.NextOf(k);
        m, n := m.next, n.next;
        k := k + 1;
      }
      return true;
    }

    /** Clone: a new stack over a copy of the chain, holding the same values in the same order. */
    method Clone() returns (c: Stack<T>)
      requires Valid()
      ensures fresh(c) && c.Valid() && c.vals == vals
      ensures forall i :: 0 <= i < |c.nodes| ==> fresh(c.nodes[i])
    {
      var copy, cs := CloneFrom(top, 0);
      assert vals[0..] == vals;
      c := new Stack.Of(copy, len, cs, vals);
    }

    /** cloneRecursive: a copy, in new nodes, of the chain from the node at index `k` down. */
    method CloneFrom(n: Node?<T>, ghost k: nat) returns (c: Node?<T>, ghost cs: seq<Node<T>>)
      requires Valid() && k <= |nodes| && n == (if k < |nodes| then nodes[k] else null)
      ensures Chain(cs, vals[k..], c)
      ensures forall i :: 0 <= i < |cs| ==> fresh(cs[i])
      decreases |nodes| - k
    {
      if n == null {
        return null, [];
      }
      var rest, rs := CloneFrom(n.next, k + 1);
      NextOf(k);
      c := new Node(n.value, rest);
      ChainCons(c, n.value, rs, vals[k + 1..], rest);
      cs := [c] + rs;
      assert vals[k..] == [vals[k]] + vals[k + 1..];
    }
  }

  /** NewBySlice: a new stack with the values of `values` pushed in order, so that the last one is on top. */
  method NewBySlice<T(==)>(values: seq<T>) returns (s: Stack<T>)
    ensures fresh(s) && s.Valid() && s.vals == Reversed(values)
  {
    s := new Stack();
    for i := 0 to |values|
      invariant fresh(s) && s.Valid() && s.vals == PushAll([], values[..i])
      invariant forall k :: 0 <= k < |s.nodes| ==> fresh(s.nodes[k])
    {
      assert values[..i + 1][..i] == values[..i];
      s.Push(values[i]);
    }
    assert values[..|values|] == values;
    PushAllReversed([], values);
  }
}
