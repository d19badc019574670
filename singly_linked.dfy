/**
 * The nodes of the singly-linked chains behind the stack of stack.go and the queue of
 * queue.go (the two packages declare the same node type), and what it is for a sequence
 * of nodes to form such a chain.
 */
module SinglyLinked {
  /** A node: its value and the node after it (below it in a stack, behind it in a queue). */
  class Node<T> {
    var value: T
    var next: Node?<T>

    constructor (value: T, next: Node?<T>)
      ensures this.value == value && this.next == next
    {
      this.value, this.next := value, next;
    }
  }

  /** `ns` is a chain starting at `first`, each node holding the value at its index in `vs` and pointing at the next. */
  ghost predicate Chain<T>(ns: seq<Node<T>>, vs: seq<T>, first: Node?<T>)
    reads ns
  {
    && |vs| == |ns|
    && first == (if ns == [] then null else ns[0])
    && (forall i :: 0 <= i < |ns| ==> ns[i].value == vs[i])
    && (forall i :: 0 < i < |ns| ==> ns[i - 1].next == ns[i])
    && (ns != [] ==> ns[|ns| - 1].next == null)
  }

  /** After the first node of a chain comes the chain of the rest. */
  lemma ChainTail<T>(ns: seq<Node<T>>, vs: seq<T>, first: Node?<T>)
    requires Chain(ns, vs, first) && ns != []
    ensures Chain(ns[1..], vs[1..], ns[0].next)
  {
    if |ns| > 1 {
      assert ns[1..][0] == ns[1];
    }
    forall i | 0 < i < |ns| - 1 ensures ns[1..][i - 1].next == ns[1..][i] {
      assert ns[1..][i - 1] == ns[i] && ns[1..][i] == ns[i + 1];
    }
  }

  /** A node holding `v` over the chain from `rest` starts a chain one longer. */
  lemma ChainCons<T>(c: Node<T>, v: T, ns: seq<Node<T>>, vs: seq<T>, rest: Node?<T>)
    requires Chain(ns, vs, rest) && c.value == v && c.next == rest
    ensures Chain([c] + ns, [v] + vs, c)
  {
    var ns', vs' := [c] + ns, [v] + vs;
    forall i | 0 <= i < |ns'| ensures ns'[i].value == vs'[i] {
      if i > 0 {
        assert ns'[i] == ns[i - 1] && vs'[i] == vs[i - 1];
      }
    }
    forall i | 1 < i < |ns'| ensures ns'[i - 1].next == ns'[i] {
      assert ns'[i - 1] == ns[i - 2] && ns'[i] == ns[i - 1];
    }
  }
}
