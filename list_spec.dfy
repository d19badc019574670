/**
 * The sequence operations that the doubly-linked list performs on its front-to-back
 * contents, each with the property that makes it the operation list.go and
 * linkedlist.go describe. The list's methods are proved to act on their contents as
 * these functions do.
 */
module ListSpec {

  /** `s` with the element at index `i` taken out; the others keep their order. */
  function Without<T>(s: seq<T>, i: nat): (r: seq<T>)
    requires i < |s|
    ensures |r| == |s| - 1
  {
    s[..i] + s[i + 1..]
  }

  /** Taking an element out leaves only elements that were there. */
  lemma WithoutIn<T>(s: seq<T>, i: nat)
    requires i < |s|
    ensures forall x :: x in Without(s, i) ==> x in s
  {
    assert forall x :: x in s[..i] ==> x in s;
    assert forall x :: x in s[i + 1..] ==> x in s;
  }

  /** Taking an element out loses exactly that element. */
  lemma WithoutMultiset<T>(s: seq<T>, i: nat)
    requires i < |s|
    ensures multiset(Without(s, i)) == multiset(s) - multiset{s[i]}
  {
    assert s == s[..i] + [s[i]] + s[i + 1..];
  }

  /** `s` with `x` placed at index `k`; the elements from `k` on move one place back. */
  function InsertAt<T>(s: seq<T>, k: nat, x: T): (r: seq<T>)
    requires k <= |s|
    ensures |r| == |s| + 1 && r[k] == x
  {
    s[..k] + [x] + s[k..]
  }

  /** Inserting adds exactly the new element, and taking it out again restores the sequence. */
  lemma InsertAtMultiset<T>(s: seq<T>, k: nat, x: T)
    requires k <= |s|
    ensures multiset(InsertAt(s, k, x)) == multiset(s) + multiset{x}
    ensures Without(InsertAt(s, k, x), k) == s
  {
    assert s == s[..k] + s[k..];
    var r := InsertAt(s, k, x);
    assert r[..k] == s[..k] && r[k + 1..] == s[k..];
  }

  /** No element occurs twice. */
  ghost predicate Distinct<T>(s: seq<T>) {
    forall i, j :: 0 <= i < j < |s| ==> s[i] != s[j]
  }

  /** Inserting an element that does not occur keeps the elements distinct. */
  lemma DistinctInsertAt<T>(s: seq<T>, k: nat, x: T)
    requires k <= |s| && Distinct(s) && x !in s
    ensures Distinct(InsertAt(s, k, x))
  {
    var r := InsertAt(s, k, x);
    forall i, j | 0 <= i < j < |r| ensures r[i] != r[j] {
      assert r[i] == if i < k then s[i] else if i == k then x else s[i - 1];
      assert r[j] == if j < k then s[j] else if j == k then x else s[j - 1];
    }
  }

  /** In a distinct sequence, two indices holding the same element are the same index. */
  lemma DistinctIndex<T>(s: seq<T>, a: nat, b: nat)
    requires Distinct(s) && a < |s| && b < |s| && s[a] == s[b]
    ensures a == b
  {
  }

  /** Taking an element out keeps the elements distinct. */
  lemma DistinctWithout<T>(s: seq<T>, k: nat)
    requires k < |s| && Distinct(s)
    ensures Distinct(Without(s, k))
  {
    var r := Without(s, k);
    forall i, j | 0 <= i < j < |r| ensures r[i] != r[j] {
      assert r[i] == s[if i < k then i else i + 1];
      assert r[j] == s[if j < k then j else j + 1];
    }
  }

  /** Taking out the first element after a cut `s[..i] + s[j..]` moves the cut one place on. */
  lemma WithoutAtCut<T>(s: seq<T>, i: nat, j: nat)
    requires i <= j < |s|
    ensures (s[..i] + s[j..])[i] == s[j]
    ensures Without(s[..i] + s[j..], i) == s[..i] + s[j + 1..]
  {
    var c := s[..i] + s[j..];
    assert c[..i] == s[..i] && c[i + 1..] == s[j + 1..];
  }

  /** `s` after `c` elements were taken out one by one at index `i`: the run `s[i..i + c]` is gone. */
  function Cut<T>(s: seq<T>, i: nat, c: nat): (r: seq<T>)
    requires i + c <= |s|
    ensures |r| == |s| - c
    decreases c
  {
    if c == 0 then s else Without(Cut(s, i, c - 1), i)
  }

  lemma {:induction false} CutIs<T>(s: seq<T>, i: nat, c: nat)
    requires i + c <= |s|
    ensures Cut(s, i, c) == s[..i] + s[i + c..]
    decreases c
  {
    if c == 0 {
      assert s == s[..i] + s[i..];
    } else {
      CutIs(s, i, c - 1);
      WithoutAtCut(s, i, i + c - 1);
    }
  }

  /** Taking out the element at `k` of a distinct sequence leaves no copy of it. */
  lemma WithoutExcludes<T>(s: seq<T>, k: nat)
    requires k < |s| && Distinct(s)
    ensures s[k] !in Without(s, k)
  {
    var r := Without(s, k);
    forall i | 0 <= i < |r| ensures r[i] != s[k] {
      assert r[i] == s[if i < k then i else i + 1];
    }
  }

  /** In a distinct sequence the first occurrence of an element is its only one. */
  lemma IndexOfDistinct<T>(s: seq<T>, k: nat)
    requires k < |s| && Distinct(s)
    ensures IndexOf(s, s[k]) == k
  {
    var i := IndexOf(s, s[k]);
    assert s[i] == s[k];
  }

  /**
   * MoveAfter on the contents: the element at `i` is taken out and put right after the
   * element that was at `j`. Nothing is lost or gained.
   */
  function MovedAfter<T>(s: seq<T>, i: nat, j: nat): (r: seq<T>)
    requires i < |s| && j < |s| && i != j
    ensures |r| == |s| && multiset(r) == multiset(s)
  {
    WithoutMultiset(s, i);
    InsertAtMultiset(Without(s, i), if j < i then j + 1 else j, s[i]);
    InsertAt(Without(s, i), if j < i then j + 1 else j, s[i])
  }

  /** Both moves, with the mark's index `m` counted once the moved element is out. */
  lemma MovedAt<T>(s: seq<T>, i: nat, j: nat, m: nat)
    requires i < |s| && j < |s| && i != j && m == if j < i then j else j - 1
    ensures MovedAfter(s, i, j) == InsertAt(Without(s, i), m + 1, s[i])
    ensures MovedBefore(s, i, j) == InsertAt(Without(s, i), m, s[i])
  {
  }

  /**
   * After MovedAfter the moved element sits right after the mark, and taking it out
   * again gives the other elements in their old order.
   */
  lemma MovedAfterPlaces<T>(s: seq<T>, i: nat, j: nat)
    requires i < |s| && j < |s| && i != j
    ensures var r, m := MovedAfter(s, i, j), if j < i then j else j - 1;
      r[m] == s[j] && r[m + 1] == s[i] && Without(r, m + 1) == Without(s, i)
  {
    var w := Without(s, i);
    var k := if j < i then j else j - 1;
    assert w[k] == s[j];
    var r := MovedAfter(s, i, j);
    InsertAtMultiset(w, k + 1, s[i]);
    assert r == w[..k + 1] + [s[i]] + w[k + 1..];
    assert r[k] == w[k];
  }

  /** Moving an element after the last one puts it at the end, the others keeping their order. */
  lemma MovedAfterLast<T>(s: seq<T>, i: nat)
    requires i < |s| - 1
    ensures MovedAfter(s, i, |s| - 1) == Without(s, i) + [s[i]]
  {
  }

  /** An element that is already last is the rest followed by itself. */
  lemma LastIsWithoutPlusLast<T>(s: seq<T>)
    requires s != []
    ensures s == Without(s, |s| - 1) + [s[|s| - 1]]
  {
  }

  /** An element that is already first is itself followed by the rest. */
  lemma FirstIsFirstPlusWithout<T>(s: seq<T>)
    requires s != []
    ensures s == [s[0]] + Without(s, 0)
  {
  }

  /** MoveBefore on the contents: the element at `i` is put right before the one that was at `j`. */
  function MovedBefore<T>(s: seq<T>, i: nat, j: nat): (r: seq<T>)
    requires i < |s| && j < |s| && i != j
    ensures |r| == |s| && multiset(r) == multiset(s)
  {
    WithoutMultiset(s, i);
    InsertAtMultiset(Without(s, i), if j < i then j else j - 1, s[i]);
    InsertAt(Without(s, i), if j < i then j else j - 1, s[i])
  }

  /**
   * After MovedBefore the moved element sits right before the mark, and taking it out
   * again gives the other elements in their old order.
   */
  lemma MovedBeforePlaces<T>(s: seq<T>, i: nat, j: nat)
    requires i < |s| && j < |s| && i != j
    ensures var r, m := MovedBefore(s, i, j), if j < i then j + 1 else j;
      r[m] == s[j] && r[m - 1] == s[i] && Without(r, m - 1) == Without(s, i)
  {
    var w := Without(s, i);
    var k := if j < i then j else j - 1;
    assert w[k] == s[j];
    var r := MovedBefore(s, i, j);
    InsertAtMultiset(w, k, s[i]);
    assert r == w[..k] + [s[i]] + w[k..];
    assert r[k + 1] == w[k];
  }

  /** Moving an element before the first one puts it at the front, the others keeping their order. */
  lemma MovedBeforeFirst<T>(s: seq<T>, i: nat)
    requires 0 < i < |s|
    ensures MovedBefore(s, i, 0) == [s[i]] + Without(s, i)
  {
  }

  /** The index of the first element satisfying `p`, or -1 when none does. */
  function FirstIndex<T>(s: seq<T>, p: T -> bool): (i: int)
    ensures -1 <= i < |s|
    ensures i == -1 <==> forall k :: 0 <= k < |s| ==> !p(s[k])
    ensures 0 <= i ==> p(s[i]) && forall k :: 0 <= k < i ==> !p(s[k])
  {
    if s == [] then -1
    else if p(s[0]) then 0
    else
      var i := FirstIndex(s[1..], p);
      if i == -1 then -1 else i + 1
  }

  /** The index of the first occurrence of `v`, or -1 when `v` does not occur. */
  function IndexOf<T(==)>(s: seq<T>, v: T): (i: int)
    ensures -1 <= i < |s|
    ensures i == -1 <==> v !in s
    ensures 0 <= i ==> s[i] == v && v !in s[..i]
  {
    FirstIndex(s, x => x == v)
  }

  /** Remove(v) on the contents: the first occurrence of `v` goes, if there is one. */
  function RemovedFirst<T(==)>(s: seq<T>, v: T): (r: seq<T>)
    ensures multiset(r) == multiset(s) - multiset{v}
    ensures |r| == if v in s then |s| - 1 else |s|
  {
    if v in s then
      WithoutMultiset(s, IndexOf(s, v));
      Without(s, IndexOf(s, v))
    else s
  }

  /** RemoveIf on the contents: the elements that do not meet `cond`, in their order. */
  function RemovedIf<T>(s: seq<T>, cond: T -> bool): (r: seq<T>)
    ensures |r| <= |s|
  {
    if s == [] then []
    else
      var init := RemovedIf(s[..|s| - 1], cond);
      if cond(s[|s| - 1]) then init else init + [s[|s| - 1]]
  }

  /**
   * The survivors of RemovedIf are exactly the elements that do not meet `cond`: each
   * survivor comes from `s` and fails `cond`, and each element of `s` that fails `cond`
   * survives.
   */
  lemma {:induction false} RemovedIfKeeps<T>(s: seq<T>, cond: T -> bool)
    ensures forall k :: 0 <= k < |RemovedIf(s, cond)| ==> RemovedIf(s, cond)[k] in s && !cond(RemovedIf(s, cond)[k])
    ensures forall k :: 0 <= k < |s| && !cond(s[k]) ==> s[k] in RemovedIf(s, cond)
  {
    if s != [] {
      var init, last := s[..|s| - 1], s[|s| - 1];
      assert s == init + [last];
      RemovedIfKeeps(init, cond);
      var r, ri := RemovedIf(s, cond), RemovedIf(init, cond);
      forall k | 0 <= k < |r| ensures r[k] in s && !cond(r[k]) {
        if k < |ri| {
          assert r[k] == ri[k];
        }
      }
      forall k | 0 <= k < |s| && !cond(s[k]) ensures s[k] in r {
        if k < |init| {
          assert s[k] == init[k] && init[k] in ri;
        }
      }
    }
  }

  /** RemovedIf works piecewise, so the survivors keep their relative order. */
  lemma {:induction false} RemovedIfAppend<T>(a: seq<T>, b: seq<T>, cond: T -> bool)
    ensures RemovedIf(a + b, cond) == RemovedIf(a, cond) + RemovedIf(b, cond)
    decreases |b|
  {
    if b == [] {
      assert a + b == a;
    } else {
      var b' := b[..|b| - 1];
      assert (a + b)[..|a + b| - 1] == a + b';
      RemovedIfAppend(a, b', cond);
    }
  }

  /** When no element meets `cond`, nothing is removed. */
  lemma {:induction false} RemovedIfNone<T>(s: seq<T>, cond: T -> bool)
    requires forall k :: 0 <= k < |s| ==> !cond(s[k])
    ensures RemovedIf(s, cond) == s
  {
    if s != [] {
      var init := s[..|s| - 1];
      assert s == init + [s[|s| - 1]];
      RemovedIfNone(init, cond);
    }
  }

  /** The survivors and the removed elements together are the original elements. */
  lemma {:induction false} RemovedIfSplits<T>(s: seq<T>, cond: T -> bool)
    ensures multiset(RemovedIf(s, cond)) + multiset(Taken(s, cond)) == multiset(s)
  {
    if s != [] {
      var init, last := s[..|s| - 1], s[|s| - 1];
      assert s == init + [last];
      RemovedIfSplits(init, cond);
    }
  }

  /** `x` meets `cond`: the test RemoveIf applies to each value. */
  predicate Meets<T>(cond: T -> bool, x: T)
  {
    cond(x)
  }

  /** The elements of `es` whose values in `vs` do not meet `cond`: the elements RemoveIf keeps. */
  function KeptBy<E, T>(es: seq<E>, vs: seq<T>, cond: T -> bool): (r: seq<E>)
    requires |es| == |vs|
    ensures |r| == |RemovedIf(vs, cond)|
  {
    if es == [] then []
    else
      var n := |es| - 1;
      var init := KeptBy(es[..n], vs[..n], cond);
      if cond(vs[n]) then init else init + [es[n]]
  }

  /** The kept elements all come from `es`. */
  lemma {:induction false} KeptByIn<E, T>(es: seq<E>, vs: seq<T>, cond: T -> bool)
    requires |es| == |vs|
    ensures forall x :: x in KeptBy(es, vs, cond) ==> x in es
  {
    if es != [] {
      var n := |es| - 1;
      KeptByIn(es[..n], vs[..n], cond);
      assert forall x :: x in es[..n] ==> x in es;
    }
  }

  /** The kept elements before index `i`, followed by the rest of `es`, all come from `es`. */
  lemma KeptThenRestIn<E, T>(es: seq<E>, vs: seq<T>, cond: T -> bool, i: nat)
    requires i <= |es| == |vs|
    ensures forall x :: x in KeptBy(es[..i], vs[..i], cond) + es[i..] ==> x in es
  {
    KeptByIn(es[..i], vs[..i], cond);
    assert forall x :: x in es[..i] ==> x in es;
  }

  /** One more element considered by RemoveIf: it is kept, or taken, according to `cond`. */
  lemma FilterStep<E, T>(es: seq<E>, vs: seq<T>, cond: T -> bool, i: nat)
    requires i < |es| == |vs|
    ensures KeptBy(es[..i + 1], vs[..i + 1], cond) == KeptBy(es[..i], vs[..i], cond) + (if cond(vs[i]) then [] else [es[i]])
    ensures RemovedIf(vs[..i + 1], cond) == RemovedIf(vs[..i], cond) + (if cond(vs[i]) then [] else [vs[i]])
    ensures Taken(vs[..i + 1], cond) == Taken(vs[..i], cond) + (if cond(vs[i]) then [vs[i]] else [])
  {
    assert es[..i + 1][..i] == es[..i] && vs[..i + 1][..i] == vs[..i];
  }

  /** The first element after a prefix `a` can join the prefix or be taken out. */
  lemma AdvanceCut<T>(a: seq<T>, b: seq<T>, i: nat)
    requires i < |b|
    ensures (a + b[i..])[|a|] == b[i] && (i + 1 < |b| ==> (a + b[i..])[|a| + 1] == b[i + 1])
    ensures a + b[i..] == (a + [b[i]]) + b[i + 1..]
    ensures Without(a + b[i..], |a|) == a + b[i + 1..]
  {
    assert b[i..] == [b[i]] + b[i + 1..];
  }

  /**
   * RemoveIf's step on the contents: with the elements before index `i` filtered, the one
   * at `i` sits right after the kept ones; taking it out when its value meets `cond`, or
   * keeping it otherwise, filters the elements up to `i + 1`.
   */
  lemma FilterAdvance<E, T>(es: seq<E>, vs: seq<T>, cond: T -> bool, i: nat)
    requires i < |es| == |vs|
    ensures var k, ke, kv := |KeptBy(es[..i], vs[..i], cond)|, KeptBy(es[..i], vs[..i], cond) + es[i..], RemovedIf(vs[..i], cond) + vs[i..];
      && k < |ke| == |kv| && ke[k] == es[i] && kv[k] == vs[i]
      && (i + 1 < |es| ==> ke[k + 1] == es[i + 1])
      && (cond(vs[i]) ==> Without(ke, k) == KeptBy(es[..i + 1], vs[..i + 1], cond) + es[i + 1..])
      && (cond(vs[i]) ==> Without(kv, k) == RemovedIf(vs[..i + 1], cond) + vs[i + 1..])
      && (!cond(vs[i]) ==> ke == KeptBy(es[..i + 1], vs[..i + 1], cond) + es[i + 1..])
      && (!cond(vs[i]) ==> kv == RemovedIf(vs[..i + 1], cond) + vs[i + 1..])
  {
    var kept, rest := KeptBy(es[..i], vs[..i], cond), RemovedIf(vs[..i], cond);
    FilterStep(es, vs, cond, i);
    AdvanceCut(kept, es, i);
    AdvanceCut(rest, vs, i);
    if cond(vs[i]) {
      assert KeptBy(es[..i + 1], vs[..i + 1], cond) == kept;
      assert RemovedIf(vs[..i + 1], cond) == rest;
    } else {
      assert KeptBy(es[..i + 1], vs[..i + 1], cond) == kept + [es[i]];
      assert RemovedIf(vs[..i + 1], cond) == rest + [vs[i]];
    }
  }

  /**
   * The values after RemoveIf has looked at the first `i` of them: each one meeting
   * `cond` taken out where the filtered prefix ends.
   */
  function SiftedValues<T>(vs: seq<T>, cond: T -> bool, i: nat): (r: seq<T>)
    requires i <= |vs|
    decreases i
  {
    if i == 0 then vs
    else
      var p, k := SiftedValues(vs, cond, i - 1), |RemovedIf(vs[..i - 1], cond)|;
      if Meets(cond, vs[i - 1]) && k < |p| then Without(p, k) else p
  }

  /** The elements after RemoveIf has looked at the first `i` of them, as SiftedValues. */
  function SiftedElems<E, T>(es: seq<E>, vs: seq<T>, cond: T -> bool, i: nat): (r: seq<E>)
    requires i <= |es| == |vs|
    decreases i
  {
    if i == 0 then es
    else
      var p, k := SiftedElems(es, vs, cond, i - 1), |KeptBy(es[..i - 1], vs[..i - 1], cond)|;
      if Meets(cond, vs[i - 1]) && k < |p| then Without(p, k) else p
  }

  /** After `i` steps the filtered prefix is followed by the values not looked at yet. */
  lemma SiftedIs<E, T>(es: seq<E>, vs: seq<T>, cond: T -> bool, i: nat)
    requires i <= |es| == |vs|
    ensures SiftedElems(es, vs, cond, i) == KeptBy(es[..i], vs[..i], cond) + es[i..]
    ensures SiftedValues(vs, cond, i) == RemovedIf(vs[..i], cond) + vs[i..]
  {
    SiftedElemsIs(es, vs, cond, i);
    SiftedValuesIs(es, vs, cond, i);
  }

  lemma {:induction false} SiftedElemsIs<E, T>(es: seq<E>, vs: seq<T>, cond: T -> bool, i: nat)
    requires i <= |es| == |vs|
    ensures SiftedElems(es, vs, cond, i) == KeptBy(es[..i], vs[..i], cond) + es[i..]
    decreases i
  {
    if i == 0 {
      assert es[..0] == [] && vs[..0] == [] && es[0..] == es;
    } else {
      var p := KeptBy(es[..i - 1], vs[..i - 1], cond) + es[i - 1..];
      SiftedElemsIs(es, vs, cond, i - 1);
      FilterAdvance(es, vs, cond, i - 1);
      if Meets(cond, vs[i - 1]) {
        assert SiftedElems(es, vs, cond, i) == Without(p, |KeptBy(es[..i - 1], vs[..i - 1], cond)|);
      } else {
        assert SiftedElems(es, vs, cond, i) == p;
      }
    }
  }

  lemma {:induction false} SiftedValuesIs<E, T>(es: seq<E>, vs: seq<T>, cond: T -> bool, i: nat)
    requires i <= |es| == |vs|
    ensures SiftedValues(vs, cond, i) == RemovedIf(vs[..i], cond) + vs[i..]
    decreases i
  {
    if i == 0 {
      assert vs[..0] == [] && vs[0..] == vs;
    } else {
      var rest := RemovedIf(vs[..i - 1], cond);
      SiftedValuesIs(es, vs, cond, i - 1);
      FilterStep(es, vs, cond, i - 1);
      AdvanceCut(rest, vs, i - 1);
      if Meets(cond, vs[i - 1]) {
        assert RemovedIf(vs[..i], cond) == rest;
      } else {
        assert RemovedIf(vs[..i], cond) == rest + [vs[i - 1]];
      }
    }
  }

  /** The elements meeting `cond`, in order: what RemoveIf takes out. */
  function Taken<T>(s: seq<T>, cond: T -> bool): (r: seq<T>)
    ensures |r| <= |s|
  {
    if s == [] then []
    else
      var init := Taken(s[..|s| - 1], cond);
      if cond(s[|s| - 1]) then init + [s[|s| - 1]] else init
  }

  /** Every element RemoveIf takes out meets `cond`. */
  lemma {:induction false} TakenMeets<T>(s: seq<T>, cond: T -> bool)
    ensures forall k :: 0 <= k < |Taken(s, cond)| ==> cond(Taken(s, cond)[k])
  {
    if s != [] {
      var init := s[..|s| - 1];
      TakenMeets(init, cond);
      var t, ti := Taken(s, cond), Taken(init, cond);
      forall k | 0 <= k < |t| ensures cond(t[k]) {
        if k < |ti| {
          assert t[k] == ti[k];
        }
      }
    }
  }

  /** The elements RemoveIf takes out and the survivors together number as many as `s`. */
  lemma {:induction false} TakenLength<T>(s: seq<T>, cond: T -> bool)
    ensures |Taken(s, cond)| + |RemovedIf(s, cond)| == |s|
  {
    if s != [] {
      TakenLength(s[..|s| - 1], cond);
    }
  }

  /** One more element of `s`, taken from the back, put in front of what was gathered. */
  lemma PrependFrom<T>(s: seq<T>, j: nat, rest: seq<T>)
    requires 0 < j <= |s|
    ensures s[j - 1..] + rest == [s[j - 1]] + (s[j..] + rest)
  {
    assert s[j - 1..] == [s[j - 1]] + s[j..];
  }

  /** One more element of `s`, taken from the front, put after what was gathered. */
  lemma AppendFrom<T>(s: seq<T>, i: nat, base: seq<T>)
    requires i < |s|
    ensures base + s[..i + 1] == (base + s[..i]) + [s[i]]
  {
    assert s[..i + 1] == s[..i] + [s[i]];
  }

  /** `a` and `b` have the same length and `equals` holds between the values at each index. */
  predicate Pairwise<T>(a: seq<T>, b: seq<T>, equals: (T, T) -> bool)
  {
    |a| == |b| && forall k :: 0 <= k < |a| ==> equals(a[k], b[k])
  }

  /** With `==` as the comparator, pairwise equality is equality of the sequences. */
  lemma PairwiseIsEquality<T>(a: seq<T>, b: seq<T>)
    ensures Pairwise(a, b, (x, y) => x == y) <==> a == b
  {
    if Pairwise(a, b, (x, y) => x == y) {
      assert forall k :: 0 <= k < |a| ==> a[k] == b[k];
    }
  }

  /** Exchanging two elements keeps the multiset of elements. */
  function Swapped<T>(s: seq<T>, i: nat, j: nat): (r: seq<T>)
    requires i < |s| && j < |s|
    ensures |r| == |s| && multiset(r) == multiset(s)
    ensures r[i] == s[j] && r[j] == s[i]
    ensures forall k :: 0 <= k < |s| && k != i && k != j ==> r[k] == s[k]
  {
    s[i := s[j]][j := s[i]]
  }
}
