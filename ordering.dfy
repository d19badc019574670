/**
 * Three-way comparators, as the Go code receives them (`compare(v1, v2) int`),
 * and the sequence-level specifications that the sorted set and the list sort are
 * proved against.
 */
module Ordering {

  /**
   * What every caller of a comparing operation must supply: `cmp(a, b)` is negative,
   * zero or positive as `a` is less than, equivalent to or greater than `b`, and
   * "less or equivalent" is a total preorder.
   */
  ghost predicate IsComparator<T(!new)>(cmp: (T, T) -> int) {
    && (forall a :: cmp(a, a) == 0)
    && (forall a, b :: cmp(a, b) < 0 <==> cmp(b, a) > 0)
    && (forall a, b, c :: cmp(a, b) <= 0 && cmp(b, c) <= 0 ==> cmp(a, c) <= 0)
  }

  lemma LessLe<T(!new)>(cmp: (T, T) -> int, a: T, b: T, c: T)
    requires IsComparator(cmp)
    requires cmp(a, b) < 0 && cmp(b, c) <= 0
    ensures cmp(a, c) < 0
  {
  }

  lemma LeLess<T(!new)>(cmp: (T, T) -> int, a: T, b: T, c: T)
    requires IsComparator(cmp)
    requires cmp(a, b) <= 0 && cmp(b, c) < 0
    ensures cmp(a, c) < 0
  {
  }

  /** Strictly ascending: what an in-order walk of the sorted set yields. */
  ghost predicate Sorted<T>(s: seq<T>, cmp: (T, T) -> int) {
    forall i, j :: 0 <= i < j < |s| ==> cmp(s[i], s[j]) < 0
  }

  /** Ascending with ties allowed: what the list sort promises. */
  ghost predicate NonDecreasing<T>(s: seq<T>, cmp: (T, T) -> int) {
    forall i, j :: 0 <= i < j < |s| ==> cmp(s[i], s[j]) <= 0
  }

  /** Some element of `s` compares equal to `v`. */
  ghost predicate Member<T>(s: seq<T>, v: T, cmp: (T, T) -> int) {
    exists i :: 0 <= i < |s| && cmp(v, s[i]) == 0
  }

  /**
   * Reference definition of a set insertion on a strictly ascending sequence:
   * `v` goes before the first greater element, or replaces an equivalent one.
   */
  function SortedInsert<T>(s: seq<T>, v: T, cmp: (T, T) -> int): seq<T> {
    if s == [] then [v]
    else if cmp(v, s[0]) < 0 then [v] + s
    else if cmp(v, s[0]) == 0 then [v] + s[1..]
    else [s[0]] + SortedInsert(s[1..], v, cmp)
  }

  /** Reference definition of a set removal: drop the first element equivalent to `v`. */
  function SortedDelete<T>(s: seq<T>, v: T, cmp: (T, T) -> int): seq<T> {
    if s == [] then []
    else if cmp(v, s[0]) == 0 then s[1..]
    else [s[0]] + SortedDelete(s[1..], v, cmp)
  }

  // ---------------------------------------------------------------------------
  // Lemmas about the reference definitions

  /** An insertion that goes left of `x` leaves `x` and everything after it in place. */
  lemma {:induction false} InsertLeftOf<T>(l: seq<T>, x: T, r: seq<T>, v: T, cmp: (T, T) -> int)
    requires cmp(v, x) < 0
    ensures SortedInsert(l + [x] + r, v, cmp) == SortedInsert(l, v, cmp) + [x] + r
  {
    if l == [] {
      assert l + [x] + r == [x] + r;
    } else {
      assert (l + [x] + r)[0] == l[0];
      assert (l + [x] + r)[1..] == l[1..] + [x] + r;
      if cmp(v, l[0]) > 0 {
        InsertLeftOf(l[1..], x, r, v, cmp);
      }
    }
  }

  /** An insertion past a prefix of smaller elements leaves that prefix in place. */
  lemma {:induction false} InsertRightOf<T>(l: seq<T>, rest: seq<T>, v: T, cmp: (T, T) -> int)
    requires forall i :: 0 <= i < |l| ==> cmp(v, l[i]) > 0
    ensures SortedInsert(l + rest, v, cmp) == l + SortedInsert(rest, v, cmp)
  {
    if l != [] {
      assert (l + rest)[1..] == l[1..] + rest;
      calc {
        SortedInsert(l + rest, v, cmp);
        { assert (l + rest)[0] == l[0]; }
        [l[0]] + SortedInsert(l[1..] + rest, v, cmp);
        { InsertRightOf(l[1..], rest, v, cmp); }
        [l[0]] + (l[1..] + SortedInsert(rest, v, cmp));
        { assert l == [l[0]] + l[1..]; }
        l + SortedInsert(rest, v, cmp);
      }
    } else {
      assert l + rest == rest;
    }
  }

  /** In a strictly ascending sequence, an insertion at or past `x` leaves everything before `x` in place. */
  lemma InsertPastPrefix<T(!new)>(l: seq<T>, x: T, r: seq<T>, v: T, cmp: (T, T) -> int)
    requires IsComparator(cmp) && Sorted(l + [x] + r, cmp) && cmp(v, x) >= 0
    ensures SortedInsert(l + [x] + r, v, cmp) == l + SortedInsert([x] + r, v, cmp)
  {
    var s := l + [x] + r;
    forall i | 0 <= i < |l| ensures cmp(v, l[i]) > 0 {
      assert s[i] == l[i] && s[|l|] == x;
      LessLe(cmp, l[i], x, v);
    }
    InsertRightOf(l, [x] + r, v, cmp);
    assert s == l + ([x] + r);
  }

  /** Such an insertion either replaces `x` or goes on into what follows it. */
  lemma InsertAtOrAfter<T(!new)>(l: seq<T>, x: T, r: seq<T>, v: T, cmp: (T, T) -> int)
    requires IsComparator(cmp) && Sorted(l + [x] + r, cmp) && cmp(v, x) >= 0
    ensures SortedInsert(l + [x] + r, v, cmp)
         == if cmp(v, x) == 0 then l + [v] + r else l + [x] + SortedInsert(r, v, cmp)
  {
    InsertPastPrefix(l, x, r, v, cmp);
    assert ([x] + r)[0] == x && ([x] + r)[1..] == r;
    if cmp(v, x) == 0 {
      assert l + ([v] + r) == l + [v] + r;
    } else {
      var rest := SortedInsert(r, v, cmp);
      assert SortedInsert([x] + r, v, cmp) == [x] + rest;
      assert l + ([x] + rest) == l + [x] + rest;
    }
  }

  /** Insertion adds `v` and keeps every element except an equivalent one it replaces. */
  lemma {:induction false} InsertElements<T>(s: seq<T>, v: T, cmp: (T, T) -> int)
    ensures v in SortedInsert(s, v, cmp)
    ensures forall y :: y in SortedInsert(s, v, cmp) ==> y in s || y == v
    ensures forall y :: y in s && cmp(v, y) != 0 ==> y in SortedInsert(s, v, cmp)
  {
    if s != [] && cmp(v, s[0]) > 0 {
      InsertElements(s[1..], v, cmp);
      assert forall y :: y in s ==> y == s[0] || y in s[1..];
    }
  }

  /** Inserting into a strictly ascending sequence keeps it strictly ascending. */
  lemma {:induction false} InsertSorted<T(!new)>(s: seq<T>, v: T, cmp: (T, T) -> int)
    requires IsComparator(cmp) && Sorted(s, cmp)
    ensures Sorted(SortedInsert(s, v, cmp), cmp)
  {
    if s == [] {
    } else if cmp(v, s[0]) < 0 {
      var r := [v] + s;
      forall i, j | 0 <= i < j < |r| ensures cmp(r[i], r[j]) < 0 {
        if i == 0 && j > 1 { LessLe(cmp, v, s[0], s[j - 1]); }
      }
    } else if cmp(v, s[0]) == 0 {
      var r := [v] + s[1..];
      forall i, j | 0 <= i < j < |r| ensures cmp(r[i], r[j]) < 0 {
        if i == 0 { LeLess(cmp, v, s[0], s[j]); }
      }
    } else {
      var t := SortedInsert(s[1..], v, cmp);
      InsertSorted(s[1..], v, cmp);
      InsertElements(s[1..], v, cmp);
      var r := [s[0]] + t;
      forall i, j | 0 <= i < j < |r| ensures cmp(r[i], r[j]) < 0 {
        if i == 0 {
          assert r[j] in t;
          assert r[j] in s[1..] || r[j] == v;
        }
      }
    }
  }

  /** Insertion grows the sequence by one exactly when nothing equivalent was there. */
  lemma {:induction false} InsertLength<T(!new)>(s: seq<T>, v: T, cmp: (T, T) -> int)
    requires IsComparator(cmp) && Sorted(s, cmp)
    ensures |SortedInsert(s, v, cmp)| == if Member(s, v, cmp) then |s| else |s| + 1
  {
    if s == [] {
    } else if cmp(v, s[0]) < 0 {
      forall i | 0 <= i < |s| ensures cmp(v, s[i]) != 0 {
        if i > 0 { LessLe(cmp, v, s[0], s[i]); }
      }
    } else if cmp(v, s[0]) == 0 {
    } else {
      InsertLength(s[1..], v, cmp);
      assert Member(s, v, cmp) <==> Member(s[1..], v, cmp) by {
        if Member(s, v, cmp) {
          var i :| 0 <= i < |s| && cmp(v, s[i]) == 0;
          assert s[1..][i - 1] == s[i];
        }
        if Member(s[1..], v, cmp) {
          var i :| 0 <= i < |s[1..]| && cmp(v, s[1..][i]) == 0;
          assert s[i + 1] == s[1..][i];
        }
      }
    }
  }

  /** A deletion finds its match in the first part if there is one, else in the second. */
  lemma {:induction false} DeleteAppend<T>(a: seq<T>, b: seq<T>, v: T, cmp: (T, T) -> int)
    ensures SortedDelete(a + b, v, cmp)
         == if Member(a, v, cmp) then SortedDelete(a, v, cmp) + b else a + SortedDelete(b, v, cmp)
  {
    if a == [] {
      assert a + b == b;
    } else {
      assert (a + b)[0] == a[0];
      assert (a + b)[1..] == a[1..] + b;
      DeleteAppend(a[1..], b, v, cmp);
      MemberCons(a, v, cmp);
    }
  }

  lemma MemberCons<T>(s: seq<T>, v: T, cmp: (T, T) -> int)
    requires s != []
    ensures Member(s, v, cmp) <==> cmp(v, s[0]) == 0 || Member(s[1..], v, cmp)
  {
    if Member(s, v, cmp) && cmp(v, s[0]) != 0 {
      var i :| 0 <= i < |s| && cmp(v, s[i]) == 0;
      assert s[1..][i - 1] == s[i];
    }
    if Member(s[1..], v, cmp) {
      var i :| 0 <= i < |s[1..]| && cmp(v, s[1..][i]) == 0;
      assert s[i + 1] == s[1..][i];
    }
  }

  /** Deleting something absent changes nothing. */
  lemma {:induction false} DeleteAbsent<T>(s: seq<T>, v: T, cmp: (T, T) -> int)
    requires !Member(s, v, cmp)
    ensures SortedDelete(s, v, cmp) == s
  {
    if s != [] {
      MemberCons(s, v, cmp);
      DeleteAbsent(s[1..], v, cmp);
    }
  }

  /** Deleting keeps the order of the rest and only ever drops one element. */
  lemma {:induction false} DeleteElements<T>(s: seq<T>, v: T, cmp: (T, T) -> int)
    ensures |SortedDelete(s, v, cmp)| == if Member(s, v, cmp) then |s| - 1 else |s|
    ensures forall y :: y in SortedDelete(s, v, cmp) ==> y in s
  {
    if s != [] {
      MemberCons(s, v, cmp);
      if cmp(v, s[0]) != 0 {
        DeleteElements(s[1..], v, cmp);
      }
    }
  }

  /** Deleting from a strictly ascending sequence keeps it strictly ascending. */
  lemma {:induction false} DeleteSorted<T>(s: seq<T>, v: T, cmp: (T, T) -> int)
    requires Sorted(s, cmp)
    ensures Sorted(SortedDelete(s, v, cmp), cmp)
  {
    if s != [] && cmp(v, s[0]) != 0 {
      var t := SortedDelete(s[1..], v, cmp);
      DeleteSorted(s[1..], v, cmp);
      DeleteElements(s[1..], v, cmp);
      var r := [s[0]] + t;
      forall i, j | 0 <= i < j < |r| ensures cmp(r[i], r[j]) < 0 {
        if i == 0 {
          assert r[j] in s[1..];
        }
      }
    }
  }

  /** After deleting `v` from a strictly ascending sequence nothing equivalent to it is left. */
  lemma {:induction false} DeleteLeavesNone<T(!new)>(s: seq<T>, v: T, cmp: (T, T) -> int)
    requires IsComparator(cmp) && Sorted(s, cmp)
    ensures !Member(SortedDelete(s, v, cmp), v, cmp)
  {
    if s == [] {
    } else if cmp(v, s[0]) == 0 {
      forall i | 0 <= i < |s| - 1 ensures cmp(v, s[1..][i]) != 0 {
        LeLess(cmp, v, s[0], s[i + 1]);
      }
    } else {
      DeleteLeavesNone(s[1..], v, cmp);
      MemberCons([s[0]] + SortedDelete(s[1..], v, cmp), v, cmp);
    }
  }

  /** Some element of `a + b` is equivalent to `v` exactly when one of `a` or of `b` is. */
  lemma MemberAppend<T>(a: seq<T>, b: seq<T>, v: T, cmp: (T, T) -> int)
    ensures Member(a + b, v, cmp) <==> Member(a, v, cmp) || Member(b, v, cmp)
  {
    if Member(a + b, v, cmp) {
      var i :| 0 <= i < |a + b| && cmp(v, (a + b)[i]) == 0;
      if i < |a| {
        assert a[i] == (a + b)[i];
      } else {
        assert b[i - |a|] == (a + b)[i];
      }
    }
    if Member(a, v, cmp) {
      var i :| 0 <= i < |a| && cmp(v, a[i]) == 0;
      assert (a + b)[i] == a[i];
    }
    if Member(b, v, cmp) {
      var i :| 0 <= i < |b| && cmp(v, b[i]) == 0;
      assert (a + b)[|a| + i] == b[i];
    }
  }

  /** In a strictly ascending sequence a value below `x` is deleted, if at all, left of `x`. */
  lemma DeleteLeftOf<T(!new)>(l: seq<T>, x: T, r: seq<T>, v: T, cmp: (T, T) -> int)
    requires IsComparator(cmp) && Sorted(l + [x] + r, cmp) && cmp(v, x) < 0
    ensures SortedDelete(l + [x] + r, v, cmp) == SortedDelete(l, v, cmp) + [x] + r
    ensures Member(l + [x] + r, v, cmp) <==> Member(l, v, cmp)
  {
    var s, rest := l + [x] + r, [x] + r;
    assert s == l + rest;
    assert !Member(rest, v, cmp) by {
      forall i | 0 <= i < |rest| ensures cmp(v, rest[i]) != 0 {
        if i > 0 {
          assert s[|l|] == x && s[|l| + i] == rest[i];
          LessLe(cmp, v, x, rest[i]);
        }
      }
    }
    DeleteAppend(l, rest, v, cmp);
    MemberAppend(l, rest, v, cmp);
    if !Member(l, v, cmp) {
      DeleteAbsent(l, v, cmp);
      DeleteAbsent(rest, v, cmp);
    }
    assert SortedDelete(l, v, cmp) + [x] + r == SortedDelete(l, v, cmp) + rest;
  }

  /** In a strictly ascending sequence a value above `x` is deleted, if at all, right of `x`. */
  lemma DeleteRightOf<T(!new)>(l: seq<T>, x: T, r: seq<T>, v: T, cmp: (T, T) -> int)
    requires IsComparator(cmp) && Sorted(l + [x] + r, cmp) && cmp(v, x) > 0
    ensures SortedDelete(l + [x] + r, v, cmp) == l + [x] + SortedDelete(r, v, cmp)
    ensures Member(l + [x] + r, v, cmp) <==> Member(r, v, cmp)
  {
    var s := l + [x] + r;
    forall i | 0 <= i < |l + [x]| ensures cmp(v, (l + [x])[i]) != 0 {
      if i < |l| {
        assert s[i] == (l + [x])[i] && s[|l|] == x;
        LessLe(cmp, (l + [x])[i], x, v);
      }
    }
    DeleteAppend(l + [x], r, v, cmp);
    DeleteElements(s, v, cmp);
    DeleteElements(r, v, cmp);
  }

  /** In a strictly ascending sequence, deleting a value equivalent to `x` removes exactly `x`. */
  lemma DeleteAt<T(!new)>(l: seq<T>, x: T, r: seq<T>, v: T, cmp: (T, T) -> int)
    requires IsComparator(cmp) && Sorted(l + [x] + r, cmp) && cmp(v, x) == 0
    ensures SortedDelete(l + [x] + r, v, cmp) == l + r
    ensures Member(l + [x] + r, v, cmp)
  {
    var s := l + [x] + r;
    assert s == l + ([x] + r);
    forall i | 0 <= i < |l| ensures cmp(v, l[i]) != 0 {
      assert s[i] == l[i] && s[|l|] == x;
      LessLe(cmp, l[i], x, v);
    }
    DeleteAppend(l, [x] + r, v, cmp);
    assert ([x] + r)[1..] == r;
    assert s[|l|] == x;
  }

  /**
   * In a strictly ascending sequence, deleting a value equivalent to `x` is the same as
   * putting the first value after `x` in its place and deleting that value from the rest.
   */
  lemma DeleteBySuccessor<T(!new)>(l: seq<T>, x: T, r: seq<T>, v: T, cmp: (T, T) -> int)
    requires IsComparator(cmp) && Sorted(l + [x] + r, cmp) && cmp(v, x) == 0 && r != []
    ensures SortedDelete(r, r[0], cmp) == r[1..]
    ensures l + [r[0]] + r[1..] == SortedDelete(l + [x] + r, v, cmp)
    ensures Sorted(SortedDelete(l + [x] + r, v, cmp), cmp) && Member(l + [x] + r, v, cmp)
  {
    DeleteAt(l, x, r, v, cmp);
    DeleteSorted(l + [x] + r, v, cmp);
    assert r == [r[0]] + r[1..];
  }
}
