/**
 * What the list's two sorting algorithms do to the values, stated on sequences: the
 * selection sort of selectionSort grows a sorted prefix, and the quicksort of
 * quickSortRecursive partitions a range around its last value (Lomuto's scheme) and
 * sorts the two sides. Values only move by exchanges, so each step rearranges a range.
 */
module ListSort {
  import opened Ordering
  import opened ListSpec

  /** Every value of `s` compares at most `x`: the left side of a partition. */
  ghost predicate AtMost<T>(s: seq<T>, x: T, cmp: (T, T) -> int) {
    forall k :: 0 <= k < |s| ==> cmp(s[k], x) <= 0
  }

  /** Every value of `s` compares above `x`: the right side of a partition. */
  ghost predicate Above<T>(s: seq<T>, x: T, cmp: (T, T) -> int) {
    forall k :: 0 <= k < |s| ==> cmp(s[k], x) > 0
  }

  /**
   * `t` is `s` with the values at indices `lo` to `hi` (both included) rearranged and
   * every other value left in place.
   */
  ghost predicate Rearranged<T>(s: seq<T>, t: seq<T>, lo: int, hi: int) {
    && |t| == |s| && 0 <= lo <= hi + 1 <= |s|
    && (forall k :: 0 <= k < |s| && (k < lo || hi < k) ==> t[k] == s[k])
    && multiset(t[lo..hi + 1]) == multiset(s[lo..hi + 1])
  }

  lemma RearrangedSame<T>(s: seq<T>, lo: int, hi: int)
    requires 0 <= lo <= hi + 1 <= |s|
    ensures Rearranged(s, s, lo, hi)
  {
  }

  /** Rearranging the whole sequence keeps its multiset of values. */
  lemma RearrangedAll<T>(s: seq<T>, t: seq<T>)
    requires Rearranged(s, t, 0, |s| - 1)
    ensures multiset(t) == multiset(s)
  {
    assert t[0..|s|] == t && s[0..|s|] == s;
  }

  /** Splitting a range's multiset at `a` and `b`. */
  lemma SplitRange<T>(s: seq<T>, lo: int, a: int, b: int, hi: int)
    requires 0 <= lo <= a <= b + 1 <= hi + 1 <= |s|
    ensures multiset(s[lo..hi + 1]) == multiset(s[lo..a]) + multiset(s[a..b + 1]) + multiset(s[b + 1..hi + 1])
  {
    assert s[lo..hi + 1] == s[lo..a] + s[a..b + 1] + s[b + 1..hi + 1];
  }

  /** A rearrangement of a sub-range is a rearrangement of any range around it. */
  lemma RearrangedWiden<T>(s: seq<T>, t: seq<T>, lo: int, a: int, b: int, hi: int)
    requires Rearranged(s, t, a, b) && 0 <= lo <= a && b <= hi && hi < |s|
    ensures Rearranged(s, t, lo, hi)
  {
    SplitRange(s, lo, a, b, hi);
    SplitRange(t, lo, a, b, hi);
    assert t[lo..a] == s[lo..a];
    assert t[b + 1..hi + 1] == s[b + 1..hi + 1];
  }

  /** Two rearrangements of the same range make one. */
  lemma RearrangedThen<T>(s: seq<T>, t: seq<T>, u: seq<T>, lo: int, hi: int)
    requires Rearranged(s, t, lo, hi) && Rearranged(t, u, lo, hi)
    ensures Rearranged(s, u, lo, hi)
  {
  }

  /** Exchanging two values inside a range rearranges it. */
  lemma SwappedRearranges<T>(s: seq<T>, lo: int, hi: int, i: nat, j: nat)
    requires 0 <= lo <= i <= hi < |s| && lo <= j <= hi
    ensures Rearranged(s, Swapped(s, i, j), lo, hi)
  {
    var t := Swapped(s, i, j);
    assert t[lo..hi + 1] == Swapped(s[lo..hi + 1], i - lo, j - lo);
  }

  /** A bound that holds for every value of a range holds after rearranging it. */
  lemma AtMostKept<T>(a: seq<T>, b: seq<T>, x: T, cmp: (T, T) -> int)
    requires multiset(a) == multiset(b) && AtMost(b, x, cmp)
    ensures AtMost(a, x, cmp)
  {
    forall k | 0 <= k < |a| ensures cmp(a[k], x) <= 0 {
      assert a[k] in multiset(b);
      var j :| 0 <= j < |b| && b[j] == a[k];
    }
  }

  lemma AboveKept<T>(a: seq<T>, b: seq<T>, x: T, cmp: (T, T) -> int)
    requires multiset(a) == multiset(b) && Above(b, x, cmp)
    ensures Above(a, x, cmp)
  {
    forall k | 0 <= k < |a| ensures cmp(a[k], x) > 0 {
      assert a[k] in multiset(b);
      var j :| 0 <= j < |b| && b[j] == a[k];
    }
  }

  /**
   * A sorted left side whose values are at most `x`, then `x`, then a sorted right
   * side whose values are above `x`, is sorted.
   */
  lemma JoinAround<T(!new)>(l: seq<T>, x: T, r: seq<T>, cmp: (T, T) -> int)
    requires IsComparator(cmp)
    requires NonDecreasing(l, cmp) && AtMost(l, x, cmp)
    requires NonDecreasing(r, cmp) && Above(r, x, cmp)
    ensures NonDecreasing(l + [x] + r, cmp)
  {
    var s := l + [x] + r;
    forall i, j | 0 <= i < j < |s| ensures cmp(s[i], s[j]) <= 0 {
      if j < |l| {
        assert s[i] == l[i] && s[j] == l[j];
      } else if j == |l| {
        assert s[i] == l[i];
      } else if i < |l| {
        assert s[i] == l[i] && s[j] == r[j - |l| - 1];
        assert cmp(r[j - |l| - 1], x) > 0;
      } else if i == |l| {
        assert s[j] == r[j - |l| - 1];
      } else {
        assert s[i] == r[i - |l| - 1] && s[j] == r[j - |l| - 1];
      }
    }
  }

  /**
   * The partition of the range from `lo` to `hi` of `s` has reached index `q`: the
   * values up to index `b` compare at most the pivot value kept at `hi`, those from
   * `b + 1` to `q - 1` above it.
   */
  ghost predicate Parted<T>(s: seq<T>, lo: int, b: int, q: int, hi: int, cmp: (T, T) -> int) {
    && 0 <= lo && lo - 1 <= b < q <= hi < |s|
    && AtMost(s[lo..b + 1], s[hi], cmp) && Above(s[b + 1..q], s[hi], cmp)
  }

  /**
   * The range from `lo` to `hi` of `s` is split around the pivot value at `p`: the values
   * before it compare at most it, those after it above it.
   */
  ghost predicate SplitAt<T>(s: seq<T>, lo: int, p: int, hi: int, cmp: (T, T) -> int) {
    && 0 <= lo <= p <= hi < |s|
    && AtMost(s[lo..p], s[p], cmp) && Above(s[p + 1..hi + 1], s[p], cmp)
  }

  /**
   * A value at most the pivot value found at `q` joins the left side: it is exchanged
   * with the first value of the right side, which moves to the right side's end.
   */
  lemma PartitionTake<T>(s: seq<T>, t: seq<T>, lo: int, b: int, b': int, q: int, q': int, hi: int, cmp: (T, T) -> int)
    requires Parted(s, lo, b, q, hi, cmp) && q < hi && cmp(s[q], s[hi]) <= 0
    requires b' == b + 1 && q' == q + 1 && t == Swapped(s, b', q)
    ensures Parted(t, lo, b', q', hi, cmp)
  {
    var x := s[hi];
    assert t[hi] == x;
    var l, r := t[lo..b + 2], t[b + 2..q + 1];
    forall k | 0 <= k < |l| ensures cmp(l[k], x) <= 0 {
      if lo + k <= b {
        assert l[k] == s[lo + k] == s[lo..b + 1][k];
      }
    }
    forall k | 0 <= k < |r| ensures cmp(r[k], x) > 0 {
      if b + 2 + k < q {
        assert r[k] == s[b + 2 + k] == s[b + 1..q][k + 1];
      } else {
        assert r[k] == s[b + 1] == s[b + 1..q][0];
      }
    }
  }

  /** A value above the pivot value found at `q` stays and extends the right side. */
  lemma PartitionSkip<T>(s: seq<T>, lo: int, b: int, q: int, q': int, hi: int, cmp: (T, T) -> int)
    requires Parted(s, lo, b, q, hi, cmp) && q < hi && cmp(s[q], s[hi]) > 0 && q' == q + 1
    ensures Parted(s, lo, b, q', hi, cmp)
  {
    assert s[b + 1..q + 1] == s[b + 1..q] + [s[q]];
  }

  /**
   * The closing exchange: the pivot value, kept at `hi`, goes to the first index of the
   * right side, `b + 1`, which splits the range around it.
   */
  lemma PartitionClose<T>(s: seq<T>, t: seq<T>, lo: int, b: int, p: int, hi: int, cmp: (T, T) -> int)
    requires Parted(s, lo, b, hi, hi, cmp) && p == b + 1 && t == Swapped(s, p, hi)
    ensures SplitAt(t, lo, p, hi, cmp)
  {
    assert t[lo..b + 1] == s[lo..b + 1];
    var r := t[b + 2..hi + 1];
    forall k | 0 <= k < |r| ensures cmp(r[k], s[hi]) > 0 {
      if b + 2 + k < hi {
        assert r[k] == s[b + 2 + k] == s[b + 1..hi][k + 1];
      } else {
        assert r[k] == s[b + 1] == s[b + 1..hi][0];
      }
    }
  }

  /**
   * quickSortRecursive's result: after partitioning `s0` into `s1` around the pivot at
   * `p`, and sorting the left side into `s2` and then the right side into `s3`, the whole
   * range is sorted and rearranged.
   */
  lemma QuickSortJoin<T(!new)>(s0: seq<T>, s1: seq<T>, s2: seq<T>, s3: seq<T>, lo: int, p: int, hi: int, cmp: (T, T) -> int)
    requires IsComparator(cmp) && lo <= p <= hi
    requires Rearranged(s0, s1, lo, hi)
    requires SplitAt(s1, lo, p, hi, cmp)
    requires Rearranged(s1, s2, lo, p - 1) && NonDecreasing(s2[lo..p], cmp)
    requires Rearranged(s2, s3, p + 1, hi) && NonDecreasing(s3[p + 1..hi + 1], cmp)
    ensures Rearranged(s0, s3, lo, hi) && NonDecreasing(s3[lo..hi + 1], cmp)
  {
    SortedAround(s1, s2, s3, lo, p, hi, cmp);
    RearrangedSides(s0, s1, s2, s3, lo, p, hi);
  }

  /** The two sorted sides and the pivot between them make a sorted range. */
  lemma SortedAround<T(!new)>(s1: seq<T>, s2: seq<T>, s3: seq<T>, lo: int, p: int, hi: int, cmp: (T, T) -> int)
    requires IsComparator(cmp) && SplitAt(s1, lo, p, hi, cmp)
    requires Rearranged(s1, s2, lo, p - 1) && NonDecreasing(s2[lo..p], cmp)
    requires Rearranged(s2, s3, p + 1, hi) && NonDecreasing(s3[p + 1..hi + 1], cmp)
    ensures NonDecreasing(s3[lo..hi + 1], cmp)
  {
    SidesSorted(s1, s2, s3, lo, p, hi, cmp);
    var l, r := s3[lo..p], s3[p + 1..hi + 1];
    assert s3[lo..hi + 1] == l + [s1[p]] + r;
    JoinAround(l, s1[p], r, cmp);
  }

  /** Partitioning a range and then rearranging each side rearranges the range. */
  lemma RearrangedSides<T>(s0: seq<T>, s1: seq<T>, s2: seq<T>, s3: seq<T>, lo: int, p: int, hi: int)
    requires lo <= p <= hi && Rearranged(s0, s1, lo, hi)
    requires Rearranged(s1, s2, lo, p - 1) && Rearranged(s2, s3, p + 1, hi)
    ensures Rearranged(s0, s3, lo, hi)
  {
    RearrangedWiden(s1, s2, lo, lo, p - 1, hi);
    RearrangedWiden(s2, s3, lo, p + 1, hi, hi);
    RearrangedThen(s0, s1, s2, lo, hi);
    RearrangedThen(s0, s2, s3, lo, hi);
  }

  /** Sorting each side keeps it on its side of the pivot, which stays in place. */
  lemma SidesSorted<T>(s1: seq<T>, s2: seq<T>, s3: seq<T>, lo: int, p: int, hi: int, cmp: (T, T) -> int)
    requires SplitAt(s1, lo, p, hi, cmp)
    requires Rearranged(s1, s2, lo, p - 1) && Rearranged(s2, s3, p + 1, hi)
    ensures s3[p] == s1[p] && s3[lo..p] == s2[lo..p]
    ensures AtMost(s3[lo..p], s1[p], cmp) && Above(s3[p + 1..hi + 1], s1[p], cmp)
  {
    AtMostKept(s2[lo..p], s1[lo..p], s1[p], cmp);
    assert s2[p + 1..hi + 1] == s1[p + 1..hi + 1];
    AboveKept(s3[p + 1..hi + 1], s2[p + 1..hi + 1], s1[p], cmp);
    assert s3[lo..p] == s2[lo..p];
  }

  /**
   * selectionSort's invariant after `p` rounds: the first `p` values are sorted and each
   * is at most every value after them.
   */
  ghost predicate Selected<T>(s: seq<T>, p: int, cmp: (T, T) -> int)
    requires 0 <= p <= |s|
  {
    && NonDecreasing(s[..p], cmp)
    && forall a, b :: 0 <= a < p <= b < |s| ==> cmp(s[a], s[b]) <= 0
  }

  /**
   * One round: a value at `m` that is at most every value from `p` on is exchanged into
   * index `p`, which extends the sorted prefix.
   */
  lemma SelectStep<T>(s: seq<T>, p: int, m: int, p': int, cmp: (T, T) -> int)
    requires 0 <= p <= m < |s| && p' == p + 1 && Selected(s, p, cmp)
    requires forall k :: p <= k < |s| ==> cmp(s[m], s[k]) <= 0
    ensures Selected(Swapped(s, p, m), p', cmp)
  {
    var t := Swapped(s, p, m);
    var u := t[..p + 1];
    forall i, j | 0 <= i < j < |u| ensures cmp(u[i], u[j]) <= 0 {
      if j < p {
        assert u[i] == s[..p][i] && u[j] == s[..p][j];
      } else {
        assert u[j] == s[m];
      }
    }
    forall a, b | 0 <= a < p + 1 <= b < |t| ensures cmp(t[a], t[b]) <= 0 {
      if b == m {
        assert t[b] == s[p];
      } else {
        assert t[b] == s[b];
      }
    }
  }

  /**
   * Among the values at indices `p` to `q - 1`, the one at `m` is least, and it is the
   * last least one: every later value compares above it.
   */
  ghost predicate LastLeast<T>(s: seq<T>, p: int, m: int, q: int, cmp: (T, T) -> int) {
    && 0 <= p <= m < q <= |s|
    && (forall k :: p <= k < q ==> cmp(s[m], s[k]) <= 0)
    && (forall k :: m < k < q ==> cmp(s[k], s[m]) > 0)
  }

  /**
   * One turn of selectionSort's inner loop: a value at `q` comparing at most the least so
   * far (`compare(...) < 1`) becomes the least; otherwise the least stays.
   */
  lemma LastLeastStep<T(!new)>(s: seq<T>, p: int, m: int, q: int, q': int, cmp: (T, T) -> int)
    requires IsComparator(cmp) && LastLeast(s, p, m, q, cmp) && q < |s| && q' == q + 1
    ensures cmp(s[q], s[m]) < 1 ==> LastLeast(s, p, q, q', cmp)
    ensures cmp(s[q], s[m]) >= 1 ==> LastLeast(s, p, m, q', cmp)
  {
  }

  /** With all but the last value placed, the whole sequence is sorted. */
  lemma SelectedAll<T>(s: seq<T>, cmp: (T, T) -> int)
    requires |s| > 0 && Selected(s, |s| - 1, cmp)
    ensures NonDecreasing(s, cmp)
  {
    var n := |s| - 1;
    forall i, j | 0 <= i < j < |s| ensures cmp(s[i], s[j]) <= 0 {
      if j < n {
        assert s[i] == s[..n][i] && s[j] == s[..n][j];
      }
    }
  }
}
