/**
 * The hash map of hashmap.go: a table of buckets, each a chain of (hash code, key, value)
 * entries, collisions resolved by separate chaining. The table doubles its capacity and
 * reinserts every entry when a Push finds more entries than the capacity times the load
 * factor.
 *
 * A key's Equals is `==` on `K` and its Hash a function `hash` into the naturals that the
 * map is built with. A bucket's chain of nodes is a sequence of entries, from the head.
 * The ghost field `table` holds the chains of the buckets and `contents` the map they stand
 * for; `Valid` ties the buckets, the table and the entry count to it.
 */
module HashMaps {
  import opened Optional
  import opened ListSpec
  import opened Traversal

  /** The capacity New uses when it is given none. */
  const DefaultCapacity := 16

  /** The load factor New uses when it is given none. */
  const DefaultLoadFactor := 0.75

  /** A node's data: the key's hash code, the key and the value. */
  datatype Entry<K, V> = Entry(hashCode: int, key: K, value: V)

  /** The bucket of a hash code in a table of `cap` buckets (Go's % on a non-negative code). */
  function BucketOf(hashCode: nat, cap: int): (i: nat)
    requires cap > 0
    ensures i < cap
    ensures hashCode < cap ==> i == hashCode
  {
    hashCode % cap
  }

  // ---------------------------------------------------------------------------
  // The table and the map it stands for

  /**
   * The table `t` stands for the map `m` under `hash`: every entry sits in its key's bucket
   * with its key's hash code and the value `m` gives its key; no chain holds a key twice;
   * and every key of `m` has an entry in its bucket.
   */
  ghost predicate Placed<K, V>(hash: K -> nat, t: seq<seq<Entry<K, V>>>, m: map<K, V>) {
    |t| > 0 && Homed(hash, t, m) && KeysOnce(t) && Covered(hash, t, m)
  }

  /** Every entry sits in its key's bucket, with its key's hash code and the value `m` gives its key. */
  ghost predicate Homed<K, V>(hash: K -> nat, t: seq<seq<Entry<K, V>>>, m: map<K, V>)
    requires |t| > 0
  {
    forall b, e :: 0 <= b < |t| && e in t[b] ==> AtHome(hash, e, |t|, b, m)
  }

  /** Entry `e` belongs in bucket `b` of `n` and holds the value `m` gives its key. */
  ghost predicate AtHome<K, V>(hash: K -> nat, e: Entry<K, V>, n: int, b: int, m: map<K, V>)
    requires n > 0
  {
    e.hashCode == hash(e.key) && BucketOf(e.hashCode, n) == b && e.key in m && m[e.key] == e.value
  }

  /** No chain holds a key twice. */
  ghost predicate KeysOnce<K, V>(t: seq<seq<Entry<K, V>>>) {
    forall b, p, q :: 0 <= b < |t| && 0 <= p < q < |t[b]| ==> t[b][p].key != t[b][q].key
  }

  /** Every key of `m` has an entry in its bucket. */
  ghost predicate Covered<K, V>(hash: K -> nat, t: seq<seq<Entry<K, V>>>, m: map<K, V>)
    requires |t| > 0
  {
    forall k :: k in m ==> exists e :: e in t[BucketOf(hash(k), |t|)] && e.key == k
  }

  /** The entries of all chains, bucket after bucket, each chain from its head. */
  function Flat<K, V>(t: seq<seq<Entry<K, V>>>): seq<Entry<K, V>> {
    if t == [] then [] else Flat(t[..|t| - 1]) + t[|t| - 1]
  }

  lemma FlatNext<K, V>(t: seq<seq<Entry<K, V>>>, i: nat)
    requires i < |t|
    ensures Flat(t[..i + 1]) == Flat(t[..i]) + t[i]
  {
    assert t[..i + 1][..i] == t[..i];
  }

  /** The entries of the flattened table are those of its chains. */
  lemma {:induction false} FlatMembers<K, V>(t: seq<seq<Entry<K, V>>>)
    ensures forall b, e :: 0 <= b < |t| && e in t[b] ==> e in Flat(t)
    ensures forall e :: e in Flat(t) ==> exists b :: 0 <= b < |t| && e in t[b]
  {
    if t != [] {
      var n := |t| - 1;
      FlatMembers(t[..n]);
      assert forall b :: 0 <= b < n ==> t[..n][b] == t[b];
    }
  }

  /** The map that inserting the entries `es` in order builds: a later entry overrides an earlier one with its key. */
  function MapOf<K, V>(es: seq<Entry<K, V>>): map<K, V> {
    if es == [] then map[] else MapOf(es[..|es| - 1])[es[|es| - 1].key := es[|es| - 1].value]
  }

  lemma MapOfSnoc<K, V>(es: seq<Entry<K, V>>, e: Entry<K, V>)
    ensures MapOf(es + [e]) == MapOf(es)[e.key := e.value]
  {
    assert (es + [e])[..|es|] == es;
  }

  /**
   * Inserting entries that all agree with `m` builds a part of `m` that holds every
   * inserted key.
   */
  lemma {:induction false} MapOfAgrees<K, V>(es: seq<Entry<K, V>>, m: map<K, V>)
    requires forall e :: e in es ==> e.key in m && m[e.key] == e.value
    ensures forall e :: e in es ==> e.key in MapOf(es)
    ensures forall k :: k in MapOf(es) ==> k in m && MapOf(es)[k] == m[k]
  {
    if es != [] {
      var n := |es| - 1;
      assert forall e :: e in es[..n] ==> e in es;
      MapOfAgrees(es[..n], m);
      assert forall e :: e in es ==> e in es[..n] || e == es[n];
    }
  }

  /**
   * The map a table stands for is the one its entries build when inserted bucket by
   * bucket: every entry is one of the map's pairs and every pair has its entry.
   */
  lemma Enumerated<K, V>(hash: K -> nat, t: seq<seq<Entry<K, V>>>, m: map<K, V>)
    requires Placed(hash, t, m)
    ensures forall e :: e in Flat(t) ==> e.key in m && m[e.key] == e.value
    ensures MapOf(Flat(t)) == m
  {
    FlatMembers(t);
    MapOfAgrees(Flat(t), m);
    forall k | k in m ensures k in MapOf(Flat(t)) {
      var e :| e in t[BucketOf(hash(k), |t|)] && e.key == k;
    }
  }

  /** The entries of the first `i` buckets all agree with the map. */
  lemma FlatAgrees<K, V>(hash: K -> nat, t: seq<seq<Entry<K, V>>>, m: map<K, V>, i: nat)
    requires Placed(hash, t, m) && i <= |t|
    ensures forall e :: e in Flat(t[..i]) ==> e.key in m && m[e.key] == e.value
  {
    FlatMembers(t[..i]);
    forall e | e in Flat(t[..i]) ensures e.key in m && m[e.key] == e.value {
      var b :| 0 <= b < i && e in t[..i][b];
      assert e in t[b];
    }
  }

  /** The entries of the first `i` buckets and those of bucket `i` have keys of the map. */
  lemma ChainKeys<K, V>(hash: K -> nat, t: seq<seq<Entry<K, V>>>, m: map<K, V>, i: nat, keys: set<K>)
    requires Placed(hash, t, m) && i < |t| && m.Keys <= keys
    ensures forall e :: e in Flat(t[..i]) + t[i] ==> e.key in keys
  {
    FlatNext(t, i);
    FlatAgrees(hash, t, m, i + 1);
  }

  /** Inserting entries whose keys are all in `keys` builds a map whose keys are in `keys`. */
  lemma {:induction false} MapOfKeysWithin<K, V>(es: seq<Entry<K, V>>, keys: set<K>)
    requires forall e :: e in es ==> e.key in keys
    ensures MapOf(es).Keys <= keys
  {
    if es != [] {
      var n := |es| - 1;
      assert forall e :: e in es[..n] ==> e in es;
      MapOfKeysWithin(es[..n], keys);
      assert es[n] in es;
    }
  }

  lemma {:induction false} SubsetSize<K>(a: set<K>, b: set<K>)
    requires a <= b
    ensures |a| <= |b|
  {
    if a != {} {
      var x :| x in a;
      SubsetSize(a - {x}, b - {x});
    }
  }

  /** Replacing one chain changes the number of entries by the difference in the chain's length. */
  lemma {:induction false} FlatUpdate<K, V>(t: seq<seq<Entry<K, V>>>, s: nat, c: seq<Entry<K, V>>)
    requires s < |t|
    ensures |Flat(t[s := c])| == |Flat(t)| - |t[s]| + |c|
  {
    var n := |t| - 1;
    if s == n {
      assert t[s := c][..n] == t[..n];
    } else {
      assert t[s := c][..n] == t[..n][s := c];
      FlatUpdate(t[..n], s, c);
    }
  }

  /** A table of empty chains holds no entries. */
  lemma {:induction false} FlatEmpty<K, V>(t: seq<seq<Entry<K, V>>>)
    requires forall b :: 0 <= b < |t| ==> t[b] == []
    ensures Flat(t) == []
  {
    if t != [] {
      FlatEmpty(t[..|t| - 1]);
    }
  }

  /** The keys of the map that inserting `es` builds are the keys of its entries. */
  lemma {:induction false} MapOfKeys<K, V>(es: seq<Entry<K, V>>)
    ensures forall k :: k in MapOf(es) <==> exists e :: e in es && e.key == k
  {
    if es != [] {
      var n := |es| - 1;
      MapOfKeys(es[..n]);
      assert es == es[..n] + [es[n]];
      assert forall e :: e in es <==> e in es[..n] || e == es[n];
    }
  }

  /** An entry of `es` that put the key `k` in the map `es` builds. */
  lemma EntryOf<K, V>(es: seq<Entry<K, V>>, k: K) returns (e: Entry<K, V>)
    requires k in MapOf(es)
    ensures e in es && e.key == k
  {
    MapOfKeys(es);
    e :| e in es && e.key == k;
  }

  /**
   * Inserting a chain with no key twice, none of whose keys the map built so far holds,
   * adds one pair per entry.
   */
  lemma {:induction false} MapOfAppend<K, V>(es: seq<Entry<K, V>>, c: seq<Entry<K, V>>)
    requires forall p, q :: 0 <= p < q < |c| ==> c[p].key != c[q].key
    requires forall e :: e in c ==> e.key !in MapOf(es)
    ensures |MapOf(es + c)| == |MapOf(es)| + |c|
  {
    if c == [] {
      assert es + c == es;
    } else {
      var n := |c| - 1;
      var a := es + c[..n];
      assert forall e :: e in c[..n] ==> e in c;
      MapOfAppend(es, c[..n]);
      AppendLast(es, c);
      MapOfSnoc(a, c[n]);
      assert c[n] in c;
      FreshKey(es, c[..n], c[n]);
      AddedSize(MapOf(a), c[n].key, c[n].value);
    }
  }

  /** The entries inserted before a chain and none, or all, of the chain's. */
  lemma PrefixEnds<K, V>(done: seq<Entry<K, V>>, c: seq<Entry<K, V>>)
    ensures done + c[..0] == done && done + c[..|c|] == done + c
  {
    assert c[..|c|] == c;
  }

  /** Inserting one more entry of a chain updates the map built so far with its pair. */
  lemma InsertNext<K, V>(done: seq<Entry<K, V>>, c: seq<Entry<K, V>>, j: nat)
    requires j < |c|
    ensures MapOf(done + c[..j + 1]) == MapOf(done + c[..j])[c[j].key := c[j].value]
  {
    assert done + c[..j + 1] == (done + c[..j]) + [c[j]];
    MapOfSnoc(done + c[..j], c[j]);
  }

  /** As InsertNext, when every key inserted belongs to `keys`: the keys so far and the next one are in `keys`. */
  lemma InsertWithin<K, V>(done: seq<Entry<K, V>>, c: seq<Entry<K, V>>, j: nat, keys: set<K>)
    requires j < |c| && forall e :: e in done + c ==> e.key in keys
    ensures MapOf(done + c[..j + 1]) == MapOf(done + c[..j])[c[j].key := c[j].value]
    ensures MapOf(done + c[..j]).Keys + {c[j].key} <= keys
  {
    InsertNext(done, c, j);
    assert forall e :: e in done + c[..j + 1] ==> e in done + c;
    MapOfKeysWithin(done + c[..j + 1], keys);
  }

  lemma AppendLast<T>(a: seq<T>, c: seq<T>)
    requires c != []
    ensures a + c == (a + c[..|c| - 1]) + [c[|c| - 1]]
  {
    assert c == c[..|c| - 1] + [c[|c| - 1]];
  }

  lemma AddedSize<K, V>(m: map<K, V>, k: K, v: V)
    requires k !in m
    ensures |m[k := v]| == |m| + 1
  {
  }

  /** A key that neither the map built so far nor the chain inserted after it holds is not in the result. */
  lemma FreshKey<K, V>(es: seq<Entry<K, V>>, c: seq<Entry<K, V>>, x: Entry<K, V>)
    requires x.key !in MapOf(es)
    requires forall q :: 0 <= q < |c| ==> c[q].key != x.key
    ensures x.key !in MapOf(es + c)
  {
    MapOfKeys(es + c);
    MapOfKeys(es);
    forall e | e in es + c ensures e.key != x.key {
      if e !in es {
        var q :| 0 <= q < |c| && c[q] == e;
      }
    }
  }

  /** The keys the entries of the first `i` buckets of a table build all belong to those buckets. */
  lemma PrefixKeys<K, V>(hash: K -> nat, t: seq<seq<Entry<K, V>>>, m: map<K, V>, i: nat)
    requires Placed(hash, t, m) && i <= |t|
    ensures forall k :: k in MapOf(Flat(t[..i])) ==> BucketOf(hash(k), |t|) < i
  {
    FlatMembers(t[..i]);
    forall k | k in MapOf(Flat(t[..i])) ensures BucketOf(hash(k), |t|) < i {
      var e := EntryOf(Flat(t[..i]), k);
      var b :| 0 <= b < i && e in t[..i][b];
      assert e in t[b];
    }
  }

  /** The entries of the first `i` buckets of a table build a map with one pair per entry. */
  lemma {:induction false} PrefixSize<K, V>(hash: K -> nat, t: seq<seq<Entry<K, V>>>, m: map<K, V>, i: nat)
    requires Placed(hash, t, m) && i <= |t|
    ensures |MapOf(Flat(t[..i]))| == |Flat(t[..i])|
  {
    if i > 0 {
      var es := Flat(t[..i - 1]);
      PrefixSize(hash, t, m, i - 1);
      PrefixKeys(hash, t, m, i - 1);
      FlatNext(t, i - 1);
      assert forall e :: e in t[i - 1] ==> BucketOf(hash(e.key), |t|) == i - 1;
      MapOfAppend(es, t[i - 1]);
    }
  }

  /** A placed table holds one entry per pair of its map. */
  lemma PlacedSize<K, V>(hash: K -> nat, t: seq<seq<Entry<K, V>>>, m: map<K, V>)
    requires Placed(hash, t, m)
    ensures |m| == |Flat(t)|
  {
    PrefixSize(hash, t, m, |t|);
    assert t[..|t|] == t;
    Enumerated(hash, t, m);
  }

  /** Overwriting the value of a chain's entry sets that key's value in the map. */
  lemma PlacedOverwrite<K, V>(hash: K -> nat, t: seq<seq<Entry<K, V>>>, m: map<K, V>, s: nat, j: nat, v: V,
                             c: seq<Entry<K, V>>)
    requires Placed(hash, t, m) && s < |t| && j < |t[s]|
    requires c == t[s][j := Entry(t[s][j].hashCode, t[s][j].key, v)]
    ensures Placed(hash, t[s := c], m[t[s][j].key := v])
  {
    var e := t[s][j];
    var e' := Entry(e.hashCode, e.key, v);
    var t': seq<seq<Entry<K, V>>> := t[s := c];
    OverwriteHomed(hash, t, m, s, j, v);
    assert KeysOnce(t') by {
      forall b, p, q | 0 <= b < |t'| && 0 <= p < q < |t'[b]| ensures t'[b][p].key != t'[b][q].key {
        if b == s {
          assert t'[s][p].key == t[s][p].key && t'[s][q].key == t[s][q].key;
        }
      }
    }
    OverwriteCovered(hash, t, m, s, j, v);
  }

  lemma OverwriteHomed<K, V>(hash: K -> nat, t: seq<seq<Entry<K, V>>>, m: map<K, V>, s: nat, j: nat, v: V)
    requires Placed(hash, t, m) && s < |t| && j < |t[s]|
    ensures var e := t[s][j];
      Homed(hash, t[s := t[s][j := Entry(e.hashCode, e.key, v)]], m[e.key := v])
  {
    var e := t[s][j];
    var e' := Entry(e.hashCode, e.key, v);
    var t': seq<seq<Entry<K, V>>> := t[s := t[s][j := e']];
    var m' := m[e.key := v];
    assert e in t[s] && AtHome(hash, e, |t|, s, m);
    forall b, x: Entry<K, V> | 0 <= b < |t'| && x in t'[b]
      ensures AtHome(hash, x, |t'|, b, m')
    {
      if b != s {
        assert t'[b] == t[b] && AtHome(hash, x, |t|, b, m);
      } else if x != e' {
        var p :| 0 <= p < |t'[s]| && t'[s][p] == x;
        assert t[s][p] == x && p != j;
        assert x in t[s] && AtHome(hash, x, |t|, s, m);
      }
    }
  }

  lemma OverwriteCovered<K, V>(hash: K -> nat, t: seq<seq<Entry<K, V>>>, m: map<K, V>, s: nat, j: nat, v: V)
    requires Placed(hash, t, m) && s < |t| && j < |t[s]|
    ensures var e := t[s][j];
      Covered(hash, t[s := t[s][j := Entry(e.hashCode, e.key, v)]], m[e.key := v])
  {
    var e := t[s][j];
    var e' := Entry(e.hashCode, e.key, v);
    var t': seq<seq<Entry<K, V>>> := t[s := t[s][j := e']];
    var m' := m[e.key := v];
    assert e in t[s];
    forall k | k in m' ensures exists x: Entry<K, V> :: x in t'[BucketOf(hash(k), |t'|)] && x.key == k {
      if k == e.key {
        assert t'[s][j] == e';
      } else {
        var x :| x in t[BucketOf(hash(k), |t|)] && x.key == k;
        var p :| 0 <= p < |t[BucketOf(hash(k), |t|)]| && t[BucketOf(hash(k), |t|)][p] == x;
        assert x in t'[BucketOf(hash(k), |t'|)] by {
          if BucketOf(hash(k), |t|) == s {
            assert t'[s][p] == x;
          }
        }
      }
    }
  }

  /** Putting a key that its bucket does not hold at the head of the chain adds the pair to the map. */
  lemma PlacedPrepend<K, V>(hash: K -> nat, t: seq<seq<Entry<K, V>>>, m: map<K, V>, key: K, v: V,
                           s: nat, c: seq<Entry<K, V>>)
    requires Placed(hash, t, m) && s == BucketOf(hash(key), |t|)
    requires forall q :: 0 <= q < |t[s]| ==> t[s][q].key != key
    requires c == [Entry(hash(key), key, v)] + t[s]
    ensures key !in m && Placed(hash, t[s := c], m[key := v])
  {
    var e := Entry(hash(key), key, v);
    var t': seq<seq<Entry<K, V>>> := t[s := c];
    var m' := m[key := v];
    assert forall x :: x in t[s] ==> x.key != key;
    assert key !in m;
    assert Homed(hash, t', m') by {
      forall b, x: Entry<K, V> | 0 <= b < |t'| && x in t'[b]
        ensures AtHome(hash, x, |t'|, b, m')
      {
        if b == s && x != e {
          assert x in t[s];
        }
      }
    }
    assert KeysOnce(t') by {
      forall b, p, q | 0 <= b < |t'| && 0 <= p < q < |t'[b]| ensures t'[b][p].key != t'[b][q].key {
        if b == s {
          assert t'[s][q] == t[s][q - 1];
          if p > 0 {
            assert t'[s][p] == t[s][p - 1];
          } else {
            assert t[s][q - 1] in t[s];
          }
        }
      }
    }
    assert Covered(hash, t', m') by {
      forall k | k in m' ensures exists x: Entry<K, V> :: x in t'[BucketOf(hash(k), |t'|)] && x.key == k {
        if k == key {
          assert t'[s][0] == e;
        } else {
          var x :| x in t[BucketOf(hash(k), |t|)] && x.key == k;
          assert x in t'[BucketOf(hash(k), |t'|)];
        }
      }
    }
  }

  /** Taking an entry out of its chain removes its key from the map. */
  lemma PlacedRemove<K, V>(hash: K -> nat, t: seq<seq<Entry<K, V>>>, m: map<K, V>, s: nat, p: nat,
                          rest: seq<Entry<K, V>>, key: K)
    requires Placed(hash, t, m) && s < |t| && p < |t[s]| && rest == Without(t[s], p) && key == t[s][p].key
    ensures key in m && m[key] == t[s][p].value && Placed(hash, t[s := rest], m - {key})
  {
    assert t[s][p] in t[s];
    RemoveHomed(hash, t, m, s, p);
    RemoveOnce(t, s, p);
    RemoveCovered(hash, t, m, s, p);
  }

  lemma RemoveHomed<K, V>(hash: K -> nat, t: seq<seq<Entry<K, V>>>, m: map<K, V>, s: nat, p: nat)
    requires Placed(hash, t, m) && s < |t| && p < |t[s]|
    ensures Homed(hash, t[s := Without(t[s], p)], m - {t[s][p].key})
  {
    var key := t[s][p].key;
    var t': seq<seq<Entry<K, V>>> := t[s := Without(t[s], p)];
    var m' := m - {key};
    assert t[s][p] in t[s] && AtHome(hash, t[s][p], |t|, s, m);
    forall b, x: Entry<K, V> | 0 <= b < |t'| && x in t'[b]
      ensures AtHome(hash, x, |t'|, b, m')
    {
      if b == s {
        var q :| 0 <= q < |t'[s]| && t'[s][q] == x;
        var q' := if q < p then q else q + 1;
        assert t[s][q'] == x && q' != p;
        assert x in t[s] && AtHome(hash, x, |t|, s, m);
      } else {
        assert t'[b] == t[b] && AtHome(hash, x, |t|, b, m);
      }
    }
  }

  lemma RemoveOnce<K, V>(t: seq<seq<Entry<K, V>>>, s: nat, p: nat)
    requires KeysOnce(t) && s < |t| && p < |t[s]|
    ensures KeysOnce(t[s := Without(t[s], p)])
  {
    var t': seq<seq<Entry<K, V>>> := t[s := Without(t[s], p)];
    forall b, i, j | 0 <= b < |t'| && 0 <= i < j < |t'[b]| ensures t'[b][i].key != t'[b][j].key {
      if b == s {
        var i', j' := if i < p then i else i + 1, if j < p then j else j + 1;
        assert t'[s][i] == t[s][i'] && t'[s][j] == t[s][j'];
      }
    }
  }

  lemma RemoveCovered<K, V>(hash: K -> nat, t: seq<seq<Entry<K, V>>>, m: map<K, V>, s: nat, p: nat)
    requires Placed(hash, t, m) && s < |t| && p < |t[s]|
    ensures Covered(hash, t[s := Without(t[s], p)], m - {t[s][p].key})
  {
    var key := t[s][p].key;
    var t': seq<seq<Entry<K, V>>> := t[s := Without(t[s], p)];
    var m' := m - {key};
    forall k | k in m' ensures exists x: Entry<K, V> :: x in t'[BucketOf(hash(k), |t'|)] && x.key == k {
      var x :| x in t[BucketOf(hash(k), |t|)] && x.key == k;
      if BucketOf(hash(k), |t|) == s {
        var q :| 0 <= q < |t[s]| && t[s][q] == x;
        assert q != p;
        assert t'[s][if q < p then q else q - 1] == x;
      }
    }
  }

  // ---------------------------------------------------------------------------
  // Chains

  /** search: the index of the entry of chain `c` holding `key`, from the head; -1 when none does. */
  method SearchChain<K(==), V>(c: seq<Entry<K, V>>, key: K) returns (j: int)
    ensures -1 <= j < |c|
    ensures 0 <= j ==> c[j].key == key
    ensures forall p :: 0 <= p < |c| && (j < 0 || p < j) ==> c[p].key != key
  {
    j := 0;
    while j < |c|
      invariant 0 <= j <= |c|
      invariant forall p :: 0 <= p < j ==> c[p].key != key
    {
      if c[j].key == key {
        return;
      }
      j := j + 1;
    }
    return -1;
  }

  /** The values of the entries, in order. */
  function ValuesOf<K, V>(es: seq<Entry<K, V>>): seq<V> {
    if es == [] then [] else ValuesOf(es[..|es| - 1]) + [es[|es| - 1].value]
  }

  lemma ValuesOfSnoc<K, V>(es: seq<Entry<K, V>>, e: Entry<K, V>)
    ensures ValuesOf(es + [e]) == ValuesOf(es) + [e.value]
  {
    assert (es + [e])[..|es|] == es;
  }

  /** The text String gives an entry: the key's text, a colon and the value's text. */
  function PairShow<K, V>(showK: K -> string, showV: V -> string): Entry<K, V> -> string {
    (e: Entry<K, V>) => showK(e.key) + ":" + showV(e.value)
  }

  /** One chain's turn in Map: its entries are put into `r`, from the head. */
  method MapChain<K, V>(r: map<K, V>, c: seq<Entry<K, V>>, ghost done: seq<Entry<K, V>>) returns (r': map<K, V>)
    requires r == MapOf(done)
    ensures r' == MapOf(done + c)
  {
    r' := r;
    assert done + c[..0] == done;
    for j := 0 to |c|
      invariant r' == MapOf(done + c[..j])
    {
      assert done + c[..j + 1] == (done + c[..j]) + [c[j]];
      MapOfSnoc(done + c[..j], c[j]);
      r' := r'[c[j].key := c[j].value];
    }
    assert c[..|c|] == c;
  }

  /** One chain's turn in Do: each value, from the head, is handed to each of the `procs` procedures. */
  method DoChain<K, V>(calls: seq<(nat, V)>, c: seq<Entry<K, V>>, procs: nat, ghost done: seq<Entry<K, V>>)
    returns (calls': seq<(nat, V)>)
    requires calls == Calls(ValuesOf(done), procs)
    ensures calls' == Calls(ValuesOf(done + c), procs)
  {
    calls' := calls;
    assert done + c[..0] == done;
    for j := 0 to |c|
      invariant calls' == Calls(ValuesOf(done + c[..j]), procs)
    {
      calls' := Visit(calls', c[j].value, procs);
      assert done + c[..j + 1] == (done + c[..j]) + [c[j]];
      ValuesOfSnoc(done + c[..j], c[j]);
      CallsSnoc(ValuesOf(done + c[..j]), c[j].value, procs);
    }
    assert c[..|c|] == c;
  }

  /** One chain's turn in String: each entry's "key:value" text and a space are added, from the head. */
  method StringChain<K, V>(s: string, c: seq<Entry<K, V>>, showK: K -> string, showV: V -> string, ghost done: seq<Entry<K, V>>)
    returns (s': string)
    requires s == "[" + Spaced(done, PairShow(showK, showV))
    ensures s' == "[" + Spaced(done + c, PairShow(showK, showV))
  {
    s' := s;
    assert done + c[..0] == done;
    for j := 0 to |c|
      invariant s' == "[" + Spaced(done + c[..j], PairShow(showK, showV))
    {
      assert done + c[..j + 1] == (done + c[..j]) + [c[j]];
      SpacedSnoc(done + c[..j], c[j], PairShow(showK, showV));
      s' := s' + showK(c[j].key) + ":" + showV(c[j].value) + " ";
    }
    assert c[..|c|] == c;
  }

  // ---------------------------------------------------------------------------
  // Termination of Push and reHashing

  /** The load limit of a table of `bound` buckets reaches `n` entries. */
  ghost predicate Reaches(n: int, bound: int, loadFactor: real) {
    n as real <= bound as real * loadFactor
  }

  /** Push's rehash test: `n` entries are more than `c` buckets times the load factor `lf` take. */
  predicate Overloaded(n: int, c: int, lf: real) {
    n as real > c as real * lf
  }

  /** How many more doublings `bound` leaves room for, as a natural. */
  function Room(bound: int, cap: int): nat {
    if cap <= bound then bound - cap else 0
  }

  /** A capacity whose load limit reaches `n` entries. */
  function Bound(n: nat, loadFactor: real): (b: int)
    requires loadFactor > 0.0
    ensures n as real <= b as real * loadFactor
  {
    var x := n as real / loadFactor;
    var b := x.Floor + 1;
    assert b as real > x;
    assert (b as real - x) * loadFactor > 0.0;
    b
  }

  /**
   * A capacity whose load limit is exceeded by `len` entries is below `bound`, when the
   * load limit of `bound` reaches `n` entries and `len` is at most `n`.
   */
  lemma BelowBound(len: int, cap: int, n: int, bound: int, loadFactor: real)
    requires loadFactor > 0.0 && len <= n
    requires n as real <= bound as real * loadFactor
    requires Overloaded(len, cap, loadFactor)
    ensures cap < bound
  {
  }

  // ---------------------------------------------------------------------------
  // The hash map object

  class HashMap<K(==), V(==)> {
    const hash: K -> nat
    var buckets: array?<seq<Entry<K, V>>>
    var cap: int
    var len: int
    var loadFactor: real
    ghost var table: seq<seq<Entry<K, V>>>
    ghost var contents: map<K, V>

    /**
     * The map invariant: a table of `cap` buckets that stands for `contents`, `len` its
     * number of pairs; or, after RemoveAll, no table, no capacity and no pairs.
     */
    ghost predicate Valid()
      reads this, buckets
    {
      && len == |Flat(table)|
      && (cap == 0 <==> buckets == null)
      && (buckets == null ==> table == [] && contents == map[])
      && (buckets != null ==> buckets.Length == cap && buckets[..] == table && loadFactor > 0.0 && Placed(hash, table, contents))
    }

    /** Every entry of the table is a pair of the map, and the entries build the whole map. */
    lemma EntriesEnumerate()
      requires Valid()
      ensures forall e :: e in Flat(table) ==> e.key in contents && contents[e.key] == e.value
      ensures MapOf(Flat(table)) == contents
      ensures len == |contents|
    {
      if buckets != null {
        Enumerated(hash, table, contents);
        PlacedSize(hash, table, contents);
      }
    }

    /** The entries are no more than the keys of any set that holds the map's keys. */
    lemma CountWithin(keys: set<K>)
      requires Valid() && contents.Keys <= keys
      ensures len <= |keys|
    {
      EntriesEnumerate();
      SubsetSize(contents.Keys, keys);
    }

    /** New: an empty map of `capacity` buckets and the given load factor, or the defaults for non-positive ones. */
    constructor (capacity: int, loadFactor: real, hash: K -> nat)
      ensures Valid() && contents == map[] && this.hash == hash && fresh(buckets)
      ensures cap == (if capacity <= 0 then DefaultCapacity else capacity)
      ensures this.loadFactor == (if loadFactor <= 0.0 then DefaultLoadFactor else loadFactor)
    {
      var c := if capacity <= 0 then DefaultCapacity else capacity;
      this.hash := hash;
      var a := new seq<Entry<K, V>>[c](_ => []);
      FlatEmpty(a[..]);
      buckets, table := a, a[..];
      cap, len := c, 0;
      this.loadFactor := if loadFactor <= 0.0 then DefaultLoadFactor else loadFactor;
      contents := map[];
    }

    /** IsEmpty: no entries. */
    function IsEmpty(): (b: bool)
      reads this, buckets
      requires Valid()
      ensures b <==> contents == map[]
    {
      EntriesEnumerate();
      len == 0
    }

    /** Len: the number of entries. */
    function Len(): (n: int)
      reads this, buckets
      requires Valid()
      ensures n == |contents|
    {
      EntriesEnumerate();
      len
    }

    /** Get: the value paired with `key`; nothing for the nil key or a key the map does not hold. */
    method Get(key: Option<K>) returns (v: Option<V>)
      requires Valid()
      ensures v == if key.Some? && key.value in contents then Some(contents[key.value]) else None
    {
      if key.None? || IsEmpty() {
        return None;
      }
      var s := BucketOf(hash(key.value), cap);
      var j := SearchChain(buckets[s], key.value);
      if j < 0 {
        return None;
      }
      assert buckets[s][j] in table[s];
      return Some(buckets[s][j].value);
    }

    /**
     * Push: the nil key is refused; otherwise the pair is stored, overwriting the value of
     * a key the map already holds. The table is rehashed first when it holds more entries
     * than its capacity times the load factor.
     */
    method Push(key: Option<K>, v: V) returns (ok: bool)
      requires Valid() && (key.Some? ==> cap > 0)
      modifies this, buckets
      ensures Valid() && ok == key.Some?
      ensures contents == if key.Some? then old(contents)[key.value := v] else old(contents)
      ensures loadFactor == old(loadFactor)
      ensures key.Some? && Overloaded(old(len), old(cap), old(loadFactor)) ==> cap >= 2 * old(cap) && fresh(buckets)
      ensures !(key.Some? && Overloaded(old(len), old(cap), old(loadFactor))) ==> cap == old(cap) && buckets == old(buckets)
    {
      if key.None? {
        return false;
      }
      ghost var keys := contents.Keys + {key.value};
      Put(key.value, v, keys, Bound(|keys|, loadFactor));
      return true;
    }

    /**
     * Push of a key: `keys` holds every key the map will hold during this call and `bound`
     * is a capacity whose load limit reaches them all, so that the rehashings it triggers
     * come to an end.
     */
    method Put(key: K, v: V, ghost keys: set<K>, ghost bound: int)
      requires Valid() && cap > 0 && contents.Keys + {key} <= keys
      requires Reaches(|keys|, bound, loadFactor)
      modifies this, buckets
      ensures Valid() && contents == old(contents)[key := v] && loadFactor == old(loadFactor)
      ensures Overloaded(old(len), old(cap), old(loadFactor)) ==> cap >= 2 * old(cap) && fresh(buckets)
      ensures !Overloaded(old(len), old(cap), old(loadFactor)) ==> cap == old(cap) && buckets == old(buckets)
      decreases Room(bound, cap), 1
    {
      if Overloaded(len, cap, loadFactor) {
        ReHashing(keys, bound);
      }
      Store(key, v);
    }

    /**
     * The rest of Push, once the table has room: the entry of `key` gets the value `v`,
     * or a new entry for `key` becomes the head of its bucket's chain.
     */
    method Store(key: K, v: V)
      requires Valid() && cap > 0
      modifies this, buckets
      ensures Valid() && contents == old(contents)[key := v]
      ensures buckets == old(buckets) && cap == old(cap) && loadFactor == old(loadFactor)
    {
      var hashCode := hash(key);
      var s := BucketOf(hashCode, cap);
      if buckets[s] != [] {
        var j := SearchChain(buckets[s], key);
        if j >= 0 {
          Overwrite(s, j, v);
        } else {
          Prepend(key, v);
        }
      } else {
        Prepend(key, v);
      }
    }

    /** The entry at index `j` of bucket `s` takes the value `v`, its key and hash code staying. */
    method Overwrite(s: nat, j: nat, v: V)
      requires Valid() && buckets != null && s < cap && j < |buckets[s]|
      modifies this, buckets
      ensures Valid() && contents == old(contents)[old(buckets[s][j]).key := v]
      ensures buckets == old(buckets) && cap == old(cap) && loadFactor == old(loadFactor)
    {
      ghost var t, m := table, contents;
      var e := buckets[s][j];
      var c := buckets[s][j := Entry(e.hashCode, e.key, v)];
      PlacedOverwrite(hash, t, m, s, j, v, c);
      FlatUpdate(t, s, c);
      buckets[s] := c;
      table := t[s := c];
      contents := m[e.key := v];
    }

    /** A new entry for `key`, which its bucket does not hold, becomes the head of the bucket's chain. */
    method Prepend(key: K, v: V)
      requires Valid() && buckets != null
      requires forall q :: 0 <= q < |buckets[BucketOf(hash(key), cap)]| ==> buckets[BucketOf(hash(key), cap)][q].key != key
      modifies this, buckets
      ensures Valid() && contents == old(contents)[key := v]
      ensures buckets == old(buckets) && cap == old(cap) && loadFactor == old(loadFactor)
    {
      ghost var t, m := table, contents;
      var s := BucketOf(hash(key), cap);
      var c := [Entry(hash(key), key, v)] + buckets[s];
      PlacedPrepend(hash, t, m, key, v, s, c);
      FlatUpdate(t, s, c);
      buckets[s] := c;
      table := t[s := c];
      len := len + 1;
      contents := m[key := v];
    }

    /**
     * reHashing: a table of twice the capacity replaces the old one and every entry of the
     * old table is pushed into it, bucket by bucket; the map stays the same. A push made
     * here may itself rehash again.
     */
    method ReHashing(ghost keys: set<K>, ghost bound: int)
      requires Valid() && cap > 0 && contents.Keys <= keys
      requires Reaches(|keys|, bound, loadFactor)
      requires Overloaded(len, cap, loadFactor)
      modifies this
      ensures Valid() && contents == old(contents) && fresh(buckets)
      ensures cap >= 2 * old(cap) && loadFactor == old(loadFactor)
      decreases Room(bound, cap), 0
    {
      CountWithin(keys);
      BelowBound(len, cap, |keys|, bound, loadFactor);
      ghost var t, m := table, contents;
      var previous := Grow();
      ReinsertAll(previous, t, m, keys, bound);
    }

    /** The first half of reHashing: an empty table of twice the capacity replaces the old one, which is returned. */
    method Grow() returns (previous: array<seq<Entry<K, V>>>)
      requires Valid() && cap > 0
      modifies this
      ensures Valid() && contents == map[] && fresh(buckets)
      ensures cap == 2 * old(cap) && loadFactor == old(loadFactor)
      ensures previous == old(buckets) && previous[..] == old(table)
    {
      previous := buckets;
      var a := new seq<Entry<K, V>>[2 * cap](_ => []);
      FlatEmpty(a[..]);
      buckets := a;
      table := a[..];
      cap, len := 2 * cap, 0;
      contents := map[];
    }

    /** The second half of reHashing: the chains of the old table are pushed again, bucket by bucket. */
    method ReinsertAll(previous: array<seq<Entry<K, V>>>, ghost t: seq<seq<Entry<K, V>>>, ghost m: map<K, V>,
                       ghost keys: set<K>, ghost bound: int)
      requires Valid() && cap > 0 && contents == map[] && previous != buckets && previous[..] == t
      requires Placed(hash, t, m) && m.Keys <= keys
      requires Reaches(|keys|, bound, loadFactor)
      modifies this, buckets
      ensures Valid() && contents == m
      ensures cap >= old(cap) && loadFactor == old(loadFactor)
      ensures buckets == old(buckets) || fresh(buckets)
      decreases Room(bound, cap), 3
    {
      var i := 0;
      while i < previous.Length
        invariant 0 <= i <= previous.Length == |t| && previous[..] == t
        invariant Valid() && cap >= old(cap) && loadFactor == old(loadFactor)
        invariant buckets == old(buckets) || fresh(buckets)
        invariant contents == MapOf(Flat(t[..i]))
      {
        ChainKeys(hash, t, m, i, keys);
        ReinsertChain(previous[i], Flat(t[..i]), keys, bound);
        FlatNext(t, i);
        i := i + 1;
      }
      assert t[..i] == t;
      Enumerated(hash, t, m);
    }

    /** One chain's turn in reHashing: its entries are pushed again, from the head. */
    method ReinsertChain(c: seq<Entry<K, V>>, ghost done: seq<Entry<K, V>>, ghost keys: set<K>, ghost bound: int)
      requires Valid() && cap > 0 && contents == MapOf(done)
      requires forall e :: e in done + c ==> e.key in keys
      requires Reaches(|keys|, bound, loadFactor)
      modifies this, buckets
      ensures Valid() && contents == MapOf(done + c)
      ensures cap >= old(cap) && loadFactor == old(loadFactor)
      ensures buckets == old(buckets) || fresh(buckets)
      decreases Room(bound, cap), 2
    {
      PrefixEnds(done, c);
      for j := 0 to |c|
        invariant Valid() && cap >= old(cap) && loadFactor == old(loadFactor)
        invariant buckets == old(buckets) || fresh(buckets)
        invariant contents == MapOf(done + c[..j])
      {
        InsertWithin(done, c, j, keys);
        Put(c[j].key, c[j].value, keys, bound);
      }
    }

    /** Remove: the pair of `key` is taken out and its value returned; nothing for the nil key or a key the map does not hold. */
    method Remove(key: Option<K>) returns (v: Option<V>)
      requires Valid() && (key.Some? ==> cap > 0)
      modifies this, buckets
      ensures Valid() && buckets == old(buckets) && cap == old(cap) && loadFactor == old(loadFactor)
      ensures v == if key.Some? && key.value in old(contents) then Some(old(contents)[key.value]) else None
      ensures contents == if key.Some? then old(contents) - {key.value} else old(contents)
    {
      if key.None? {
        return None;
      }
      var k := key.value;
      var s := BucketOf(hash(k), cap);
      var c := buckets[s];
      if c == [] {
        return None;
      }
      if c[0].key == k {
        var w := Unlink(s, 0, c[1..]);
        return Some(w);
      }
      var p := 0;
      while p + 1 < |c| && c[p + 1].key != k
        invariant 0 <= p < |c|
        invariant forall q :: 0 <= q <= p ==> c[q].key != k
      {
        p := p + 1;
      }
      if p + 1 < |c| {
        var w := Unlink(s, p + 1, c[..p + 1] + c[p + 2..]);
        return Some(w);
      }
      return None;
    }

    /**
     * The entry at index `p` of bucket `s` is taken out of its chain, which becomes `rest`
     * (the head moving on, or the predecessor linked past it), and its value returned.
     */
    method Unlink(s: nat, p: nat, rest: seq<Entry<K, V>>) returns (v: V)
      requires Valid() && buckets != null && s < cap && p < |buckets[s]| && rest == Without(buckets[s], p)
      modifies this, buckets
      ensures Valid() && buckets == old(buckets) && cap == old(cap) && loadFactor == old(loadFactor)
      ensures var key := old(buckets[s][p]).key;
        key in old(contents) && v == old(contents)[key] && contents == old(contents) - {key}
    {
      ghost var t, m := table, contents;
      var c := buckets[s];
      v := c[p].value;
      ghost var key := c[p].key;
      PlacedRemove(hash, t, m, s, p, rest, key);
      FlatUpdate(t, s, rest);
      buckets[s] := rest;
      table := t[s := rest];
      len := len - 1;
      contents := m - {key};
    }

    /** RemoveAll: the map drops its table, capacity and load factor, and holds nothing. */
    method RemoveAll()
      modifies this
      ensures Valid() && contents == map[] && cap == 0 && loadFactor == 0.0
    {
      buckets, cap, len, loadFactor := null, 0, 0, 0.0;
      table, contents := [], map[];
    }

    /** Map: a map of the pairs the hash map holds. */
    method Map() returns (r: map<K, V>)
      requires Valid()
      ensures r == contents
    {
      r := map[];
      ghost var t := table;
      var i := 0;
      while i < cap
        invariant 0 <= i <= cap == |t| && r == MapOf(Flat(t[..i]))
      {
        FlatNext(t, i);
        r := MapChain(r, buckets[i], Flat(t[..i]));
        i := i + 1;
      }
      assert t[..i] == t;
      EntriesEnumerate();
    }

    /**
     * Clone: a new map of the same capacity and load factor, or the defaults after
     * RemoveAll, into which every pair is pushed.
     */
    method Clone() returns (h: HashMap<K, V>)
      requires Valid()
      ensures fresh(h) && h.Valid() && h.contents == contents && h.hash == hash
      ensures h.cap >= (if cap <= 0 then DefaultCapacity else cap)
      ensures h.loadFactor == (if loadFactor <= 0.0 then DefaultLoadFactor else loadFactor)
    {
      h := new HashMap(cap, loadFactor, hash);
      ghost var t := table;
      var i := 0;
      while i < cap
        invariant 0 <= i <= cap == |t| && t == table
        invariant fresh(h) && fresh(h.buckets) && h.Valid() && h.hash == hash && h.contents == MapOf(Flat(t[..i]))
        invariant h.cap >= (if cap <= 0 then DefaultCapacity else cap)
        invariant h.loadFactor == (if loadFactor <= 0.0 then DefaultLoadFactor else loadFactor)
      {
        FlatNext(t, i);
        h.PushChain(buckets[i], Flat(t[..i]));
        i := i + 1;
      }
      assert t[..i] == t;
      EntriesEnumerate();
    }

    /** One chain's turn in Clone: its pairs are pushed into this map, from the head. */
    method PushChain(c: seq<Entry<K, V>>, ghost done: seq<Entry<K, V>>)
      requires Valid() && cap > 0 && contents == MapOf(done)
      modifies this, buckets
      ensures Valid() && contents == MapOf(done + c)
      ensures cap >= old(cap) && loadFactor == old(loadFactor)
      ensures buckets == old(buckets) || fresh(buckets)
    {
      PrefixEnds(done, c);
      for j := 0 to |c|
        invariant Valid() && cap >= old(cap) && loadFactor == old(loadFactor)
        invariant buckets == old(buckets) || fresh(buckets)
        invariant contents == MapOf(done + c[..j])
      {
        InsertNext(done, c, j);
        var _ := Push(Some(c[j].key), c[j].value);
      }
    }

    /**
     * Do: each value, bucket by bucket and each chain from its head, is handed to each of
     * the `procs` procedures in turn; the calls made are the result. The map is unchanged.
     */
    method Do(procs: nat) returns (calls: seq<(nat, V)>)
      requires Valid()
      ensures calls == Calls(ValuesOf(Flat(table)), procs)
    {
      calls := [];
      ghost var t := table;
      var i := 0;
      while i < cap
        invariant 0 <= i <= cap == |t| && calls == Calls(ValuesOf(Flat(t[..i])), procs)
      {
        FlatNext(t, i);
        calls := DoChain(calls, buckets[i], procs, Flat(t[..i]));
        i := i + 1;
      }
      assert t[..i] == t;
    }

    /** Search: the key of an entry holding `v`; nothing when no key is paired with `v`. */
    method Search(v: V) returns (r: Option<K>)
      requires Valid()
      ensures r.None? <==> v !in contents.Values
      ensures r.Some? ==> r.value in contents && contents[r.value] == v
    {
      var i := 0;
      while i < cap
        invariant 0 <= i <= cap && (buckets != null ==> cap == buckets.Length)
        invariant forall b, e :: 0 <= b < i && e in table[b] ==> e.value != v
      {
        var c := buckets[i];
        var j := 0;
        while j < |c|
          invariant 0 <= j <= |c| && c == buckets[i]
          invariant forall q :: 0 <= q < j ==> c[q].value != v
        {
          if c[j].value == v {
            assert c[j] in table[i];
            return Some(c[j].key);
          }
          j := j + 1;
        }
        assert forall e :: e in table[i] ==> e.value != v;
        i := i + 1;
      }
      forall k | k in contents ensures contents[k] != v {
        var e :| e in table[BucketOf(hash(k), cap)] && e.key == k;
      }
      return None;
    }

    /** SearchByComparator: as Search, with `equals(value, v)` deciding a match. */
    method SearchByComparator(v: V, equals: (V, V) -> bool) returns (r: Option<K>)
      requires Valid()
      ensures r.None? <==> forall k :: k in contents ==> !equals(contents[k], v)
      ensures r.Some? ==> r.value in contents && equals(contents[r.value], v)
    {
      var i := 0;
      while i < cap
        invariant 0 <= i <= cap && (buckets != null ==> cap == buckets.Length)
        invariant forall b, e :: 0 <= b < i && e in table[b] ==> !equals(e.value, v)
      {
        var c := buckets[i];
        var j := 0;
        while j < |c|
          invariant 0 <= j <= |c| && c == buckets[i]
          invariant forall q :: 0 <= q < j ==> !equals(c[q].value, v)
        {
          if equals(c[j].value, v) {
            assert c[j] in table[i];
            return Some(c[j].key);
          }
          j := j + 1;
        }
        assert forall e :: e in table[i] ==> !equals(e.value, v);
        i := i + 1;
      }
      forall k | k in contents ensures !equals(contents[k], v) {
        var e :| e in table[BucketOf(hash(k), cap)] && e.key == k;
      }
      return None;
    }

    /**
     * String: "[]" for the empty map, otherwise the entries' "key:value" texts, bucket by
     * bucket, between brackets and separated by single spaces.
     */
    method String(showK: K -> string, showV: V -> string) returns (s: string)
      requires Valid()
      ensures s == if contents == map[] then "[]" else "[" + Joined(Flat(table), PairShow(showK, showV)) + "]"
    {
      if IsEmpty() {
        return "[]";
      }
      var show := PairShow(showK, showV);
      s := "[";
      ghost var t := table;
      var i := 0;
      while i < cap
        invariant 0 <= i <= cap == |t| && s == "[" + Spaced(Flat(t[..i]), show)
      {
        FlatNext(t, i);
        s := StringChain(s, buckets[i], showK, showV, Flat(t[..i]));
        i := i + 1;
      }
      assert t[..i] == t;
      EntriesEnumerate();
      assert Flat(t) != [] by {
        var k :| k in contents;
      }
      SpacedIsJoinedPlusSpace(Flat(t), show);
      s := s[..|s| - 1] + "]";
    }
  }

  /** NewByMap: a new map, built as New builds one, into which every pair of `values` is pushed, in no fixed order. */
  method NewByMap<K(==), V(==)>(values: map<K, V>, capacity: int, loadFactor: real, hash: K -> nat) returns (h: HashMap<K, V>)
    ensures fresh(h) && h.Valid() && h.contents == values && h.hash == hash
    ensures h.cap >= (if capacity <= 0 then DefaultCapacity else capacity)
    ensures h.loadFactor == (if loadFactor <= 0.0 then DefaultLoadFactor else loadFactor)
  {
    h := new HashMap(capacity, loadFactor, hash);
    var rest := values;
    while rest != map[]
      invariant fresh(h) && fresh(h.buckets) && h.Valid() && h.hash == hash
      invariant h.cap >= (if capacity <= 0 then DefaultCapacity else capacity)
      invariant h.loadFactor == (if loadFactor <= 0.0 then DefaultLoadFactor else loadFactor)
      invariant rest.Keys <= values.Keys && forall k :: k in rest ==> rest[k] == values[k]
      invariant h.contents == map k | k in values && k !in rest :: values[k]
      decreases |rest|
    {
      var k :| k in rest;
      var _ := h.Push(Some(k), rest[k]);
      rest := rest - {k};
    }
  }
}
