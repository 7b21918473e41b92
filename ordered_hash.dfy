/**
 * A Ruby `Hash` as the sequence of its pairs in insertion order.
 * Assigning to a key that is already present overwrites its value and
 * keeps its position; a new key goes to the end.
 */
module OrderedHash {
  import opened Wrappers

  type Hash<K, V> = seq<(K, V)>

  /** `h.keys` */
  function Keys<K, V>(h: Hash<K, V>): (ks: seq<K>)
    ensures |ks| == |h| && forall i :: 0 <= i < |h| ==> ks[i] == h[i].0
  {
    seq(|h|, i requires 0 <= i < |h| => h[i].0)
  }

  /** `h.values` (also the order in which `h.each` visits the values) */
  function Values<K, V>(h: Hash<K, V>): (vs: seq<V>)
    ensures |vs| == |h| && forall i :: 0 <= i < |h| ==> vs[i] == h[i].1
  {
    seq(|h|, i requires 0 <= i < |h| => h[i].1)
  }

  predicate DistinctKeys<K(==), V>(h: Hash<K, V>) {
    forall i, j :: 0 <= i < j < |h| ==> h[i].0 != h[j].0
  }

  /** `h[k]`, `nil` when absent. */
  function Get<K(==), V>(h: Hash<K, V>, k: K): Option<V> {
    if h == [] then None
    else if h[0].0 == k then Some(h[0].1)
    else Get(h[1..], k)
  }

  lemma GetSome<K, V>(h: Hash<K, V>, k: K)
    ensures Get(h, k).Some? <==> k in Keys(h)
  {
    if h != [] {
      GetSome(h[1..], k);
      assert Keys(h) == [h[0].0] + Keys(h[1..]);
    }
  }

  /** `h[k] = v` */
  function Put<K(==), V>(h: Hash<K, V>, k: K, v: V): Hash<K, V> {
    if h == [] then [(k, v)]
    else if h[0].0 == k then [(k, v)] + h[1..]
    else [h[0]] + Put(h[1..], k, v)
  }

  /** A present key keeps its place; a new key goes to the end. */
  lemma PutKeys<K, V>(h: Hash<K, V>, k: K, v: V)
    ensures k in Keys(h) ==> Keys(Put(h, k, v)) == Keys(h)
    ensures k !in Keys(h) ==> Put(h, k, v) == h + [(k, v)]
  {
    if k in Keys(h) {
      PutPresent(h, k, v);
    } else {
      PutAbsent(h, k, v);
    }
  }

  lemma {:induction false} PutPresent<K, V>(h: Hash<K, V>, k: K, v: V)
    requires k in Keys(h)
    ensures Keys(Put(h, k, v)) == Keys(h)
  {
    var r := Put(h, k, v);
    if h[0].0 == k {
      assert r == [(k, v)] + h[1..];
      assert |Keys(r)| == |Keys(h)|;
      forall i | 0 <= i < |h| ensures Keys(r)[i] == Keys(h)[i] {
        if i > 0 {
          assert r[i] == h[i];
        }
      }
    } else {
      assert Keys(h) == [h[0].0] + Keys(h[1..]);
      assert k in Keys(h[1..]);
      PutPresent(h[1..], k, v);
      var t := Put(h[1..], k, v);
      assert r == [h[0]] + t;
      assert Keys(r) == [h[0].0] + Keys(t);
    }
  }

  lemma {:induction false} PutAbsent<K, V>(h: Hash<K, V>, k: K, v: V)
    requires k !in Keys(h)
    ensures Put(h, k, v) == h + [(k, v)]
  {
    if h != [] {
      assert Keys(h) == [h[0].0] + Keys(h[1..]);
      PutAbsent(h[1..], k, v);
      assert h == [h[0]] + h[1..];
    }
  }

  /** Every pair of `h[k] = v`'s result is the new pair or an old one. */
  lemma {:induction false} PutPairs<K, V>(h: Hash<K, V>, k: K, v: V)
    ensures forall p :: p in Put(h, k, v) ==> p == (k, v) || p in h
  {
    if h != [] && h[0].0 != k {
      PutPairs(h[1..], k, v);
    }
  }

  /** After `h[k] = v`, `h[k]` is v and every other key reads as before. */
  lemma {:induction false} PutGet<K, V>(h: Hash<K, V>, k: K, v: V, k': K)
    ensures Get(Put(h, k, v), k') == if k' == k then Some(v) else Get(h, k')
  {
    if h != [] && h[0].0 != k {
      PutGet(h[1..], k, v, k');
    }
  }

  lemma {:induction false} PutDistinct<K, V>(h: Hash<K, V>, k: K, v: V)
    requires DistinctKeys(h)
    ensures DistinctKeys(Put(h, k, v))
  {
    PutKeys(h, k, v);
    var r := Put(h, k, v);
    if k in Keys(h) {
      forall i, j | 0 <= i < j < |r| ensures r[i].0 != r[j].0 {
        assert Keys(r)[i] == Keys(h)[i] && Keys(r)[j] == Keys(h)[j];
      }
    } else {
      forall i, j | 0 <= i < j < |r| ensures r[i].0 != r[j].0 {
        if j == |h| {
          assert Keys(h)[i] == h[i].0;
        } else {
          assert r[i] == h[i] && r[j] == h[j];
        }
      }
    }
  }

  /** The hash built by assigning the pairs one after the other. */
  function FromPairs<K(==,!new), V>(ps: seq<(K, V)>): Hash<K, V> {
    if ps == [] then []
    else
      var last := ps[|ps| - 1];
      Put(FromPairs(ps[..|ps| - 1]), last.0, last.1)
  }

  /** `xs.uniq`: first occurrences, in order. */
  function Uniq<K(==)>(xs: seq<K>): (r: seq<K>)
    ensures forall i :: 0 <= i < |r| ==> r[i] in xs
    ensures forall i :: 0 <= i < |xs| ==> xs[i] in r
    ensures forall i, j :: 0 <= i < j < |r| ==> r[i] != r[j]
  {
    if xs == [] then []
    else
      var u := Uniq(xs[..|xs| - 1]);
      var x := xs[|xs| - 1];
      assert xs == xs[..|xs| - 1] + [x];
      if x in u then u else u + [x]
  }

  /** The value the last pair with key `k` carries. */
  function LastValue<K(==), V>(ps: seq<(K, V)>, k: K): Option<V> {
    if ps == [] then None
    else if ps[|ps| - 1].0 == k then Some(ps[|ps| - 1].1)
    else LastValue(ps[..|ps| - 1], k)
  }

  /** Assigning pairs in turn keeps each key at the position of its first assignment. */
  lemma {:induction false} FromPairsKeys<K(!new), V>(ps: seq<(K, V)>)
    ensures Keys(FromPairs(ps)) == Uniq(Keys(ps))
  {
    if ps != [] {
      var init, last := ps[..|ps| - 1], ps[|ps| - 1];
      FromPairsKeys(init);
      assert Keys(ps)[..|ps| - 1] == Keys(init);
      var h := FromPairs(init);
      PutKeys(h, last.0, last.1);
      if last.0 !in Keys(h) {
        assert Keys(h + [last]) == Keys(h) + [last.0];
      }
    }
  }

  /** ... and gives each key the value of its last assignment. */
  lemma {:induction false} FromPairsGet<K(!new), V>(ps: seq<(K, V)>, k: K)
    ensures Get(FromPairs(ps), k) == LastValue(ps, k)
  {
    if ps != [] {
      FromPairsGet(ps[..|ps| - 1], k);
      PutGet(FromPairs(ps[..|ps| - 1]), ps[|ps| - 1].0, ps[|ps| - 1].1, k);
    }
  }

  lemma {:induction false} FromPairsDistinct<K(!new), V>(ps: seq<(K, V)>)
    ensures DistinctKeys(FromPairs(ps))
  {
    if ps != [] {
      FromPairsDistinct(ps[..|ps| - 1]);
      PutDistinct(FromPairs(ps[..|ps| - 1]), ps[|ps| - 1].0, ps[|ps| - 1].1);
    }
  }

  /** Without repeated keys the hash is exactly the pairs, in order. */
  lemma {:induction false} FromDistinctPairs<K(!new), V>(ps: seq<(K, V)>)
    requires DistinctKeys(ps)
    ensures FromPairs(ps) == ps
  {
    if ps != [] {
      var init, last := ps[..|ps| - 1], ps[|ps| - 1];
      assert DistinctKeys(init) by {
        forall i, j | 0 <= i < j < |init| ensures init[i].0 != init[j].0 {
          assert init[i] == ps[i] && init[j] == ps[j];
        }
      }
      FromDistinctPairs(init);
      PutKeys(init, last.0, last.1);
      assert last.0 !in Keys(init) by {
        forall i | 0 <= i < |init| ensures Keys(init)[i] != last.0 {
          assert init[i] == ps[i];
        }
      }
      assert init + [last] == ps;
    }
  }

  /** `xs.min`, `nil` for an empty collection. */
  function MinOf(xs: seq<int>): (m: Option<int>)
    ensures m.None? <==> xs == []
    ensures m.Some? ==> m.value in xs && forall x :: x in xs ==> m.value <= x
  {
    if xs == [] then None
    else
      assert xs == [xs[0]] + xs[1..];
      match MinOf(xs[1..])
      case None => Some(xs[0])
      case Some(r) => Some(if xs[0] <= r then xs[0] else r)
  }

  /** `xs.max`, `nil` for an empty collection. */
  function MaxOf(xs: seq<int>): (m: Option<int>)
    ensures m.None? <==> xs == []
    ensures m.Some? ==> m.value in xs && forall x :: x in xs ==> x <= m.value
  {
    if xs == [] then None
    else
      assert xs == [xs[0]] + xs[1..];
      match MaxOf(xs[1..])
      case None => Some(xs[0])
      case Some(r) => Some(if xs[0] >= r then xs[0] else r)
  }

  /** The smallest and largest of the consecutive numbers lo, lo+1, ... */
  lemma MinMaxOfConsecutive(xs: seq<int>, lo: int)
    requires |xs| > 0 && forall k :: 0 <= k < |xs| ==> xs[k] == lo + k
    ensures MinOf(xs) == Some(lo) && MaxOf(xs) == Some(lo + |xs| - 1)
  {
    assert xs[0] in xs && xs[|xs| - 1] in xs;
  }

  // ---------------------------------------------------------------------
  // Hash#sort.to_h on integer keys
  // ---------------------------------------------------------------------

  predicate SortedKeys<V>(h: Hash<int, V>) {
    forall i, j :: 0 <= i < j < |h| ==> h[i].0 <= h[j].0
  }

  predicate IncreasingKeys<V>(h: Hash<int, V>) {
    forall i, j :: 0 <= i < j < |h| ==> h[i].0 < h[j].0
  }

  /** How many pairs at the front have a key of at most `key`. */
  function LeadingAtMost<V>(h: Hash<int, V>, key: int): (n: nat)
    ensures n <= |h|
    ensures forall i :: 0 <= i < n ==> h[i].0 <= key
    ensures n < |h| ==> key < h[n].0
  {
    if h == [] || key < h[0].0 then 0 else 1 + LeadingAtMost(h[1..], key)
  }

  /** Places `p` after the leading pairs whose key is at most its own. */
  function Insert<V(==,!new)>(h: Hash<int, V>, p: (int, V)): (r: Hash<int, V>)
    ensures |r| == |h| + 1
    ensures forall x :: x in r <==> x in h || x == p
  {
    var n := LeadingAtMost(h, p.0);
    assert h == h[..n] + h[n..];
    h[..n] + [p] + h[n..]
  }

  lemma InsertSorted<V(!new)>(h: Hash<int, V>, p: (int, V))
    requires SortedKeys(h)
    ensures SortedKeys(Insert(h, p))
  {
    var n := LeadingAtMost(h, p.0);
    var r := Insert(h, p);
    assert r == h[..n] + [p] + h[n..];
    forall i, j | 0 <= i < j < |r|
      ensures r[i].0 <= r[j].0
    {
      var ki := if i < n then i else if i == n then -1 else i - 1;
      var kj := if j < n then j else if j == n then -1 else j - 1;
      if ki >= 0 && kj >= 0 {
        assert r[i] == h[ki] && r[j] == h[kj];
      } else if ki < 0 {
        assert r[i] == p && r[j] == h[kj] && n <= kj;
        assert h[n].0 <= h[kj].0;
      } else {
        assert r[j] == p && r[i] == h[ki];
      }
    }
  }

  lemma InsertDistinct<V(!new)>(h: Hash<int, V>, p: (int, V))
    requires DistinctKeys(h) && p.0 !in Keys(h)
    ensures DistinctKeys(Insert(h, p))
  {
    var n := LeadingAtMost(h, p.0);
    var r := Insert(h, p);
    assert r == h[..n] + [p] + h[n..];
    forall i, j | 0 <= i < j < |r|
      ensures r[i].0 != r[j].0
    {
      var ki := if i < n then i else if i == n then -1 else i - 1;
      var kj := if j < n then j else if j == n then -1 else j - 1;
      if ki >= 0 && kj >= 0 {
        assert r[i] == h[ki] && r[j] == h[kj];
      } else if ki < 0 {
        assert r[i] == p && r[j] == h[kj] && Keys(h)[kj] == h[kj].0;
      } else {
        assert r[j] == p && r[i] == h[ki] && Keys(h)[ki] == h[ki].0;
      }
    }
  }

  /**
   * `h.sort.to_h` for a hash with integer keys: the pairs ordered by key.
   * With distinct keys the comparison never reaches the values.
   */
  function SortByKey<V(==,!new)>(h: Hash<int, V>): (r: Hash<int, V>)
    ensures |r| == |h|
    ensures forall x :: x in r <==> x in h
  {
    if h == [] then []
    else
      assert h == h[..|h| - 1] + [h[|h| - 1]];
      Insert(SortByKey(h[..|h| - 1]), h[|h| - 1])
  }

  lemma {:induction false} SortByKeySortedKeys<V(!new)>(h: Hash<int, V>)
    ensures SortedKeys(SortByKey(h))
  {
    if h != [] {
      SortByKeySortedKeys(h[..|h| - 1]);
      InsertSorted(SortByKey(h[..|h| - 1]), h[|h| - 1]);
    }
  }

  lemma {:induction false} SortByKeyDistinct<V(!new)>(h: Hash<int, V>)
    requires DistinctKeys(h)
    ensures DistinctKeys(SortByKey(h))
  {
    if h != [] {
      var init, last := h[..|h| - 1], h[|h| - 1];
      assert DistinctKeys(init) by {
        forall i, j | 0 <= i < j < |init| ensures init[i].0 != init[j].0 {
          assert init[i] == h[i] && init[j] == h[j];
        }
      }
      SortByKeyDistinct(init);
      var t := SortByKey(init);
      assert last.0 !in Keys(t) by {
        forall i | 0 <= i < |t| ensures Keys(t)[i] != last.0 {
          assert t[i] in init;
          var k :| 0 <= k < |init| && init[k] == t[i];
          assert init[k] == h[k];
        }
      }
      InsertDistinct(t, last);
    }
  }

  /** Sorting keeps exactly the pairs, and distinct keys come out strictly increasing. */
  lemma SortByKeyPairs<V(!new)>(h: Hash<int, V>)
    requires DistinctKeys(h)
    ensures forall p :: p in SortByKey(h) <==> p in h
    ensures IncreasingKeys(SortByKey(h))
  {
    SortByKeySortedKeys(h);
    SortByKeyDistinct(h);
  }

  /** A hash already in key order is left as it is. */
  lemma {:induction false} SortByKeySorted<V(!new)>(h: Hash<int, V>)
    requires SortedKeys(h)
    ensures SortByKey(h) == h
  {
    if h != [] {
      var init, last := h[..|h| - 1], h[|h| - 1];
      SortByKeySorted(init);
      InsertLast(init, last);
      assert init + [last] == h;
    }
  }

  lemma InsertLast<V(!new)>(h: Hash<int, V>, p: (int, V))
    requires forall i :: 0 <= i < |h| ==> h[i].0 <= p.0
    ensures Insert(h, p) == h + [p]
  {
    assert LeadingAtMost(h, p.0) == |h|;
  }

  lemma SortByKeySnoc<V(!new)>(h: Hash<int, V>, p: (int, V))
    ensures SortByKey(h + [p]) == Insert(SortByKey(h), p)
  {
    assert (h + [p])[..|h|] == h;
  }

  /** Inserting in front of the first pair with a larger key. */
  lemma InsertAt<V(!new)>(h: Hash<int, V>, p: (int, V), n: nat)
    requires n <= |h| && (forall i :: 0 <= i < n ==> h[i].0 <= p.0) && (n < |h| ==> p.0 < h[n].0)
    ensures Insert(h, p) == h[..n] + [p] + h[n..]
  {
    LeadingAtMostIs(h, p.0, n);
  }

  lemma {:induction false} LeadingAtMostIs<V>(h: Hash<int, V>, key: int, n: nat)
    requires n <= |h| && (forall i :: 0 <= i < n ==> h[i].0 <= key) && (n < |h| ==> key < h[n].0)
    ensures LeadingAtMost(h, key) == n
  {
    if n > 0 {
      LeadingAtMostIs(h[1..], key, n - 1);
    }
  }
}
