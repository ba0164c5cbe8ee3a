/**
  Python dictionaries as the scripts use them: a mapping that remembers the
  order in which keys were first inserted, since iteration (and so every
  file written from a dict) follows that order.
 */
module Dicts {
  import opened Wrappers

  /** A dict as its (key, value) pairs in insertion order. */
  type Dict<K, V> = seq<(K, V)>

  function Keys<K, V>(d: Dict<K, V>): (ks: seq<K>)
    ensures |ks| == |d|
    ensures forall i :: 0 <= i < |d| ==> ks[i] == d[i].0
  {
    seq(|d|, i requires 0 <= i < |d| => d[i].0)
  }

  function Values<K, V>(d: Dict<K, V>): (vs: seq<V>)
    ensures |vs| == |d|
    ensures forall i :: 0 <= i < |d| ==> vs[i] == d[i].1
  {
    seq(|d|, i requires 0 <= i < |d| => d[i].1)
  }

  /** No key occurs twice: what every Python dict satisfies. */
  predicate KeysDistinct<K(==), V>(d: Dict<K, V>) {
    forall i, j :: 0 <= i < j < |d| ==> d[i].0 != d[j].0
  }

  predicate ValuesDistinct<K, V(==)>(d: Dict<K, V>) {
    forall i, j :: 0 <= i < j < |d| ==> d[i].1 != d[j].1
  }

  /** Position of the first occurrence of `k` in `ks`. */
  function FindKey<K(==)>(ks: seq<K>, k: K): (r: Option<nat>)
    ensures r.None? <==> k !in ks
    ensures r.Some? ==> r.value < |ks| && ks[r.value] == k && k !in ks[..r.value]
  {
    if ks == [] then None
    else if ks[0] == k then Some(0)
    else
      match FindKey(ks[1..], k)
      case None => None
      case Some(i) =>
        assert ks[..i + 1] == [ks[0]] + ks[1..][..i];
        Some(i + 1)
  }

  function Find<K(==), V>(d: Dict<K, V>, k: K): Option<nat> {
    FindKey(Keys(d), k)
  }

  /** Python's `d.get(k)`. */
  function Get<K(==), V>(d: Dict<K, V>, k: K): (r: Option<V>)
    ensures r.None? <==> k !in Keys(d)
    ensures r.Some? ==> (k, r.value) in d
  {
    match Find(d, k)
    case None => None
    case Some(i) => Some(d[i].1)
  }

  lemma {:induction false} FindKeySnoc<K>(ks: seq<K>, k: K, k': K)
    requires k' != k
    ensures FindKey(ks + [k], k') == FindKey(ks, k')
    decreases |ks|
  {
    if ks != [] {
      assert (ks + [k])[1..] == ks[1..] + [k];
      FindKeySnoc(ks[1..], k, k');
    }
  }

  /** Python's `d[k] = v`: an existing key keeps its place, a new key goes last. */
  function Put<K(==,!new), V>(d: Dict<K, V>, k: K, v: V): (r: Dict<K, V>)
    ensures Get(r, k) == Some(v)
    ensures forall k' :: k' != k ==> Get(r, k') == Get(d, k')
    ensures k in Keys(d) ==> Keys(r) == Keys(d)
    ensures k !in Keys(d) ==> Keys(r) == Keys(d) + [k]
    ensures KeysDistinct(d) ==> KeysDistinct(r)
  {
    match Find(d, k)
    case Some(i) =>
      var r := d[i := (k, v)];
      assert Keys(r) == Keys(d);
      r
    case None =>
      var r := d + [(k, v)];
      assert Keys(r) == Keys(d) + [k];
      forall k' | k' != k
        ensures Get(r, k') == Get(d, k')
      {
        FindKeySnoc(Keys(d), k, k');
      }
      r
  }

  /** Position of the first entry whose value is `v`. */
  function FindValue<K, V(==)>(d: Dict<K, V>, v: V): (i: nat)
    requires v in Values(d)
    ensures i < |d| && d[i].1 == v
    ensures forall j :: 0 <= j < i ==> d[j].1 != v
  {
    if d[0].1 == v then 0
    else
      assert v in Values(d[1..]) by {
        var j :| 0 <= j < |d| && Values(d)[j] == v;
        assert Values(d[1..])[j - 1] == v;
      }
      1 + FindValue(d[1..], v)
  }

  /** Where `Put` leaves the pair: in place of the old one for a present key, last for a new key. */
  lemma PutShape<K(!new), V>(d: Dict<K, V>, k: K, v: V)
    ensures k !in Keys(d) ==> Put(d, k, v) == d + [(k, v)]
    ensures k in Keys(d) ==> Find(d, k).Some? && Put(d, k, v) == d[Find(d, k).value := (k, v)]
  {
  }

  /** Storing a value that is not yet in the dict keeps the values pairwise distinct. */
  lemma PutFreshValue<K(!new), V>(d: Dict<K, V>, k: K, v: V)
    requires ValuesDistinct(d) && v !in Values(d)
    ensures ValuesDistinct(Put(d, k, v))
  {
    PutShape(d, k, v);
    if k in Keys(d) {
      var i := Find(d, k).value;
      forall j | 0 <= j < |d| && j != i
        ensures d[j].1 != v
      {
        assert Values(d)[j] == d[j].1;
      }
    } else {
      forall j | 0 <= j < |d|
        ensures d[j].1 != v
      {
        assert Values(d)[j] == d[j].1;
      }
    }
  }
}
