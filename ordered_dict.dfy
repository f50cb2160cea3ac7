/**
 * An insertion-ordered dictionary, as a Python `dict` and the key order of a
 * JavaScript object (`Object.entries`) behave: assigning to a key that is
 * present replaces its value in place, assigning to a new key appends it.
 */
module OrderedDict {
  import opened Wrappers

  /** The entries in insertion order. */
  type Dict<K, V> = seq<(K, V)>

  function Keys<K, V>(d: Dict<K, V>): (ks: seq<K>)
    ensures |ks| == |d|
  {
    seq(|d|, i requires 0 <= i < |d| => d[i].0)
  }

  predicate DistinctKeys<K(==), V>(d: Dict<K, V>)
  {
    forall i, j :: 0 <= i < j < |d| ==> d[i].0 != d[j].0
  }

  /** `d.get(k)`: the value stored under `k`, if any. */
  function Get<K(==), V>(d: Dict<K, V>, k: K): (r: Option<V>)
    ensures r.None? <==> k !in Keys(d)
  {
    if |d| == 0 then None
    else if d[0].0 == k then
      assert Keys(d)[0] == k;
      Some(d[0].1)
    else
      assert Keys(d) == [d[0].0] + Keys(d[1..]);
      Get(d[1..], k)
  }

  /** `d[k] = v`. */
  function Put<K(==, !new), V>(d: Dict<K, V>, k: K, v: V): (r: Dict<K, V>)
    ensures forall k' :: Get(r, k') == if k' == k then Some(v) else Get(d, k')
  {
    if |d| == 0 then [(k, v)]
    else if d[0].0 == k then [(k, v)] + d[1..]
    else [d[0]] + Put(d[1..], k, v)
  }

  lemma PutSame<K(!new), V>(d: Dict<K, V>, k: K, v: V)
    ensures Get(Put(d, k, v), k) == Some(v)
  {
  }

  lemma PutOther<K(!new), V>(d: Dict<K, V>, k: K, v: V, k': K)
    requires k' != k
    ensures Get(Put(d, k, v), k') == Get(d, k')
  {
  }

  lemma KeysCons<K, V>(d: Dict<K, V>)
    requires |d| > 0
    ensures Keys(d) == [d[0].0] + Keys(d[1..])
  {
    var ks, rs := Keys(d), [d[0].0] + Keys(d[1..]);
    assert |ks| == |rs|;
    forall i | 0 <= i < |ks| ensures ks[i] == rs[i] {
      if i > 0 {
        assert d[1..][i - 1] == d[i];
      }
    }
  }

  /** An existing key keeps its place; a new key goes last. */
  lemma {:induction false} PutKeys<K(!new), V>(d: Dict<K, V>, k: K, v: V)
    ensures Keys(Put(d, k, v)) == if k in Keys(d) then Keys(d) else Keys(d) + [k]
  {
    var r := Put(d, k, v);
    if |d| == 0 {
      assert r == [(k, v)];
      assert Keys(r) == [k];
    } else {
      KeysCons(d);
      KeysCons(r);
      if d[0].0 == k {
        assert r == [(k, v)] + d[1..];
        assert r[1..] == d[1..];
      } else {
        assert r == [d[0]] + Put(d[1..], k, v);
        assert r[1..] == Put(d[1..], k, v);
        PutKeys(d[1..], k, v);
        assert k in Keys(d) <==> k in Keys(d[1..]);
      }
    }
  }

  /** Assignment keeps the keys distinct. */
  lemma PutDistinct<K(!new), V>(d: Dict<K, V>, k: K, v: V)
    requires DistinctKeys(d)
    ensures DistinctKeys(Put(d, k, v))
  {
    var r := Put(d, k, v);
    PutKeys(d, k, v);
    var ks := Keys(r);
    forall a, b | 0 <= a < b < |r| ensures r[a].0 != r[b].0 {
      assert r[a].0 == ks[a] && r[b].0 == ks[b];
      if b < |d| {
        assert ks[a] == Keys(d)[a] == d[a].0 && ks[b] == Keys(d)[b] == d[b].0;
      } else {
        assert ks[b] == k && k !in Keys(d);
        assert ks[a] == Keys(d)[a];
      }
    }
  }
}
