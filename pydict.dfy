/**
  A Python `dict` as the service uses it: a table of entries that keeps the
  order in which keys were first inserted. Assigning to a key already present
  replaces its value where it stands; assigning to a new key appends an entry.
 */
module PyDict {
  import opened Base

  /** The entries of a dict, in insertion order. */
  type Dict<K, V> = seq<(K, V)>

  /** No element occurs twice. */
  ghost predicate Distinct<T>(s: seq<T>)
  {
    forall i, j :: 0 <= i < j < |s| ==> s[i] != s[j]
  }

  /** `list(d.keys())`: the keys in insertion order. */
  function Keys<K, V>(d: Dict<K, V>): (ks: seq<K>)
    ensures |ks| == |d|
    ensures forall i :: 0 <= i < |d| ==> ks[i] == d[i].0
  {
    if d == [] then [] else [d[0].0] + Keys(d[1..])
  }

  /** `d[k]` when `k in d`, `None` otherwise. */
  function Get<K(==), V>(d: Dict<K, V>, k: K): (r: Option<V>)
    ensures r.Some? <==> k in Keys(d)
    ensures r.Some? ==> (k, r.value) in d
  {
    if d == [] then None
    else if d[0].0 == k then Some(d[0].1)
    else Get(d[1..], k)
  }

  /** `d[k] = v`: replaces the entry of `k` in place, or appends a new entry. */
  function Put<K(==), V>(d: Dict<K, V>, k: K, v: V): (r: Dict<K, V>)
    ensures |d| <= |r| <= |d| + 1
  {
    if d == [] then [(k, v)]
    else if d[0].0 == k then [(k, v)] + d[1..]
    else [d[0]] + Put(d[1..], k, v)
  }

  /** Overwriting a present key keeps the key sequence, order included. */
  lemma {:induction false} PutPresentKeepsKeys<K, V>(d: Dict<K, V>, k: K, v: V)
    requires k in Keys(d)
    ensures Keys(Put(d, k, v)) == Keys(d)
  {
    if d[0].0 != k {
      assert k in Keys(d[1..]);
      PutPresentKeepsKeys(d[1..], k, v);
      assert Put(d, k, v) == [d[0]] + Put(d[1..], k, v);
    }
  }

  /** Assigning to an absent key appends exactly one entry at the end. */
  lemma {:induction false} PutAbsentAppends<K, V>(d: Dict<K, V>, k: K, v: V)
    requires k !in Keys(d)
    ensures Put(d, k, v) == d + [(k, v)]
    ensures Keys(Put(d, k, v)) == Keys(d) + [k]
  {
    if d != [] {
      assert d[0].0 != k && k !in Keys(d[1..]);
      PutAbsentAppends(d[1..], k, v);
      calc {
        Put(d, k, v);
        [d[0]] + Put(d[1..], k, v);
        [d[0]] + (d[1..] + [(k, v)]);
        { assert d == [d[0]] + d[1..]; }
        d + [(k, v)];
      }
    }
    var ks := Keys(d + [(k, v)]);
    assert |ks| == |Keys(d) + [k]|;
    assert forall i :: 0 <= i < |ks| ==> ks[i] == (Keys(d) + [k])[i];
  }

  /** After `d[k] = v`, reading `d[k]` gives `v`. */
  lemma {:induction false} PutThenGet<K, V>(d: Dict<K, V>, k: K, v: V)
    ensures Get(Put(d, k, v), k) == Some(v)
  {
    if d != [] && d[0].0 != k {
      PutThenGet(d[1..], k, v);
      assert Put(d, k, v)[1..] == Put(d[1..], k, v);
    }
  }

  /** `d[k] = v` leaves every other key's lookup as it was. */
  lemma {:induction false} PutLeavesOthers<K, V>(d: Dict<K, V>, k: K, v: V, k': K)
    requires k' != k
    ensures Get(Put(d, k, v), k') == Get(d, k')
  {
    if d == [] {
    } else if d[0].0 == k {
      assert Put(d, k, v)[1..] == d[1..];
    } else if d[0].0 != k' {
      PutLeavesOthers(d[1..], k, v, k');
      assert Put(d, k, v)[1..] == Put(d[1..], k, v);
    }
  }

  /** Assignment never creates a duplicate key. */
  lemma PutKeepsDistinct<K, V>(d: Dict<K, V>, k: K, v: V)
    requires Distinct(Keys(d))
    ensures Distinct(Keys(Put(d, k, v)))
  {
    if k in Keys(d) {
      PutPresentKeepsKeys(d, k, v);
    } else {
      PutAbsentAppends(d, k, v);
    }
  }
}
