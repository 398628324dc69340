/** JavaScript's `Map`: entries keep the order in which their keys were first set. */
module OrderedMaps {
  import opened Basics

  type OrderedMap<K, V> = seq<(K, V)>

  ghost predicate UniqueKeys<K, V>(m: OrderedMap<K, V>) {
    forall i, j :: 0 <= i < j < |m| ==> m[i].0 != m[j].0
  }

  ghost predicate HasKey<K, V>(m: OrderedMap<K, V>, k: K) {
    exists i :: 0 <= i < |m| && m[i].0 == k
  }

  function Get<K(==), V>(m: OrderedMap<K, V>, k: K): (v: Option<V>) {
    if m == [] then None
    else if m[0].0 == k then Some(m[0].1)
    else Get(m[1..], k)
  }

  /** `map.set(k, v)`: a known key keeps its place, a new one goes to the end. */
  function Put<K(==), V>(m: OrderedMap<K, V>, k: K, v: V): (r: OrderedMap<K, V>) {
    if m == [] then [(k, v)]
    else if m[0].0 == k then [(k, v)] + m[1..]
    else [m[0]] + Put(m[1..], k, v)
  }

  /** Setting a key changes what it maps to and nothing else, and keeps keys unique. */
  lemma {:induction false} PutThenGet<K, V>(m: OrderedMap<K, V>, k: K, v: V, other: K)
    ensures Get(Put(m, k, v), other) == if other == k then Some(v) else Get(m, other)
  {
    if m != [] {
      PutThenGet(m[1..], k, v, other);
      if m[0].0 != k {
        assert Put(m, k, v)[1..] == Put(m[1..], k, v);
      }
    }
  }

  lemma {:induction false} PutIsAppend<K, V>(m: OrderedMap<K, V>, k: K, v: V)
    requires !HasKey(m, k)
    ensures Put(m, k, v) == m + [(k, v)]
  {
    if m != [] {
      assert forall i :: 0 <= i < |m[1..]| ==> m[1..][i] == m[i + 1];
      PutIsAppend(m[1..], k, v);
      assert m[0].0 != k;
      assert m == [m[0]] + m[1..];
    }
  }

  /** Overwriting keeps the key column as it is. */
  lemma {:induction false} PutKeepsPlaces<K, V>(m: OrderedMap<K, V>, k: K, v: V)
    requires HasKey(m, k)
    ensures |Put(m, k, v)| == |m|
    ensures forall i :: 0 <= i < |m| ==> Put(m, k, v)[i].0 == m[i].0
  {
    if m[0].0 != k {
      assert HasKey(m[1..], k) by {
        var i :| 0 <= i < |m| && m[i].0 == k;
        assert m[1..][i - 1].0 == k;
      }
      PutKeepsPlaces(m[1..], k, v);
    }
  }

  lemma PutKeepsUnique<K, V>(m: OrderedMap<K, V>, k: K, v: V)
    requires UniqueKeys(m)
    ensures UniqueKeys(Put(m, k, v))
  {
    if HasKey(m, k) {
      PutKeepsPlaces(m, k, v);
    } else {
      PutIsAppend(m, k, v);
    }
  }

  lemma {:induction false} GetFinds<K, V>(m: OrderedMap<K, V>, k: K)
    ensures Get(m, k).Some? <==> HasKey(m, k)
  {
    if m != [] {
      GetFinds(m[1..], k);
      if HasKey(m, k) && m[0].0 != k {
        var i :| 0 <= i < |m| && m[i].0 == k;
        assert m[1..][i - 1] == m[i];
      }
      if HasKey(m[1..], k) {
        var i :| 0 <= i < |m[1..]| && m[1..][i].0 == k;
        assert m[i + 1] == m[1..][i];
      }
    }
  }
}
