/**
 * The keyed store that Spring Data's CRUD repository puts in front of a table,
 * reduced to a finite map from key to row.
 */
module Repository {
  import opened Domain

  /** `findById`: the row under `k`, if any. */
  function FindById<K, V>(m: map<K, V>, k: K): (r: Option<V>)
    ensures r.Some? <==> k in m
    ensures r.Some? ==> r.value == m[k]
  {
    if k in m then Some(m[k]) else None
  }

  /** `existsById`: agrees with `findById` on every key. */
  function ExistsById<K, V>(m: map<K, V>, k: K): (b: bool)
    ensures b <==> FindById(m, k).Some?
  {
    k in m
  }

  /** `deleteById`: the key is gone and every other entry stays. */
  function DeleteById<K, V>(m: map<K, V>, k: K): (m': map<K, V>)
    ensures k !in m'
    ensures m'.Keys == m.Keys - {k}
    ensures forall j :: j in m' ==> m'[j] == m[j]
  {
    m - {k}
  }

  /** No key occurs twice in `ks`. */
  predicate Distinct<K(==)>(ks: seq<K>)
  {
    forall i, j :: 0 <= i < j < |ks| ==> ks[i] != ks[j]
  }

  /**
   * The store's iteration order for `findAll`: every key exactly once, in an
   * order the store chooses.
   */
  method KeyList<K(==), V>(m: map<K, V>) returns (ks: seq<K>)
    ensures |ks| == |m.Keys|
    ensures forall k :: k in ks <==> k in m
    ensures Distinct(ks)
  {
    ks := [];
    var rest := m.Keys;
    while rest != {}
      invariant rest <= m.Keys
      invariant forall k :: k in ks ==> k in m && k !in rest
      invariant forall k :: k in m && k !in rest ==> k in ks
      invariant Distinct(ks)
      invariant |ks| + |rest| == |m.Keys|
      decreases |rest|
    {
      var k :| k in rest;
      ks := ks + [k];
      rest := rest - {k};
    }
  }
}
