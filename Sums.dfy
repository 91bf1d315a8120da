/** Sums of the values of a finite map.  Python's `sum(d.values())`
    visits the values in insertion order; over the reals the order does
    not matter, which `SumValuesRemove` establishes. */
module Sums {

  /** Sum of all values of `m`. */
  ghost function SumValues<K>(m: map<K, real>): real
    decreases |m|
  {
    if m == map[] then 0.0
    else
      var k :| k in m;
      m[k] + SumValues(m - {k})
  }

  /** Any key may be taken out first: the sum does not depend on the order
      in which the values are visited. */
  lemma {:induction false} SumValuesRemove<K>(m: map<K, real>, k: K)
    requires k in m
    ensures SumValues(m) == m[k] + SumValues(m - {k})
    decreases |m|
  {
    var j :| j in m && SumValues(m) == m[j] + SumValues(m - {j});
    if j != k {
      var mj, mk := m - {j}, m - {k};
      assert k in mj && j in mk;
      SumValuesRemove(mj, k);
      SumValuesRemove(mk, j);
      assert mj - {k} == mk - {j};
    }
  }

  /** Adding a fresh key adds its value to the sum. */
  lemma SumValuesInsert<K>(m: map<K, real>, k: K, v: real)
    requires k !in m
    ensures SumValues(m[k := v]) == SumValues(m) + v
  {
    SumValuesRemove(m[k := v], k);
    assert m[k := v] - {k} == m;
  }

  /** Overwriting a key replaces its share of the sum. */
  lemma SumValuesUpdate<K>(m: map<K, real>, k: K, v: real)
    requires k in m
    ensures SumValues(m[k := v]) == SumValues(m) - m[k] + v
  {
    SumValuesRemove(m[k := v], k);
    SumValuesRemove(m, k);
    assert m[k := v] - {k} == m - {k};
  }

  /** `sum(d.values())` computed the way Python does it, one value at a
      time; the loop visits the keys in an arbitrary order. */
  method SumOf<K>(m: map<K, real>) returns (total: real)
    ensures total == SumValues(m)
  {
    total := 0.0;
    var rest := m;
    while rest != map[]
      invariant rest.Keys <= m.Keys
      invariant forall k :: k in rest ==> rest[k] == m[k]
      invariant total + SumValues(rest) == SumValues(m)
      decreases |rest|
    {
      var k :| k in rest;
      SumValuesRemove(rest, k);
      total := total + rest[k];
      rest := rest - {k};
    }
  }
}
