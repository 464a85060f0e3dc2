/** The sum of the values of a finite map, as a Go loop that ranges over a
    `map[string]int` and adds up its values computes it. */
module MapSums {

  /** Sum of `m[k]` over the keys `k` in `keys`. */
  ghost function SumOver<K>(m: map<K, int>, keys: set<K>): int
    requires keys <= m.Keys
  {
    if keys == {} then 0
    else
      var k :| k in keys;
      m[k] + SumOver(m, keys - {k})
  }

  /** Sum of all values of `m`. */
  ghost function MapSum<K>(m: map<K, int>): int
  {
    SumOver(m, m.Keys)
  }

  /** Any key may be taken out first: the sum does not depend on the order
      in which the keys are visited. */
  lemma {:induction false} SumOverRemove<K>(m: map<K, int>, keys: set<K>, k: K)
    requires keys <= m.Keys && k in keys
    ensures SumOver(m, keys) == m[k] + SumOver(m, keys - {k})
    decreases |keys|
  {
    var j :| j in keys && SumOver(m, keys) == m[j] + SumOver(m, keys - {j});
    if j != k {
      SumOverRemove(m, keys - {j}, k);
      SumOverRemove(m, keys - {k}, j);
      assert keys - {j} - {k} == keys - {k} - {j};
    }
  }

  /** Two maps that agree on `keys` have the same sum over `keys`. */
  lemma {:induction false} SumOverAgree<K>(m1: map<K, int>, m2: map<K, int>, keys: set<K>)
    requires keys <= m1.Keys && keys <= m2.Keys
    requires forall k :: k in keys ==> m1[k] == m2[k]
    ensures SumOver(m1, keys) == SumOver(m2, keys)
    decreases |keys|
  {
    if keys != {} {
      var k :| k in keys;
      SumOverRemove(m1, keys, k);
      SumOverRemove(m2, keys, k);
      SumOverAgree(m1, m2, keys - {k});
    }
  }

  /** Setting key `k` to `v` changes the sum by the difference between `v`
      and the old value of `k` (zero when `k` was absent). */
  lemma MapSumUpdate<K>(m: map<K, int>, k: K, v: int)
    ensures MapSum(m[k := v]) == MapSum(m) - (if k in m then m[k] else 0) + v
  {
    var m' := m[k := v];
    var rest := m.Keys - {k};
    assert m'.Keys - {k} == rest;
    SumOverRemove(m', m'.Keys, k);
    SumOverAgree(m, m', rest);
    if k in m {
      SumOverRemove(m, m.Keys, k);
    } else {
      assert m.Keys == rest;
    }
  }
}
