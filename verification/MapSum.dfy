// Sums of a map's values over sets of its keys.

module MapSum {

  ghost function SumOver<K>(keys: set<K>, m: map<K, nat>): nat
    requires keys <= m.Keys
  {
    if keys == {} then 0
    else
      var k :| k in keys;
      m[k] + SumOver(keys - {k}, m)
  }

  /** The sum does not depend on which key is taken first. */
  lemma {:induction false} SumTake<K>(keys: set<K>, m: map<K, nat>, k: K)
    requires keys <= m.Keys && k in keys
    ensures SumOver(keys, m) == m[k] + SumOver(keys - {k}, m)
    decreases |keys|
  {
    var j :| j in keys && SumOver(keys, m) == m[j] + SumOver(keys - {j}, m);
    if j != k {
      SumTake(keys - {j}, m, k);
      SumTake(keys - {k}, m, j);
      assert keys - {j} - {k} == keys - {k} - {j};
    }
  }

  /** Maps that agree on the keys have the same sum over them. */
  lemma {:induction false} SumAgree<K>(keys: set<K>, m: map<K, nat>, n: map<K, nat>)
    requires keys <= m.Keys && keys <= n.Keys && forall k :: k in keys ==> m[k] == n[k]
    ensures SumOver(keys, m) == SumOver(keys, n)
    decreases |keys|
  {
    if keys != {} {
      var k :| k in keys;
      SumTake(keys, m, k);
      SumTake(keys, n, k);
      SumAgree(keys - {k}, m, n);
    }
  }

  /** The sum over a set splits along any subset. */
  lemma {:induction false} SumSplit<K>(keys: set<K>, part: set<K>, m: map<K, nat>)
    requires keys <= m.Keys && part <= keys
    ensures SumOver(keys, m) == SumOver(part, m) + SumOver(keys - part, m)
    decreases |part|
  {
    if part == {} {
      assert keys - part == keys;
    } else {
      var k :| k in part;
      SumTake(keys, m, k);
      SumTake(part, m, k);
      SumSplit(keys - {k}, part - {k}, m);
      assert (keys - {k}) - (part - {k}) == keys - part;
    }
  }

  /** Sum of all values. */
  ghost function Total<K>(m: map<K, nat>): nat { SumOver(m.Keys, m) }

  lemma TotalInsert<K>(m: map<K, nat>, k: K, v: nat)
    requires k !in m
    ensures Total(m[k := v]) == Total(m) + v
  {
    var n := m[k := v];
    SumTake(n.Keys, n, k);
    assert n.Keys - {k} == m.Keys;
    SumAgree(m.Keys, n, m);
  }

  lemma TotalRemove<K>(m: map<K, nat>, part: set<K>)
    requires part <= m.Keys
    ensures Total(m) == Total(m - part) + SumOver(part, m)
  {
    SumSplit(m.Keys, part, m);
    var n := m - part;
    assert n.Keys == m.Keys - part;
    SumAgree(n.Keys, n, m);
  }
}
