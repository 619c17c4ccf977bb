/** Sums over the values of finite maps. */
module Totals {
  import opened Collections

  function Get<K>(m: map<K, int>, k: K): int {
    if k in m then m[k] else 0
  }

  ghost function Total<K>(m: map<K, int>): int
    decreases |m|
  {
    if m.Keys == {} then 0
    else
      var k := Pick(m.Keys);
      m[k] + Total(m - {k})
  }

  lemma {:induction false} TotalRemove<K>(m: map<K, int>, k: K)
    requires k in m
    ensures Total(m) == m[k] + Total(m - {k})
    decreases |m|
  {
    var j := Pick(m.Keys);
    if j != k {
      TotalRemove(m - {j}, k);
      TotalRemove(m - {k}, j);
      assert m - {j} - {k} == m - {k} - {j};
    }
  }

  /** An update changes the sum by the difference of the values. */
  lemma TotalUpdate<K>(m: map<K, int>, k: K, v: int)
    ensures Total(m[k := v]) == Total(m) - Get(m, k) + v
  {
    TotalRemove(m[k := v], k);
    assert m[k := v] - {k} == m - {k};
    if k in m {
      TotalRemove(m, k);
    } else {
      assert m - {k} == m;
    }
  }

  /** One nonnegative summand is at most the sum. */
  lemma {:induction false} TotalBound<K>(m: map<K, int>, k: K)
    requires forall j :: j in m ==> m[j] >= 0
    ensures 0 <= Get(m, k) <= Total(m)
    decreases |m|
  {
    if m.Keys != {} {
      var j := Pick(m.Keys);
      TotalBound(m - {j}, k);
      TotalRemove(m, j);
      if k in m && k != j {
        assert Get(m - {j}, k) == m[k];
      }
      TotalBound(m - {j}, j);
    } else {
      assert m == map[];
    }
  }
}
