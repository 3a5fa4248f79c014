/**
 Sums over the rows of a finite table.
 */
module Sums {

  ghost function Sum<K(!new)>(m: map<K, int>): int {
    if m == map[] then 0 else
      var k :| k in m;
      m[k] + Sum(m - {k})
  }

  lemma {:induction false} SumTake<K(!new)>(m: map<K, int>, k: K)
    requires k in m
    ensures Sum(m) == m[k] + Sum(m - {k})
    decreases |m|
  {
    var j :| j in m && Sum(m) == m[j] + Sum(m - {j});
    if j != k {
      assert |m - {j}| == |m| - 1;
      SumTake(m - {j}, k);
      SumTake(m - {k}, j);
      assert m - {j} - {k} == m - {k} - {j};
    }
  }

  function At<K>(m: map<K, int>, k: K): int {
    if k in m then m[k] else 0
  }

  /** Writing one row changes the sum by the difference of that row. */
  lemma SumWrite<K(!new)>(m: map<K, int>, k: K, v: int)
    ensures Sum(m[k := v]) == Sum(m) - At(m, k) + v
  {
    SumTake(m[k := v], k);
    assert m[k := v] - {k} == m - {k};
    if k in m { SumTake(m, k); } else { assert m - {k} == m; }
  }

  lemma SumRemove<K(!new)>(m: map<K, int>, k: K)
    ensures Sum(m - {k}) == Sum(m) - At(m, k)
  {
    if k in m { SumTake(m, k); } else { assert m - {k} == m; }
  }

  lemma {:induction false} SumNonNegative<K(!new)>(m: map<K, int>)
    requires forall k :: k in m ==> m[k] >= 0
    ensures Sum(m) >= 0
    ensures forall k :: k in m ==> m[k] <= Sum(m)
    decreases |m|
  {
    if m != map[] {
      forall k | k in m ensures m[k] <= Sum(m) && Sum(m) >= 0 {
        SumTake(m, k);
        assert |m - {k}| == |m| - 1;
        SumNonNegative(m - {k});
      }
      var k :| k in m;
      assert m[k] <= Sum(m);
    }
  }
}
