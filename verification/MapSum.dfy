/** The sum of the values of a finite map. */
module MapSum {
  ghost function Sum<K>(m: map<K, nat>): nat
    decreases |m|
  {
    if m == map[] then 0
    else
      var k :| k in m;
      assert |m - {k}| < |m| by { SmallerWithout(m, k); }
      m[k] + Sum(m - {k})
  }

  lemma {:induction false} SmallerWithout<K>(m: map<K, nat>, k: K)
    requires k in m
    ensures |m - {k}| < |m|
  {
    assert (m - {k}).Keys == m.Keys - {k};
  }

  /** Any key may be split off the sum. */
  lemma {:induction false} SumWithout<K>(m: map<K, nat>, k: K)
    requires k in m
    ensures Sum(m) == m[k] + Sum(m - {k})
    decreases |m|
  {
    assert m != map[];
    var l :| l in m && Sum(m) == m[l] + Sum(m - {l});
    if l != k {
      SmallerWithout(m, l);
      SmallerWithout(m, k);
      SumWithout(m - {l}, k);
      SumWithout(m - {k}, l);
      assert m - {l} - {k} == m - {k} - {l};
    }
  }

  lemma {:induction false} SumUpdate<K>(m: map<K, nat>, k: K, n: nat)
    ensures Sum(m[k := n]) == Sum(m) + n - if k in m then m[k] else 0
  {
    var u := m[k := n];
    SumWithout(u, k);
    if k in m {
      SumWithout(m, k);
      assert u - {k} == m - {k};
    } else {
      assert u - {k} == m;
    }
  }
}
