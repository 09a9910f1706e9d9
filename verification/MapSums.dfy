/** Sums over the values of a finite map, independent of the order of iteration. */
module MapSums {

  ghost function Pick<K>(m: map<K, nat>): K
    requires m.Keys != {}
  {
    var k :| k in m; k
  }

  ghost function Total<K>(m: map<K, nat>): nat
    decreases |m|
  {
    if m.Keys == {} then 0
    else
      var k := Pick(m);
      assert (m - {k}).Keys == m.Keys - {k};
      m[k] + Total(m - {k})
  }

  /** Any key may be taken out first. */
  lemma {:induction false} TotalRemove<K>(m: map<K, nat>, k: K)
    requires k in m
    ensures Total(m) == m[k] + Total(m - {k})
    decreases |m|
  {
    var p := Pick(m);
    if p != k {
      assert (m - {p}).Keys == m.Keys - {p};
      assert (m - {k}).Keys == m.Keys - {k};
      TotalRemove(m - {p}, k);
      TotalRemove(m - {k}, p);
      assert m - {p} - {k} == m - {k} - {p};
    }
  }

  /** Writing one entry changes the sum by the difference of the two values. */
  lemma TotalUpdate<K>(m: map<K, nat>, k: K, v: nat)
    ensures Total(m[k := v]) == Total(m) - (if k in m then m[k] else 0) + v
  {
    TotalRemove(m[k := v], k);
    assert m[k := v] - {k} == m - {k};
    if k in m {
      TotalRemove(m, k);
    } else {
      assert m - {k} == m;
    }
  }

  /** Pointwise smaller maps have smaller sums. */
  lemma {:induction false} TotalMonotone<K>(m: map<K, nat>, n: map<K, nat>)
    requires m.Keys == n.Keys && forall k :: k in m ==> m[k] <= n[k]
    ensures Total(m) <= Total(n)
    decreases |m|
  {
    if m.Keys != {} {
      var k :| k in m;
      TotalRemove(m, k);
      TotalRemove(n, k);
      assert (m - {k}).Keys == m.Keys - {k};
      TotalMonotone(m - {k}, n - {k});
    }
  }

  /** A map of zeros sums to zero. */
  lemma {:induction false} TotalZero<K>(m: map<K, nat>)
    requires forall k :: k in m ==> m[k] == 0
    ensures Total(m) == 0
    decreases |m|
  {
    if m.Keys != {} {
      var k :| k in m;
      TotalRemove(m, k);
      assert (m - {k}).Keys == m.Keys - {k};
      TotalZero(m - {k});
    }
  }
}
