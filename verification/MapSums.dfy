/** The sum of the values of a finite map. */
module MapSums {
  ghost function Sum<K>(m: map<K, int>): int
    decreases |m|
  {
    if m.Keys == {} then 0
    else
      var k :| k in m.Keys;
      assert |m - {k}| < |m| by { SmallerWithout(m, k); }
      m[k] + Sum(m - {k})
  }

  lemma SmallerWithout<K>(m: map<K, int>, k: K)
    requires k in m
    ensures |m - {k}| == |m| - 1
  {
    assert (m - {k}).Keys == m.Keys - {k};
  }

  /** Any key may be taken out first. */
  lemma {:induction false} SumWithout<K>(m: map<K, int>, k: K)
    requires k in m
    ensures Sum(m) == m[k] + Sum(m - {k})
    decreases |m|
  {
    var j :| j in m.Keys && Sum(m) == m[j] + Sum(m - {j});
    if j != k {
      SmallerWithout(m, j);
      SmallerWithout(m, k);
      SumWithout(m - {j}, k);
      SumWithout(m - {k}, j);
      assert (m - {j}) - {k} == (m - {k}) - {j};
    }
  }

  lemma SumUpdate<K>(m: map<K, int>, k: K, v: int)
    ensures Sum(m[k := v]) == Sum(m) - (if k in m then m[k] else 0) + v
  {
    var n := m[k := v];
    SumWithout(n, k);
    if k in m {
      SumWithout(m, k);
      assert n - {k} == m - {k};
    } else {
      assert n - {k} == m;
    }
  }

  lemma {:induction false} SumNonNegative<K>(m: map<K, int>)
    requires forall k :: k in m ==> m[k] >= 0
    ensures Sum(m) >= 0
    decreases |m|
  {
    if m.Keys != {} {
      var k :| k in m.Keys;
      SmallerWithout(m, k);
      SumWithout(m, k);
      SumNonNegative(m - {k});
    }
  }

  /** Non-negative values: two entries are together at most the sum. */
  lemma TwoAtMostSum<K>(m: map<K, int>, a: K, b: K)
    requires forall k :: k in m ==> m[k] >= 0
    requires a in m && b in m && a != b
    ensures m[a] + m[b] <= Sum(m)
  {
    SumWithout(m, a);
    SumWithout(m - {a}, b);
    SumNonNegative(m - {a} - {b});
  }

  lemma OneAtMostSum<K>(m: map<K, int>, a: K)
    requires forall k :: k in m ==> m[k] >= 0
    requires a in m
    ensures m[a] <= Sum(m)
  {
    SumWithout(m, a);
    SumNonNegative(m - {a});
  }
}
