/** Sums over the entries of a finite map, independent of any order of the keys. */
module MapSums {
  ghost function Sum<K(!new), V(!new)>(m: map<K, V>, f: (K, V) -> int): int {
    if m == map[] then 0
    else
      var k :| k in m;
      f(k, m[k]) + Sum(m - {k}, f)
  }

  /** Any key may be taken out first. */
  lemma {:induction false} SumRemove<K(!new), V(!new)>(m: map<K, V>, f: (K, V) -> int, k: K)
    requires k in m
    ensures Sum(m, f) == f(k, m[k]) + Sum(m - {k}, f)
    decreases |m|
  {
    var c :| c in m && Sum(m, f) == f(c, m[c]) + Sum(m - {c}, f);
    if c != k {
      SumRemove(m - {c}, f, k);
      SumRemove(m - {k}, f, c);
      assert (m - {c}) - {k} == (m - {k}) - {c};
    }
  }

  lemma SumPut<K(!new), V(!new)>(m: map<K, V>, f: (K, V) -> int, k: K, v: V)
    ensures Sum(m[k := v], f) == Sum(m - {k}, f) + f(k, v)
  {
    SumRemove(m[k := v], f, k);
    assert m[k := v] - {k} == m - {k};
  }

  /** A subset is no larger. */
  lemma SubsetSize<K(!new)>(a: set<K>, b: set<K>)
    requires a <= b
    ensures |a| <= |b| && (forall k :: k in b && k !in a ==> |a| < |b|)
  {
    assert b == a + (b - a);
  }

  lemma AbsentRemove<K, V>(m: map<K, V>, k: K)
    requires k !in m
    ensures m - {k} == m
  {
  }
}
