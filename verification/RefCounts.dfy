/** How often each item is referred to by a collection of named lists: what a
    reference count or an in-degree has to agree with. */
module RefCounts {

  ghost function All<K, V>(m: map<K, seq<V>>): multiset<V>
    decreases |m|
  {
    if m == map[] then multiset{}
    else
      var k :| k in m;
      multiset(m[k]) + All(m - {k})
  }

  lemma {:induction false} AllSplits<K, V>(m: map<K, seq<V>>, k: K)
    requires k in m
    ensures All(m) == multiset(m[k]) + All(m - {k})
    decreases |m|
  {
    var j :| j in m && All(m) == multiset(m[j]) + All(m - {j});
    if j != k {
      AllSplits(m - {j}, k);
      AllSplits(m - {k}, j);
      assert m - {j} - {k} == m - {k} - {j};
    }
  }

  lemma AllOfUpdate<K, V>(m: map<K, seq<V>>, k: K, vs: seq<V>)
    ensures All(m[k := vs]) == multiset(vs) + All(m - {k})
    ensures k !in m ==> All(m[k := vs]) == multiset(vs) + All(m)
  {
    AllSplits(m[k := vs], k);
    assert m[k := vs] - {k} == m - {k};
    assert k !in m ==> m - {k} == m;
  }

  lemma {:induction false} AllContains<K, V>(m: map<K, seq<V>>, v: V)
    ensures All(m)[v] > 0 <==> exists k :: k in m && v in m[k]
    decreases |m|
  {
    if m != map[] {
      var j :| j in m;
      AllSplits(m, j);
      AllContains(m - {j}, v);
      assert v in multiset(m[j]) <==> v in m[j];
      if k :| k in m && v in m[k] && k != j {
        assert k in m - {j} && v in (m - {j})[k];
      }
    }
  }

  lemma AllCounts<K, V>(m: map<K, seq<V>>, k: K, v: V)
    requires k in m && v in m[k]
    ensures All(m)[v] > 0
  {
    AllContains(m, v);
  }
}
