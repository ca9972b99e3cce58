/** The sum of the values of a finite map to naturals, and how it changes
    when one entry is updated. Used for "the type counts add up to the number
    of objects" and "the group sizes add up to the number of new ids". */
module MapSum {

  ghost function Sum<K>(m: map<K, nat>): nat
    decreases |m.Keys|
  {
    if m.Keys == {} then 0
    else
      var k :| k in m.Keys;
      m[k] + Sum(m - {k})
  }

  /** Any entry can be taken out first. */
  lemma {:induction false} SumRemove<K>(m: map<K, nat>, k: K)
    requires k in m
    ensures Sum(m) == m[k] + Sum(m - {k})
    decreases |m.Keys|
  {
    assert m.Keys != {};
    var k' :| k' in m && Sum(m) == m[k'] + Sum(m - {k'});
    if k' != k {
      var mk, mk' := m - {k}, m - {k'};
      assert mk'.Keys == m.Keys - {k'} && mk.Keys == m.Keys - {k};
      assert k in mk' && k' in mk;
      assert mk' - {k} == mk - {k'};
      SumRemove(mk', k);
      SumRemove(mk, k');
    }
  }

  /** Setting an entry changes the sum by the difference of the values. */
  lemma SumUpdate<K>(m: map<K, nat>, k: K, v: nat)
    ensures Sum(m[k := v]) + (if k in m then m[k] else 0) == Sum(m) + v
  {
    SumRemove(m[k := v], k);
    assert m[k := v] - {k} == m - {k};
    if k in m {
      SumRemove(m, k);
    } else {
      assert m - {k} == m;
    }
  }

  lemma SumEmpty<K>(m: map<K, nat>)
    requires m.Keys == {}
    ensures Sum(m) == 0
  {
  }
}
