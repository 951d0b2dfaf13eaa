/** Sums over the values of a finite map. */
module Sums {

  ghost function Sum<K>(m: map<K, nat>): nat
    decreases m.Keys
  {
    if m.Keys == {} then 0 else
    var k :| k in m.Keys;
    m[k] + Sum(m - {k})
  }

  /** Any key can be taken out first. */
  lemma {:induction false} SumWithout<K>(m: map<K, nat>, k: K)
    requires k in m
    ensures Sum(m) == m[k] + Sum(m - {k})
    decreases m.Keys
  {
    var j :| j in m.Keys && Sum(m) == m[j] + Sum(m - {j});
    if j != k {
      SumWithout(m - {j}, k);
      SumWithout(m - {k}, j);
      assert (m - {j}) - {k} == (m - {k}) - {j};
    }
  }

  lemma SumPut<K>(m: map<K, nat>, k: K, v: nat)
    ensures Sum(m[k := v]) == Sum(m - {k}) + v
    ensures k !in m ==> Sum(m[k := v]) == Sum(m) + v
    ensures k in m ==> Sum(m[k := v]) == Sum(m) - m[k] + v
  {
    SumWithout(m[k := v], k);
    assert m[k := v] - {k} == m - {k};
    if k in m { SumWithout(m, k); } else { assert m - {k} == m; }
  }

  lemma SumRemove<K>(m: map<K, nat>, k: K)
    ensures Sum(m - {k}) == if k in m then Sum(m) - m[k] else Sum(m)
  {
    if k in m { SumWithout(m, k); } else { assert m - {k} == m; }
  }

  /** Sums of parts add up to the sum of wholes. */
  lemma {:induction false} SumOfParts<K>(whole: map<K, nat>, a: map<K, nat>, b: map<K, nat>)
    requires a.Keys == whole.Keys && b.Keys <= whole.Keys
    requires forall k :: k in whole ==> whole[k] == a[k] + (if k in b then b[k] else 0)
    ensures Sum(whole) == Sum(a) + Sum(b)
    decreases whole.Keys
  {
    hide Sum;
    if whole.Keys == {} {
      assert whole == map[] && a == map[] && b == map[];
      SumNothing<K>();
    } else {
      var k :| k in whole.Keys;
      SumWithout(whole, k);
      SumWithout(a, k);
      SumRemove(b, k);
      SumOfParts(whole - {k}, a - {k}, b - {k});
    }
  }

  lemma SumNothing<K>()
    ensures Sum<K>(map[]) == 0
  {
  }

  /** Pointwise smaller values over fewer keys add up to no more. */
  lemma {:induction false} SumMonotone<K>(a: map<K, nat>, b: map<K, nat>)
    requires forall k :: k in a ==> k in b && a[k] <= b[k]
    ensures Sum(a) <= Sum(b)
    decreases a.Keys
  {
    if a.Keys != {} {
      var k :| k in a.Keys;
      SumWithout(a, k);
      SumWithout(b, k);
      SumMonotone(a - {k}, b - {k});
    }
  }
}
