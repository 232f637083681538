/** Sums of weights over finite maps. */
module Sums {

  /** The weights of all values of `m`, added up. */
  ghost function Sum<K, V>(m: map<K, V>, weight: V -> nat): (n: nat)
    decreases m.Keys
  {
    if m == map[] then 0
    else
      var k :| k in m;
      weight(m[k]) + Sum(m - {k}, weight)
  }

  function One<V>(v: V): nat { 1 }

  /** The order in which values are added is irrelevant: any key can be taken out first. */
  lemma {:induction false} SumWithout<K, V>(m: map<K, V>, weight: V -> nat, k: K)
    requires k in m
    ensures Sum(m, weight) == weight(m[k]) + Sum(m - {k}, weight)
    decreases m.Keys
  {
    var first :| first in m && Sum(m, weight) == weight(m[first]) + Sum(m - {first}, weight);
    if first != k {
      SumWithout(m - {first}, weight, k);
      SumWithout(m - {k}, weight, first);
      assert m - {first} - {k} == m - {k} - {first};
    }
  }

  lemma SumAdded<K, V>(m: map<K, V>, weight: V -> nat, k: K, v: V)
    ensures k !in m ==> Sum(m[k := v], weight) == Sum(m, weight) + weight(v)
    ensures k in m ==> Sum(m[k := v], weight) + weight(m[k]) == Sum(m, weight) + weight(v)
  {
    hide Sum;
    SumWithout(m[k := v], weight, k);
    assert m[k := v] - {k} == m - {k};
    if k in m {
      SumWithout(m, weight, k);
    } else {
      assert m - {k} == m;
    }
  }

  /** `m` consists of `a` and `b`. */
  ghost predicate Parts<K(!new), V>(m: map<K, V>, a: map<K, V>, b: map<K, V>) {
    && (forall k :: k in m <==> k in a || k in b)
    && (forall k :: k in a ==> k !in b && m[k] == a[k])
    && (forall k :: k in b ==> m[k] == b[k])
  }

  lemma PartsWithout<K(!new), V>(m: map<K, V>, a: map<K, V>, b: map<K, V>, k: K)
    requires Parts(m, a, b) && k in b
    ensures Parts(m - {k}, a, b - {k}) && m[k] == b[k]
  {
  }

  /** The sum of a map is the sum of its parts. */
  lemma {:induction false} SumOfParts<K(!new), V>(m: map<K, V>, a: map<K, V>, b: map<K, V>, weight: V -> nat)
    requires Parts(m, a, b)
    ensures Sum(m, weight) == Sum(a, weight) + Sum(b, weight)
    decreases b.Keys
  {
    if b == map[] {
      assert m == a;
    } else {
      var k :| k in b;
      PartsWithout(m, a, b, k);
      hide Sum, Parts;
      SumWithout(b, weight, k);
      SumWithout(m, weight, k);
      SumOfParts(m - {k}, a, b - {k}, weight);
    }
  }

  lemma {:induction false} CountIsSum<K, V>(m: map<K, V>)
    ensures Sum(m, One) == |m|
    decreases m.Keys
  {
    if m == map[] {
    } else {
      var k :| k in m;
      SumWithout(m, One, k);
      CountIsSum(m - {k});
    }
  }
}
