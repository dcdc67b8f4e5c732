/** Totals over finite maps, independent of the order of summation. */
module Sums {

  ghost function Total<K>(m: map<K, nat>): nat {
    if m == map[] then 0
    else
      var k :| k in m;
      m[k] + Total(m - {k})
  }

  lemma {:induction false} TotalRemove<K>(m: map<K, nat>, k: K)
    requires k in m
    ensures Total(m) == m[k] + Total(m - {k})
    decreases |m|
  {
    var first :| first in m && Total(m) == m[first] + Total(m - {first});
    if first != k {
      TotalRemove(m - {first}, k);
      TotalRemove(m - {k}, first);
      assert m - {first} - {k} == m - {k} - {first};
    }
  }

  lemma TotalInsert<K>(m: map<K, nat>, k: K, v: nat)
    requires k !in m
    ensures Total(m[k := v]) == Total(m) + v
  {
    TotalRemove(m[k := v], k);
    assert m[k := v] - {k} == m;
  }

  lemma SizeWithout<K>(m: map<K, nat>, k: K)
    requires k in m
    ensures |m - {k}| == |m| - 1
  {
    assert (m - {k}).Keys == m.Keys - {k};
  }

  lemma OneMore(extra: nat, count: nat)
    ensures extra * (count + 1) == extra * count + extra
  {
  }

  /** Raising every entry by at most `extra` raises the total by at most `extra` an entry. */
  lemma {:induction false} TotalRaised<K>(m: map<K, nat>, n: map<K, nat>, extra: nat)
    requires m.Keys == n.Keys && forall k :: k in m ==> n[k] <= m[k] + extra
    ensures Total(n) <= Total(m) + extra * |m|
    decreases |m|
  {
    if m == map[] {
      assert n == map[];
    } else {
      var k :| k in m;
      TotalRemove(m, k);
      TotalRemove(n, k);
      var rest, raised := m - {k}, n - {k};
      TotalRaised(rest, raised, extra);
      SizeWithout(m, k);
      OneMore(extra, |rest|);
    }
  }

  /** Dropping entries and lowering others lowers the total. */
  lemma {:induction false} TotalMonotone<K>(m: map<K, nat>, n: map<K, nat>)
    requires m.Keys <= n.Keys && forall k :: k in m ==> m[k] <= n[k]
    ensures Total(m) <= Total(n)
    decreases |n|
  {
    if n != map[] {
      var k :| k in n;
      TotalRemove(n, k);
      if k in m {
        TotalRemove(m, k);
        TotalMonotone(m - {k}, n - {k});
      } else {
        TotalMonotone(m, n - {k});
      }
    } else {
      assert m == map[];
    }
  }
}
