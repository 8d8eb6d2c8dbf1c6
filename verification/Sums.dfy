/** Sums over the values of a finite map. Window totals, table shares and true
    counts are all sums of this kind. */
module Sums {

  ghost function MapSum<K>(m: map<K, nat>): nat
    decreases |m|
  {
    if m == map[] then 0 else
      var k :| k in m;
      m[k] + MapSum(m - {k})
  }

  /** The sum does not depend on which entry is taken out first. */
  lemma {:induction false} MapSumRemove<K>(m: map<K, nat>, k: K)
    requires k in m
    ensures MapSum(m) == m[k] + MapSum(m - {k})
    decreases |m|
  {
    var j :| j in m && MapSum(m) == m[j] + MapSum(m - {j});
    if j != k {
      MapSumRemove(m - {j}, k);
      MapSumRemove(m - {k}, j);
      assert (m - {j}) - {k} == (m - {k}) - {j};
    }
  }

  lemma {:induction false} MapSumInsert<K>(m: map<K, nat>, k: K, v: nat)
    ensures MapSum(m[k := v]) == v + MapSum(m - {k})
  {
    MapSumRemove(m[k := v], k);
    assert m[k := v] - {k} == m - {k};
  }

  lemma MapSumBump<K>(m: map<K, nat>, k: K)
    requires k in m
    ensures MapSum(m[k := m[k] + 1]) == MapSum(m) + 1
  {
    MapSumInsert(m, k, m[k] + 1);
    MapSumRemove(m, k);
  }

  /** A map whose entries all appear, no larger, in another has no larger a sum. */
  lemma {:induction false} MapSumLe<K>(a: map<K, nat>, b: map<K, nat>)
    requires forall k :: k in a ==> k in b && a[k] <= b[k]
    ensures MapSum(a) <= MapSum(b)
    decreases |a|
  {
    if a != map[] {
      var k :| k in a;
      MapSumRemove(a, k);
      MapSumRemove(b, k);
      MapSumLe(a - {k}, b - {k});
    }
  }

  /** Entries worth nothing may be left out. */
  lemma {:induction false} MapSumDropZeros<K>(a: map<K, nat>, b: map<K, nat>)
    requires forall k :: k in a ==> k in b && a[k] == b[k]
    requires forall k :: k in b && k !in a ==> b[k] == 0
    ensures MapSum(a) == MapSum(b)
    decreases |b|
  {
    if b != map[] {
      var k :| k in b;
      MapSumRemove(b, k);
      if k in a {
        MapSumRemove(a, k);
        MapSumDropZeros(a - {k}, b - {k});
      } else {
        MapSumDropZeros(a, b - {k});
      }
    } else {
      assert a == map[];
    }
  }

  lemma MapSizeRemove<K, V>(m: map<K, V>, k: K)
    requires k in m
    ensures |m - {k}| == |m| - 1
  {
    assert (m - {k}).Keys == m.Keys - {k};
  }

  lemma {:induction false} MapSumDisjointUnion<K>(a: map<K, nat>, b: map<K, nat>)
    requires a.Keys !! b.Keys
    ensures MapSum(a + b) == MapSum(a) + MapSum(b)
    decreases |a|
  {
    if a == map[] {
      assert a + b == b;
    } else {
      var k :| k in a;
      MapSizeRemove(a, k);
      MapSumDisjointUnion(a - {k}, b);
      MapSumRemove(a, k);
      MapSumRemove(a + b, k);
      UnionRemove(a, b, k);
    }
  }

  lemma UnionRemove<K, V>(a: map<K, V>, b: map<K, V>, k: K)
    requires k !in b
    ensures (a + b) - {k} == (a - {k}) + b
  {
  }

  /** If every entry is at most c, the sum is at most c per entry. */
  lemma {:induction false} MapSumBound<K>(m: map<K, nat>, c: nat)
    requires forall k :: k in m ==> m[k] <= c
    ensures MapSum(m) <= |m| * c
    decreases |m|
  {
    if m != map[] {
      var k :| k in m;
      MapSumRemove(m, k);
      MapSumBound(m - {k}, c);
      MapSizeRemove(m, k);
      OneMore(|m - {k}|, c);
    }
  }

  lemma OneMore(n: nat, c: nat)
    ensures (n + 1) * c == n * c + c
  {
  }

  lemma {:induction false} SubsetSize<T>(a: set<T>, b: set<T>)
    requires a <= b
    ensures |a| <= |b|
    decreases a
  {
    if a != {} {
      var x :| x in a;
      SubsetSize(a - {x}, b - {x});
    }
  }
}
