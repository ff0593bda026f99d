/** Finite sums over maps. */
module Sums {

  /** The sum of all values of a map. */
  ghost function SumMap<K(!new)>(m: map<K, nat>): nat
    decreases |m|
  {
    if m == map[] then 0 else
      var k :| k in m;
      m[k] + SumMap(m - {k})
  }

  /** Any key may be taken out first. */
  lemma {:induction false} SumMapRemove<K(!new)>(m: map<K, nat>, k: K)
    requires k in m
    ensures SumMap(m) == m[k] + SumMap(m - {k})
    decreases |m|
  {
    var p :| p in m && SumMap(m) == m[p] + SumMap(m - {p});
    if p != k {
      SumMapRemove(m - {p}, k);
      SumMapRemove(m - {k}, p);
      assert m - {p} - {k} == m - {k} - {p};
    }
  }

  lemma SumMapPut<K(!new)>(m: map<K, nat>, k: K, v: nat)
    ensures SumMap(m[k := v]) == v + SumMap(m - {k})
    ensures SumMap(m[k := v]) == SumMap(m) + v - (if k in m then m[k] else 0)
  {
    SumMapRemove(m[k := v], k);
    assert m[k := v] - {k} == m - {k};
    if k in m { SumMapRemove(m, k); } else { assert m - {k} == m; }
  }

  lemma SumMapBound<K(!new)>(m: map<K, nat>, k: K)
    requires k in m
    ensures m[k] <= SumMap(m)
  {
    SumMapRemove(m, k);
  }

  lemma {:induction false} SumMapZero<K(!new)>(m: map<K, nat>)
    requires forall k :: k in m ==> m[k] == 0
    ensures SumMap(m) == 0
    decreases |m|
  {
    if m == map[] {
    } else {
      var k :| k in m;
      SumMapRemove(m, k);
      SumMapZero(m - {k});
    }
  }

  /** Only one key counts. */
  lemma SumMapOnly<K(!new)>(m: map<K, nat>, k: K)
    requires forall j :: j in m && j != k ==> m[j] == 0
    ensures SumMap(m) == if k in m then m[k] else 0
  {
    SumMapZero(m - {k});
    if k in m { SumMapRemove(m, k); } else { assert m - {k} == m; }
  }

  // ----- sums of gains and losses -----

  ghost function Gains<K(!new)>(m: map<K, int>): map<K, nat> { map k | k in m :: if m[k] > 0 then m[k] else 0 }

  ghost function Losses<K(!new)>(m: map<K, int>): map<K, nat> { map k | k in m :: if m[k] < 0 then -m[k] else 0 }

  /** The sum of all values of a map, gains less losses. */
  ghost function NetMap<K(!new)>(m: map<K, int>): int { SumMap(Gains(m)) - SumMap(Losses(m)) }

  lemma NetMapPut<K(!new)>(m: map<K, int>, k: K, v: int)
    requires k !in m
    ensures NetMap(m[k := v]) == NetMap(m) + v
  {
    var gain: nat, loss: nat := if v > 0 then v else 0, if v < 0 then -v else 0;
    assert Gains(m[k := v]) == Gains(m)[k := gain];
    assert Losses(m[k := v]) == Losses(m)[k := loss];
    SumMapPut(Gains(m), k, gain);
    SumMapPut(Losses(m), k, loss);
  }
}
