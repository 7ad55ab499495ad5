/** What both hash tables use: results of look-ups, load thresholds, and sizes of maps. */
module TableCommon {

  datatype Option<V> = None | Some(value: V)

  // ----- load ---------------------------------------------------------------------------------

  /** The number of elements at which a table of n buckets grows: the last at which its load is still
      within the load factor. */
  function LoadThreshold(n: nat, load: real): (t: nat)
    requires load >= 0.0
    ensures t as real <= n as real * load < t as real + 1.0
  {
    (n as real * load).Floor
  }

  /** How many elements the load factor allows in n buckets. */
  function Allowed(n: nat, load: real): real {
    n as real * load
  }

  /** The buckets to grow to: at least one, times the growth factor. */
  function Wanted(n: nat, growthFactor: nat): nat {
    growthFactor * if n == 0 then 1 else n
  }

  lemma InNumbers(n: nat, load: real, growthFactor: nat)
    ensures Allowed(n, load) == n as real * load
    ensures Wanted(n, growthFactor) == growthFactor * if n == 0 then 1 else n
  {
  }

  /** The threshold is reached exactly when one more element is not allowed. */
  lemma AtThreshold(nb: nat, n: nat, load: real)
    requires load >= 0.0
    ensures nb >= LoadThreshold(n, load) <==> (nb + 1) as real > Allowed(n, load)
  {
  }

  lemma Positive(a: real, b: real)
    requires a > 0.0 && b > 0.0
    ensures a * b > 0.0
  {
  }

  lemma Sign(q: real, load: real)
    requires load > 0.0 && q * load > 0.0
    ensures q > 0.0
  {
  }

  lemma Shrinks(q: real, load: real)
    requires load < 1.0 && q > 0.0
    ensures q * load < q
  {
    var r := 1.0 - load;
    Positive(q, r);
  }

  lemma LoadBelow(n: nat, load: real)
    requires 0.0 <= load < 1.0
    ensures n > 0 ==> LoadThreshold(n, load) < n
    ensures n == 0 ==> LoadThreshold(n, load) == 0
  {
    var a, t := n as real, LoadThreshold(n, load);
    if n > 0 {
      Shrinks(n as real, load);
      assert t as real < n as real;
    } else {
      assert a == 0.0 && a * load == 0.0;
    }
  }

  function Ceil(x: real): (c: int)
    ensures x <= c as real < x + 1.0
  {
    if x.Floor as real == x then x.Floor else x.Floor + 1
  }

  lemma CeilAtLeast(x: real, n: int)
    ensures x > n as real ==> Ceil(x) > n
    ensures x >= n as real ==> Ceil(x) >= n
  {
  }

  lemma QuotientTimes(a: real, load: real)
    requires load > 0.0
    ensures a <= a / load * load
  {
  }

  lemma FactorAbove(q: real, a: real, load: real)
    requires 0.0 < load < 1.0 && q > 0.0 && a <= q * load
    ensures q > a
  {
    Shrinks(q, load);
  }

  lemma QuotientPositive(a: real, load: real)
    requires load > 0.0 && a > 0.0
    ensures a / load > 0.0
  {
    QuotientTimes(a, load);
    Sign(a / load, load);
  }

  /** What the load factor asks for leaves a bucket free. */
  lemma EnoughRoom(nb: nat, load: real)
    requires 0.0 < load < 1.0
    ensures Ceil(nb as real / load) >= 0 && (nb > 0 ==> Ceil(nb as real / load) > nb)
  {
    hide Ceil;
    var a := nb as real;
    if nb == 0 {
      assert a / load == 0.0;
      CeilAtLeast(a / load, 0);
    } else {
      QuotientPositive(a, load);
      QuotientTimes(a, load);
      FactorAbove(a / load, a, load);
      CeilAtLeast(a / load, nb);
    }
  }

  /** One more element in a table that grew at least twofold, when the elements before were within the load
      factor: only in the first growth of an empty table can there be too many. */
  lemma GrownIsLight(nb: nat, n: nat, grown: nat, load: real)
    requires 0.0 < load && nb as real <= Allowed(n, load) && 2 * n <= grown
    ensures (nb + 1) as real <= Allowed(grown, load) <==> nb > 0 || 1.0 <= Allowed(grown, load)
  {
    MoreHoldsMore(2 * n, grown, load);
    var a := n as real;
    assert (2 * n) as real == a + a && (a + a) * load == a * load + a * load;
    assert Allowed(grown, load) >= nb as real + nb as real;
  }

  lemma MoreHoldsMore(m: nat, n: nat, load: real)
    requires 0.0 < load && m <= n
    ensures m as real * load <= n as real * load
  {
    var d := (n - m) as real;
    assert n as real * load == m as real * load + d * load;
  }

  /** The buckets to rehash to: as many as asked for, and as many as the load factor asks for. */
  function LeastBuckets(count: nat, nb: nat, load: real): (least: nat)
    requires load > 0.0
    ensures least == count || least == Ceil(nb as real / load)
    ensures count <= least && nb as real / load <= least as real
  {
    var needed := Ceil(nb as real / load);
    if count > needed then count else needed
  }

  // ----- maps ---------------------------------------------------------------------------------

  lemma MapGrows<K, V>(m: map<K, V>, key: K, v: V)
    requires key !in m
    ensures |m[key := v]| == |m| + 1
  {
    assert m[key := v].Keys == m.Keys + {key};
  }

  lemma MapShrinks<K, V>(m: map<K, V>, key: K)
    requires key in m
    ensures |m - {key}| == |m| - 1
  {
    assert m.Keys == (m - {key}).Keys + {key};
  }

  /** A map with as many entries as another that contains it is the other. */
  lemma SameSizeSameMap<K, V>(a: map<K, V>, b: map<K, V>)
    requires forall k :: k in a ==> k in b && a[k] == b[k]
    requires |a| == |b|
    ensures a == b
  {
    assert b.Keys == a.Keys + (b.Keys - a.Keys);
    assert |b.Keys| == |a.Keys| + |b.Keys - a.Keys|;
  }
}
