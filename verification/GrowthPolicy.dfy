/** The power-of-two growth policy that both hash tables use: bucket counts are powers of two, and a
    hash is reduced to a bucket with a mask. Words are numbers below 2^64. */
module GrowthPolicy {

  function Pow2(k: nat): (p: nat)
    ensures p > 0
  {
    if k == 0 then 1 else 2 * Pow2(k - 1)
  }

  const MAX_BUCKET_COUNT := 0x8000_0000_0000_0000   // largest power of two in a word

  /** x >> k */
  function Shr(x: nat, k: nat): nat {
    if k == 0 then x else Shr(x / 2, k - 1)
  }

  /** x & y */
  function BitAnd(x: nat, y: nat): nat {
    if x == 0 || y == 0 then 0 else 2 * BitAnd(x / 2, y / 2) + if x % 2 == 1 && y % 2 == 1 then 1 else 0
  }

  /** x | y */
  function BitOr(x: nat, y: nat): nat
    decreases x + y
  {
    if x == 0 then y else if y == 0 then x
    else 2 * BitOr(x / 2, y / 2) + if x % 2 == 1 || y % 2 == 1 then 1 else 0
  }

  ghost predicate IsPow2(n: nat) {
    exists k: nat :: n == Pow2(k)
  }

  lemma {:induction false} Pow2Adds(j: nat, k: nat)
    ensures Pow2(j + k) == Pow2(j) * Pow2(k)
  {
    if k > 0 {
      Pow2Adds(j, k - 1);
    }
  }

  lemma {:induction false} Pow2Grows(j: nat, k: nat)
    requires j < k
    ensures Pow2(j) < Pow2(k)
  {
    if j < k - 1 {
      Pow2Grows(j, k - 1);
    }
  }

  // ----- masks --------------------------------------------------------------------------------

  /** Masking with 2^k - 1 is reduction modulo 2^k. */
  lemma {:induction false} MaskIsMod(x: nat, k: nat)
    ensures BitAnd(x, Pow2(k) - 1) == x % Pow2(k)
  {
    if k > 0 {
      var p := Pow2(k - 1);
      MaskIsMod(x / 2, k - 1);
      MaskStep(x, p);
    } else {
      AndNothing(x);
    }
  }

  lemma AndNothing(x: nat)
    ensures BitAnd(x, 0) == 0 == x % 1
  {
  }

  lemma MaskStep(x: nat, p: nat)
    requires p > 0 && BitAnd(x / 2, p - 1) == (x / 2) % p
    ensures BitAnd(x, 2 * p - 1) == x % (2 * p)
  {
    hide BitAnd;
    AndStep(x, p);
    ModHalves(x, p);
  }

  lemma AndStep(x: nat, p: nat)
    requires p > 0
    ensures BitAnd(x, 2 * p - 1) == 2 * BitAnd(x / 2, p - 1) + x % 2
  {
    assert (2 * p - 1) / 2 == p - 1 && (2 * p - 1) % 2 == 1;
  }

  lemma ModHalves(x: nat, p: nat)
    requires p > 0
    ensures x % (2 * p) == 2 * ((x / 2) % p) + x % 2
  {
    var q, r := (x / 2) / p, (x / 2) % p;
    assert x / 2 == q * p + r;
    assert x == (2 * p) * q + (2 * r + x % 2);
    DivModUnique(x, 2 * p, q, 2 * r + x % 2);
  }

  lemma DivModUnique(x: int, d: int, q: int, r: int)
    requires 0 <= r < d && x == d * q + r
    ensures x / d == q && x % d == r
  {
    var e := x / d - q;
    assert x == d * (x / d) + x % d;
    assert d * e == r - x % d by {
      assert d * (x / d - q) == d * (x / d) - d * q;
    }
    assert e >= 1 ==> d * e >= d;
    assert e <= -1 ==> d * e <= -d;
  }

  predicate IsPowerOfTwo(value: nat) {
    value != 0 && BitAnd(value, value - 1) == 0
  }

  /** Clearing the last one of a word leaves nothing just when the word is a power of two. */
  lemma {:induction false} PowerTest(value: nat)
    ensures IsPowerOfTwo(value) <==> IsPow2(value)
  {
    if value == 0 {
    } else if value == 1 {
      assert value == Pow2(0);
    } else if value % 2 == 1 {
      assert (value - 1) / 2 == value / 2 && (value - 1) % 2 == 0;
      AndSelf(value / 2);
      forall k: nat ensures value != Pow2(k) {
      }
    } else {
      PowerTest(value / 2);
      assert (value - 1) / 2 == value / 2 - 1 && (value - 1) % 2 == 1;
      if IsPow2(value / 2) {
        var k: nat :| value / 2 == Pow2(k);
        assert value == Pow2(k + 1);
      }
      if IsPow2(value) {
        var k: nat :| value == Pow2(k);
        assert value / 2 == Pow2(k - 1);
      }
    }
  }

  lemma {:induction false} AndSelf(x: nat)
    ensures BitAnd(x, x) == x
  {
    if x > 0 {
      AndSelf(x / 2);
    }
  }

  // ----- rounding up --------------------------------------------------------------------------

  lemma {:induction false} ShrShr(x: nat, j: nat, k: nat)
    ensures Shr(Shr(x, j), k) == Shr(x, j + k)
  {
    if j > 0 {
      ShrShr(x / 2, j - 1, k);
    }
  }

  lemma {:induction false} OrShr(x: nat, y: nat, k: nat)
    ensures Shr(BitOr(x, y), k) == BitOr(Shr(x, k), Shr(y, k))
  {
    if k == 0 {
    } else if x == 0 || y == 0 {
      ShrZero(k);
    } else {
      OrShr(x / 2, y / 2, k - 1);
    }
  }

  lemma {:induction false} ShrZero(k: nat)
    ensures Shr(0, k) == 0
  {
    if k > 0 {
      ShrZero(k - 1);
    }
  }

  lemma {:induction false} OrLow(x: nat, k: nat)
    ensures BitOr(x, Pow2(k) - 1) == Shr(x, k) * Pow2(k) + Pow2(k) - 1
  {
    if k == 0 {
    } else if x == 0 {
      ShrZero(k);
    } else {
      var p := Pow2(k - 1);
      assert Pow2(k) == 2 * p;
      OrLow(x / 2, k - 1);
      OrStep(x, p);
      Distribute(Shr(x, k), p);
    }
  }

  lemma OrStep(x: nat, p: nat)
    requires p > 0 && x > 0
    ensures BitOr(x, 2 * p - 1) == 2 * BitOr(x / 2, p - 1) + 1
  {
    assert (2 * p - 1) / 2 == p - 1 && (2 * p - 1) % 2 == 1;
  }

  lemma Distribute(a: nat, p: nat)
    ensures 2 * (a * p + p - 1) + 1 == a * (2 * p) + 2 * p - 1
  {
  }

  lemma {:induction false} ShrOnes(j: nat, k: nat)
    requires k <= j
    ensures Shr(Pow2(j) - 1, k) == Pow2(j - k) - 1
  {
    if k > 0 {
      assert (Pow2(j) - 1) / 2 == Pow2(j - 1) - 1;
      ShrOnes(j - 1, k - 1);
    }
  }

  lemma {:induction false} ShrBelow(x: nat, n: nat, k: nat)
    requires x < Pow2(n)
    ensures k <= n ==> Shr(x, k) < Pow2(n - k)
    ensures k >= n ==> Shr(x, k) == 0
  {
    if k > 0 {
      if n == 0 { ShrZero(k - 1); } else { ShrBelow(x / 2, n - 1, k - 1); }
    }
  }

  /** The highest i of the n bits of x are ones. */
  ghost predicate TopOnes(x: nat, n: nat, i: nat) {
    x < Pow2(n) && i <= n && Shr(x, n - i) == Pow2(i) - 1
  }

  /** One smearing step doubles the run of leading ones. */
  lemma Smear(x: nat, n: nat, i: nat)
    requires TopOnes(x, n, i)
    ensures TopOnes(BitOr(x, Shr(x, i)), n, if 2 * i <= n then 2 * i else n)
  {
    hide Shr, BitOr, Pow2;
    var s := if 2 * i <= n then i else n - i;
    var k := n - i - s;
    SmearBound(x, n, i);
    OrShr(x, Shr(x, i), k);
    LowOnes(x, n, i, s, k);
    OrLow(Shr(x, k), s);
    ShrShr(x, k, s);
    SmearSum(i, s);
  }

  lemma SmearBound(x: nat, n: nat, i: nat)
    requires x < Pow2(n)
    ensures BitOr(x, Shr(x, i)) < Pow2(n)
  {
    hide Shr, BitOr;
    OrShr(x, Shr(x, i), n);
    ShrBelow(x, n, n);
    ShrShr(x, i, n);
    ShrBelow(x, n, i + n);
    OrZero();
    ShrZeroBelow(BitOr(x, Shr(x, i)), n);
  }

  lemma OrZero()
    ensures BitOr(0, 0) == 0
  {
  }

  /** The shifted word puts ones under the run. */
  lemma LowOnes(x: nat, n: nat, i: nat, s: nat, k: nat)
    requires TopOnes(x, n, i) && s <= i && i + s + k == n
    ensures Shr(Shr(x, i), k) == Pow2(s) - 1
  {
    hide Shr, Pow2;
    ShrShr(x, i, k);
    ShrShr(x, n - i, i - s);
    ShrOnes(i, i - s);
  }

  lemma SmearSum(i: nat, s: nat)
    ensures (Pow2(i) - 1) * Pow2(s) + Pow2(s) - 1 == Pow2(i + s) - 1
  {
    Pow2Adds(i, s);
  }

  lemma {:induction false} ShrZeroBelow(x: nat, n: nat)
    requires Shr(x, n) == 0
    ensures x < Pow2(n)
  {
    if n > 0 {
      ShrZeroBelow(x / 2, n - 1);
    }
  }

  /** The bit length of a positive number. */
  lemma {:induction false} BitLength(x: nat) returns (n: nat)
    requires x > 0
    ensures n > 0 && Pow2(n - 1) <= x < Pow2(n) && Shr(x, n - 1) == 1
  {
    if x == 1 {
      n := 1;
    } else {
      n := BitLength(x / 2);
      n := n + 1;
    }
  }

  /** The least power of two that is not below the value. */
  method RoundUpToPowerOfTwo(value: nat) returns (r: nat)
    requires value <= MAX_BUCKET_COUNT
    ensures IsPow2(r) && value <= r <= MAX_BUCKET_COUNT && (r > 1 ==> r < 2 * value)
    ensures IsPow2(value) ==> r == value
  {
    PowerTest(value);
    if IsPowerOfTwo(value) {
      return value;
    }
    if value == 0 {
      assert 1 == Pow2(0);
      return 1;
    }
    assert value != 1 by { assert 1 == Pow2(0); }
    r := value - 1;
    ghost var n := BitLength(value - 1);
    LengthBound(value - 1, n);
    var i := 1;
    while i < 64
      invariant i in {1, 2, 4, 8, 16, 32, 64}
      invariant TopOnes(r, n, if i <= n then i else n)
      decreases 64 - i
    {
      if i <= n {
        Smear(r, n, i);
      } else {
        ShrBelow(r, n, i);
      }
      r := BitOr(r, Shr(r, i));
      i := i * 2;
    }
    assert r + 1 == Pow2(n);
    r := r + 1;
  }

  lemma LengthBound(x: nat, n: nat)
    requires x < MAX_BUCKET_COUNT && n > 0 && Pow2(n - 1) <= x
    ensures n <= 63 && Pow2(n) <= MAX_BUCKET_COUNT
  {
    Pow63();
    if n > 63 {
      if n - 1 > 63 { Pow2Grows(63, n - 1); }
    } else if n < 63 {
      Pow2Grows(n, 63);
    }
  }

  lemma Pow63()
    ensures Pow2(63) == MAX_BUCKET_COUNT
  {
    assert Pow2(7) == 128;
    hide Pow2;
    Pow2Adds(7, 7);
    Pow2Adds(14, 7);
    Pow2Adds(21, 21);
    Pow2Adds(42, 21);
  }

  // ----- the policy ---------------------------------------------------------------------------

  /** The mask of a table with n buckets. */
  ghost predicate MaskFits(mask: nat, n: nat) {
    if n == 0 then mask == 0 else IsPow2(n) && mask == n - 1 && n <= MAX_BUCKET_COUNT
  }

  /** n is the least power of two that is not below count, or 0 for no buckets. */
  ghost predicate LeastPower(n: nat, count: nat) {
    if count == 0 then n == 0 else IsPow2(n) && count <= n < 2 * count
  }

  lemma LeastPowerIs(n: nat, count: nat)
    requires LeastPower(n, count)
    ensures count <= n && (n == 0 <==> count == 0) && (IsPow2(count) ==> n == count)
    ensures forall m: nat :: count > 0 && IsPow2(m) && count <= m ==> n <= m
  {
    forall m: nat | count > 0 && IsPow2(m) && count <= m ensures n <= m && (m == count ==> n == m) {
      if m < n { NoPowerBetween(m, n); }
    }
  }

  lemma OnlyTwo(n: nat)
    requires LeastPower(n, 2)
    ensures n == 2
  {
    assert IsPow2(2) by {
      assert Pow2(1) == 2;
    }
    LeastPowerIs(n, 2);
  }

  /** A larger power of two is at least twice as large. */
  lemma NoPowerBetween(m: nat, n: nat)
    requires IsPow2(m) && IsPow2(n) && m < n
    ensures 2 * m <= n
  {
    var i: nat :| m == Pow2(i);
    var j: nat :| n == Pow2(j);
    if j <= i {
      if j < i { Pow2Grows(j, i); }
    } else {
      if i + 1 < j { Pow2Grows(i + 1, j); }
    }
  }

  /** On creation and on rehash; ok is false where the source throws. */
  method CreatePolicy(minBucketCount: nat) returns (ok: bool, bucketCount: nat, mask: nat)
    ensures ok <==> minBucketCount <= 0x8000_0000_0000_0000
    ensures ok ==> MaskFits(mask, bucketCount) && LeastPower(bucketCount, minBucketCount)
  {
    if minBucketCount > MAX_BUCKET_COUNT {
      return false, 0, 0;
    }
    if minBucketCount > 0 {
      bucketCount := RoundUpToPowerOfTwo(minBucketCount);
      return true, bucketCount, bucketCount - 1;
    }
    return true, 0, 0;
  }

  function BucketForHash(mask: nat, hash: nat): nat {
    BitAnd(hash, mask)
  }

  lemma BucketInTable(mask: nat, n: nat, hash: nat)
    requires MaskFits(mask, n)
    ensures BucketForHash(mask, hash) == if n == 0 then 0 else hash % n
  {
    if n > 0 {
      var k: nat :| n == Pow2(k);
      MaskIsMod(hash, k);
    } else {
      AndNothing(hash);
    }
  }

  /** The number of buckets at the next growth; none where the source throws. */
  function NextBucketCount(mask: nat, growthFactor: nat): (r: (bool, nat))
    requires growthFactor >= 2
  {
    if mask + 1 > MAX_BUCKET_COUNT / growthFactor then (false, 0) else (true, (mask + 1) * growthFactor)
  }

  /** Growth multiplies the number of buckets, at least 1, by the growth factor, and fails exactly if that
      exceeds the largest table. */
  lemma NextIsLarger(mask: nat, n: nat, growthFactor: nat)
    requires MaskFits(mask, n) && growthFactor >= 2
    ensures var next, wanted := NextBucketCount(mask, growthFactor), growthFactor * if n == 0 then 1 else n;
            && (next.0 <==> wanted <= 0x8000_0000_0000_0000) && (next.0 ==> next.1 == wanted)
            && 2 <= wanted && 2 * n <= wanted
  {
    var m := mask + 1;
    assert m == if n == 0 then 1 else n;
    ProductAtMost(m, growthFactor, MAX_BUCKET_COUNT);
    ProductGrows(m, 2, growthFactor);
  }

  /** m is at most the quotient exactly if the product is at most the limit. */
  lemma ProductAtMost(m: nat, g: nat, limit: nat)
    requires g > 0
    ensures m <= limit / g <==> m * g <= limit
    ensures m * g == g * m
  {
    var q := limit / g;
    DivMod(limit, g);
    if m <= q {
      ProductGrows(g, m, q);
    } else {
      ProductGrows(g, q + 1, m);
      assert g * (q + 1) == g * q + g;
    }
  }

  lemma DivMod(x: nat, g: nat)
    requires g > 0
    ensures g * (x / g) <= x < g * (x / g) + g
  {
  }

  lemma ProductGrows(m: nat, a: nat, b: nat)
    requires a <= b
    ensures m * a <= m * b && m * a == a * m && m * b == b * m
  {
    var d := b - a;
    assert m * b == m * a + m * d;
  }
}
