/** `MaximumWeightMatch`: queries are assigned to buckets through slots, slot s standing for bucket
    s % bucketCount, by a maximum-weight matching of queries with slots. */
module Balance {
  import opened Assignment
  import opened Hungary

  type Affinity = seq<seq<nat>>

  /** The conversion of an unsigned affinity to a 32-bit int. */
  function ToInt(x: nat): int {
    Wrap(x)
  }

  ghost function SlotBuckets(n: nat, bc: nat): seq<int>
    requires bc > 0
  {
    seq(n, s => s % bc)
  }

  ghost function Indicator(a: seq<int>, b: int): seq<int> {
    seq(|a|, q requires 0 <= q < |a| => if a[q] == b then 1 else 0)
  }

  /** How many of the first k entries of a are b. */
  ghost function CountTo(a: seq<int>, b: int, k: nat): int
    requires k <= |a|
  {
    SumTo(Indicator(a, b), k)
  }

  ghost predicate Shape(aff: Affinity, n: nat, bc: nat) {
    |aff| == n && forall q :: 0 <= q < n ==> |aff[q]| == bc
  }

  /** a assigns a bucket to each query, every bucket getting as many as it has slots below n. */
  ghost predicate Balanced(a: seq<int>, bc: nat)
    requires bc > 0
  {
    && (forall q :: 0 <= q < |a| ==> 0 <= a[q] < bc)
    && (forall b :: 0 <= b < bc ==> CountTo(a, b, |a|) == CountTo(SlotBuckets(|a|, bc), b, |a|))
  }

  /** The affinity that each query gets under a. */
  ghost function Gains(aff: Affinity, a: seq<int>, bc: nat): seq<int>
    requires Shape(aff, |a|, bc) && forall q :: 0 <= q < |a| ==> 0 <= a[q] < bc
  {
    seq(|a|, q requires 0 <= q < |a| => aff[q][a[q]])
  }

  ghost function TotalAffinity(aff: Affinity, a: seq<int>, bc: nat): int
    requires Shape(aff, |a|, bc) && forall q :: 0 <= q < |a| ==> 0 <= a[q] < bc
  {
    SumTo(Gains(aff, a, bc), |a|)
  }

  /** The square weight matrix that the slots make of the affinities. */
  ghost function SlotWeights(aff: Affinity, n: nat, bc: nat): Matrix
    requires bc > 0 && Shape(aff, n, bc)
  {
    seq(n, q requires 0 <= q < n => seq(n, s requires 0 <= s < n => ToInt(aff[q][s % bc])))
  }

  ghost predicate Fits(aff: Affinity) {
    forall q, b :: 0 <= q < |aff| && 0 <= b < |aff[q]| ==> IsInt(aff[q][b])
  }

  /** The position at which a permutation holds x. */
  ghost function IndexOf(p: seq<int>, x: int): (i: int)
    requires Permutation(p, |p|) && 0 <= x < |p|
    ensures 0 <= i < |p| && p[i] == x
  {
    PermutationIsOnto(p, |p|);
    assert x in Image(p, |p|);
    var i :| 0 <= i < |p| && p[i] == x;
    i
  }

  // ----- from a matching of slots to an assignment --------------------------------------------

  /** m gives slot s to query m[s]; a is the bucket assignment read off m. */
  ghost predicate ReadOff(m: seq<int>, a: seq<int>, bc: nat)
    requires bc > 0
  {
    && |m| == |a| && Permutation(m, |a|)
    && forall s :: 0 <= s < |a| ==> a[m[s]] == s % bc
  }

  lemma {:induction false} CountAlong(m: seq<int>, a: seq<int>, bc: nat, b: int, k: nat)
    requires bc > 0 && ReadOff(m, a, bc) && k <= |a|
    ensures PickTo(Indicator(a, b), m, k) == CountTo(SlotBuckets(|a|, bc), b, k)
  {
    if k > 0 { CountAlong(m, a, bc, b, k - 1); }
  }

  lemma ReadOffIsBalanced(m: seq<int>, a: seq<int>, bc: nat)
    requires bc > 0 && ReadOff(m, a, bc)
    ensures Balanced(a, bc)
  {
    forall q | 0 <= q < |a| ensures 0 <= a[q] < bc {
      var s := IndexOf(m, q);
      assert a[m[s]] == s % bc;
    }
    forall b | 0 <= b < bc ensures CountTo(a, b, |a|) == CountTo(SlotBuckets(|a|, bc), b, |a|) {
      CountAlong(m, a, bc, b, |a|);
      PermutedSum(Indicator(a, b), m);
    }
  }

  lemma {:induction false} GainAlong(aff: Affinity, m: seq<int>, a: seq<int>, bc: nat, k: nat)
    requires bc > 0 && ReadOff(m, a, bc) && Balanced(a, bc) && Shape(aff, |a|, bc) && k <= |a|
    requires forall s :: 0 <= s < k ==> IsInt(aff[m[s]][s % bc])
    ensures WeightTo(SlotWeights(aff, |a|, bc), m, k) == PickTo(Gains(aff, a, bc), m, k)
  {
    if k > 0 {
      GainAlong(aff, m, a, bc, k - 1);
      WrapOfSum(aff[m[k - 1]][(k - 1) % bc], 0);
    }
  }

  /** The matched weight is the total affinity of the assignment. */
  lemma WeightIsAffinity(aff: Affinity, m: seq<int>, a: seq<int>, bc: nat)
    requires bc > 0 && ReadOff(m, a, bc) && Balanced(a, bc) && Shape(aff, |a|, bc) && Fits(aff)
    ensures Total(SlotWeights(aff, |a|, bc), m) == TotalAffinity(aff, a, bc)
  {
    GainAlong(aff, m, a, bc, |a|);
    PermutedSum(Gains(aff, a, bc), m);
  }

  // ----- from a balanced assignment to a matching of slots ------------------------------------

  lemma MulLess(m: nat, x: int, y: int)
    requires m * x < m * y
    ensures x < y
  {
  }

  lemma QuotientUnique(x: nat, bc: nat, q: nat, r: nat)
    requires bc > 0 && x == bc * q + r && r < bc
    ensures x % bc == r && x / bc == q
  {
    var q', r' := x / bc, x % bc;
    assert x == bc * q' + r';
    assert bc * (q + 1) == bc * q + bc && bc * (q' + 1) == bc * q' + bc;
    MulLess(bc, q, q' + 1);
    MulLess(bc, q', q + 1);
  }

  /** b + bc * c is the first slot of bucket b that is at least x. */
  ghost predicate NextSlot(x: int, b: int, bc: int, c: int) {
    0 <= c && x <= b + bc * c && (c > 0 ==> b + bc * (c - 1) < x)
  }

  lemma NextSlotStep(x: nat, b: nat, bc: nat, c: nat)
    requires b < bc && NextSlot(x, b, bc, c)
    ensures x % bc == b <==> x == b + bc * c
    ensures NextSlot(x + 1, b, bc, if x % bc == b then c + 1 else c)
  {
    assert bc * (c - 1) == bc * c - bc && bc * (c + 1) == bc * c + bc;
    QuotientUnique(b + bc * c, bc, c, b);
    if x % bc == b {
      var q := x / bc;
      MulLess(bc, q, c + 1);
      if c > 0 { MulLess(bc, c - 1, q); }
    }
  }

  /** The slots of bucket b among the first k are b, b + bc, b + 2 bc, ... */
  lemma {:induction false} SlotsOfBucket(n: nat, bc: nat, b: nat, k: nat)
    requires b < bc && k <= n
    ensures NextSlot(k, b, bc, CountTo(SlotBuckets(n, bc), b, k))
  {
    if k > 0 {
      SlotsOfBucket(n, bc, b, k - 1);
      NextSlotStep(k - 1, b, bc, CountTo(SlotBuckets(n, bc), b, k - 1));
    }
  }

  lemma {:induction false} CountGrows(a: seq<int>, b: int, k: nat, l: nat)
    requires k <= l <= |a|
    ensures 0 <= CountTo(a, b, k) <= CountTo(a, b, l)
    ensures k < l && a[k] == b ==> CountTo(a, b, k) < CountTo(a, b, l)
    decreases l
  {
    if k < l {
      CountGrows(a, b, k, l - 1);
    } else if k > 0 {
      CountGrows(a, b, k - 1, k - 1);
    }
  }

  /** The slot for query q: among the slots of its bucket, the one as far along as q is among the
      queries of that bucket. */
  ghost function SlotFor(a: seq<int>, bc: nat, q: int): int
    requires 0 <= q < |a|
  {
    a[q] + bc * CountTo(a, a[q], q)
  }

  lemma SlotForValid(a: seq<int>, bc: nat, q: int)
    requires bc > 0 && Balanced(a, bc) && 0 <= q < |a|
    ensures 0 <= SlotFor(a, bc, q) < |a|
    ensures SlotFor(a, bc, q) % bc == a[q] && SlotFor(a, bc, q) / bc == CountTo(a, a[q], q)
  {
    var b, r, c := a[q], CountTo(a, a[q], q), CountTo(a, a[q], |a|);
    CountGrows(a, b, q, |a|);
    SlotsOfBucket(|a|, bc, b, |a|);
    if r < c - 1 { MulLessOrEqual(bc, r, c - 1); }
    QuotientUnique(b + bc * r, bc, r, b);
  }

  lemma MulLessOrEqual(m: nat, x: int, y: int)
    requires x <= y
    ensures m * x <= m * y
  {
  }

  lemma SlotForInjective(a: seq<int>, bc: nat, p: int, q: int)
    requires bc > 0 && Balanced(a, bc) && 0 <= p < q < |a|
    ensures SlotFor(a, bc, p) != SlotFor(a, bc, q)
  {
    SlotForValid(a, bc, p);
    SlotForValid(a, bc, q);
    CountGrows(a, a[p], p, q);
  }

  /** Every balanced assignment is read off some matching of queries with slots. */
  lemma Lift(a: seq<int>, bc: nat) returns (m: seq<int>)
    requires bc > 0 && Balanced(a, bc)
    ensures ReadOff(m, a, bc)
  {
    var slot := seq(|a|, q requires 0 <= q < |a| => SlotFor(a, bc, q));
    forall p, q | 0 <= p < q < |a| ensures slot[p] != slot[q] {
      SlotForInjective(a, bc, p, q);
    }
    forall q | 0 <= q < |a| ensures 0 <= slot[q] < |a| && slot[q] % bc == a[q] {
      SlotForValid(a, bc, q);
    }
    m := seq(|a|, s requires 0 <= s < |a| => IndexOf(slot, s));
  }

  /** a is at least as good as every assignment with the same bucket sizes. */
  ghost predicate BestBalanced(aff: Affinity, a: seq<int>, bc: nat)
    requires bc > 0 && Shape(aff, |a|, bc) && Balanced(a, bc)
  {
    forall a' :: |a'| == |a| && Balanced(a', bc) ==> TotalAffinity(aff, a', bc) <= TotalAffinity(aff, a, bc)
  }

  /** An assignment read off a heaviest matching of slots is best among all balanced assignments. */
  lemma HeaviestIsBest(aff: Affinity, m: seq<int>, a: seq<int>, bc: nat)
    requires bc > 0 && ReadOff(m, a, bc) && Shape(aff, |a|, bc) && Fits(aff)
    requires Heaviest(SlotWeights(aff, |a|, bc), m)
    ensures Balanced(a, bc) && BestBalanced(aff, a, bc)
  {
    ReadOffIsBalanced(m, a, bc);
    WeightIsAffinity(aff, m, a, bc);
    forall a' | |a'| == |a| && Balanced(a', bc)
      ensures TotalAffinity(aff, a', bc) <= TotalAffinity(aff, a, bc)
    {
      var m' := Lift(a', bc);
      WeightIsAffinity(aff, m', a', bc);
    }
  }

  // ----- the method ---------------------------------------------------------------------------

  datatype Outcome = Matched | TooManyQueries | MatchError

  /** Fills the weight array of a matcher from the affinities. */
  method FillWeights(g: Matcher, aff: Affinity, bc: nat)
    requires g.Valid() && bc > 0 && Shape(aff, |aff|, bc) && |aff| <= MAXN
    modifies g`n, g`weight
    ensures g.n == |aff| && g.Holds(SlotWeights(aff, |aff|, bc)) && fresh(g.weight)
  {
    var n := |aff|;
    var weight := new int[n, n];
    for q := 0 to n
      invariant forall k, s :: 0 <= k < q && 0 <= s < n ==> weight[k, s] == ToInt(aff[k][s % bc])
    {
      for s := 0 to n
        invariant forall k, t :: 0 <= k < q && 0 <= t < n ==> weight[k, t] == ToInt(aff[k][t % bc])
        invariant forall t :: 0 <= t < s ==> weight[q, t] == ToInt(aff[q][t % bc])
      {
        weight[q, s] := ToInt(aff[q][s % bc]);
      }
    }
    g.n, g.weight := n, weight;
  }

  /** The affinities lie in an interval with which no int of the matching can overflow. */
  ghost predicate Small(aff: Affinity) {
    exists lo: nat, hi: nat :: Between(aff, lo, hi) && 2 * hi - lo <= INT_MAX
  }

  ghost predicate Between(aff: Affinity, lo: nat, hi: nat) {
    lo <= hi && forall q, b :: 0 <= q < |aff| && 0 <= b < |aff[q]| ==> lo <= aff[q][b] <= hi
  }

  lemma SmallIsNarrow(aff: Affinity, bc: nat)
    requires bc > 0 && Shape(aff, |aff|, bc) && Small(aff)
    ensures Narrow(SlotWeights(aff, |aff|, bc)) && Fits(aff)
  {
    var w := SlotWeights(aff, |aff|, bc);
    var lo: nat, hi: nat :| Between(aff, lo, hi) && 2 * hi - lo <= INT_MAX;
    forall q, s | 0 <= q < |aff| && 0 <= s < |w[q]| ensures lo <= w[q][s] <= hi {
      WrapOfSum(aff[q][s % bc], 0);
    }
    SafeForms(lo, hi);
    assert Within(w, lo, hi);
  }

  function WideAffinity(lo: nat, hi: nat): Affinity {
    [[hi, lo, lo, lo], [hi, lo, lo, lo], [lo, lo, hi, lo], [lo, lo, hi, lo]]
  }

  lemma WideIsWide(lo: nat, hi: nat)
    requires lo <= hi <= INT_MAX
    ensures Shape(WideAffinity(lo, hi), 4, 4) && Fits(WideAffinity(lo, hi)) && Between(WideAffinity(lo, hi), lo, hi)
    ensures SlotWeights(WideAffinity(lo, hi), 4, 4) == WideWeights(lo, hi)
  {
    WrapOfSum(lo, 0);
    WrapOfSum(hi, 0);
    var w, v := SlotWeights(WideAffinity(lo, hi), 4, 4), WideWeights(lo, hi);
    forall q | 0 <= q < 4 ensures w[q] == v[q] {
      assert |w[q]| == |v[q]| == 4 && w[q][0] == v[q][0] && w[q][1] == v[q][1] && w[q][2] == v[q][2]
                && w[q][3] == v[q][3];
    }
  }

  /** Affinities that are ints but lie in no such interval, with which every call overflows. */
  lemma WideAffinityOverflows(lo: nat, hi: nat)
    requires lo <= hi <= INT_MAX && 2 * hi - lo > INT_MAX
    ensures !Passed(SlotWeights(WideAffinity(lo, hi), 4, 4), 2) || !Passed(SlotWeights(WideAffinity(lo, hi), 4, 4), 3)
  {
    WideIsWide(lo, hi);
    SafeForms(lo, hi);
    WideOverflows(lo, hi);
  }

  /** The affinities of the first k matched pairs are ints. */
  ghost predicate ReadFit(aff: Affinity, bc: nat, m: seq<int>, k: nat)
    requires bc > 0 && Shape(aff, |aff|, bc) && Permutation(m, |aff|) && k <= |aff|
  {
    forall s :: 0 <= s < k ==> IsInt(aff[m[s]][s % bc])
  }

  /** Reads the matching off into the two result arrays; stops when a weight is not its affinity. */
  method ReadMatching(g: Matcher, aff: Affinity, bc: nat, inBucket: array<int>,
                      localRatio: array<int>) returns (ok: bool)
    requires bc > 0 && Shape(aff, |aff|, bc) && g.Holds(SlotWeights(aff, |aff|, bc)) && g.n == |aff|
    requires Permutation(g.Mates(), |aff|)
    requires inBucket.Length == localRatio.Length == |aff| && inBucket != localRatio
    requires inBucket != g.mate && localRatio != g.mate
    modifies inBucket, localRatio
    ensures ok ==> ReadOff(g.Mates(), inBucket[..], bc)
    ensures ok ==> forall q :: 0 <= q < |aff| ==> 0 <= inBucket[q] < bc && localRatio[q] == aff[q][inBucket[q]]
    ensures ok <==> ReadFit(aff, bc, g.Mates(), |aff|)
  {
    ghost var m := g.Mates();
    for slot := 0 to g.n
      invariant g.Mates() == m
      invariant forall s :: 0 <= s < slot ==> inBucket[m[s]] == s % bc && localRatio[m[s]] == aff[m[s]][s % bc]
      invariant ReadFit(aff, bc, m, slot)
    {
      var q := g.mate[slot];
      inBucket[q] := slot % bc;
      localRatio[q] := g.weight[q, slot];
      WrapOfSum(aff[q][slot % bc], 0);
      if localRatio[q] != aff[q][slot % bc] {
        return false;
      }
    }
    forall q | 0 <= q < |aff| ensures 0 <= inBucket[q] < bc && localRatio[q] == aff[q][inBucket[q]] {
      var s := IndexOf(m, q);
      assert inBucket[m[s]] == s % bc;
    }
    return true;
  }

  /** Assigns each query to a bucket, bucket b getting as many queries as there are slots
      s < n with s % bc == b. If no int overflowed and every affinity fits in one, no such assignment
      has a larger total affinity; small affinities cannot overflow. The error exit is taken exactly
      if the affinity of a matched pair is no int. */
  method MaximumWeightMatch(g: Matcher, aff: Affinity, inBucket: array<int>,
                            localRatio: array<int>) returns (r: Outcome)
    requires g.Valid() && |aff| > 0 && |aff[0]| > 0 && Shape(aff, |aff|, |aff[0]|)
    requires inBucket.Length == localRatio.Length == |aff| && inBucket != localRatio
    requires inBucket !in {g.lx, g.ly, g.mate} && localRatio !in {g.lx, g.ly, g.mate}
    modifies g, g.lx, g.ly, g.sx, g.sy, g.mate, inBucket, localRatio
    ensures r == TooManyQueries <==> |aff| > 100000
    ensures r == Matched ==> Balanced(inBucket[..], |aff[0]|) && localRatio[..] == Gains(aff, inBucket[..], |aff[0]|)
    ensures r == Matched && Fits(aff) && !g.overflow ==> BestBalanced(aff, inBucket[..], |aff[0]|)
    ensures r == MatchError ==> !Fits(aff)
    ensures r != TooManyQueries ==> g.Valid() && g.n == |aff| && Permutation(g.Mates(), |aff|)
    ensures r != TooManyQueries ==> (r == MatchError <==> !ReadFit(aff, |aff[0]|, g.Mates(), |aff|))
    ensures r != TooManyQueries && Small(aff) ==> !g.overflow
    ensures r != TooManyQueries && !g.overflow ==>
              forall u :: 0 <= u < |aff| ==> Passed(SlotWeights(aff, |aff|, |aff[0]|), u)
  {
    hide Passed;
    var bc := |aff[0]|;
    if |aff| > MAXN {
      return TooManyQueries;
    }
    FillWeights(g, aff, bc);
    if Small(aff) { SmallIsNarrow(aff, bc); }
    var ans := g.HungaryMatch(true, SlotWeights(aff, |aff|, bc));
    var ok := ReadMatching(g, aff, bc, inBucket, localRatio);
    if !ok {
      return MatchError;
    }
    ReadOffIsBalanced(g.Mates(), inBucket[..], bc);
    if Fits(aff) && !g.overflow { HeaviestIsBest(aff, g.Mates(), inBucket[..], bc); }
    return Matched;
  }

  /** Whether affinities from lo to hi can be matched without overflow shows at those that are lo or hi:
      the call overflows exactly if 2 hi - lo is no int, whatever the searches find. */
  method WideMatch(g: Matcher, lo: nat, hi: nat, inBucket: array<int>, localRatio: array<int>) returns (r: Outcome)
    requires g.Valid() && lo <= hi <= INT_MAX
    requires inBucket.Length == localRatio.Length == 4 && inBucket != localRatio
    requires inBucket !in {g.lx, g.ly, g.mate} && localRatio !in {g.lx, g.ly, g.mate}
    modifies g, g.lx, g.ly, g.sx, g.sy, g.mate, inBucket, localRatio
    ensures r == Matched && (g.overflow <==> 2 * hi - lo > INT_MAX)
  {
    WideIsWide(lo, hi);
    if 2 * hi - lo > INT_MAX { WideAffinityOverflows(lo, hi); }
    r := MaximumWeightMatch(g, WideAffinity(lo, hi), inBucket, localRatio);
  }
}
