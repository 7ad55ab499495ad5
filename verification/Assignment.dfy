/** The assignment problem behind `HungaryMatch`, on values: weights, vertex labels, partial
    matchings, alternating closure, and the two facts the algorithm lives on -- weak duality and
    the strict growth of the alternating tree after a relabelling. */
module Assignment {
  import opened Common

  type Matrix = seq<seq<int>>

  ghost predicate IsSquare(w: Matrix, n: nat) {
    |w| == n && forall i :: 0 <= i < n ==> |w[i]| == n
  }

  // ----- sums ---------------------------------------------------------------------------------

  /** The sum of the first k entries of s. */
  function SumTo(s: seq<int>, k: nat): int
    requires k <= |s|
  {
    if k == 0 then 0 else SumTo(s, k - 1) + s[k - 1]
  }

  /** The weight of assigning left vertex p[j] to right vertex j, over the first k right vertices. */
  function WeightTo(w: Matrix, p: seq<int>, k: nat): int
    requires k <= |p|
    requires forall j :: 0 <= j < k ==> 0 <= p[j] < |w| && j < |w[p[j]]|
  {
    if k == 0 then 0 else WeightTo(w, p, k - 1) + w[p[k - 1]][k - 1]
  }

  ghost predicate Permutation(p: seq<int>, n: nat) {
    && |p| == n
    && (forall j :: 0 <= j < n ==> 0 <= p[j] < n)
    && (forall i, j :: 0 <= i < j < n ==> p[i] != p[j])
  }

  ghost function Total(w: Matrix, p: seq<int>): int
    requires IsSquare(w, |p|) && Permutation(p, |p|)
  {
    WeightTo(w, p, |p|)
  }

  ghost function SetSum(s: seq<int>, a: set<int>): int
    requires a <= Range(|s|)
  {
    if a == {} then 0 else var x :| x in a; s[x] + SetSum(s, a - {x})
  }

  lemma {:induction false} SetSumSplit(s: seq<int>, a: set<int>, x: int)
    requires a <= Range(|s|) && x in a
    ensures SetSum(s, a) == s[x] + SetSum(s, a - {x})
    decreases |a|
  {
    var y :| y in a && SetSum(s, a) == s[y] + SetSum(s, a - {y});
    if x != y {
      SetSumSplit(s, a - {y}, x);
      SetSumSplit(s, a - {x}, y);
      assert a - {y} - {x} == a - {x} - {y};
    }
  }

  ghost function Image(p: seq<int>, k: nat): set<int>
    requires k <= |p|
  {
    set j | 0 <= j < k :: p[j]
  }

  lemma ImageStep(p: seq<int>, k: nat)
    requires 0 < k <= |p|
    ensures Image(p, k) == Image(p, k - 1) + {p[k - 1]}
  {
  }

  lemma {:induction false} ImageSize(p: seq<int>, k: nat)
    requires k <= |p|
    requires forall i, j :: 0 <= i < j < k ==> p[i] != p[j]
    ensures |Image(p, k)| == k
  {
    if k > 0 {
      ImageSize(p, k - 1);
      ImageStep(p, k);
      assert p[k - 1] !in Image(p, k - 1);
    }
  }

  lemma PermutationIsOnto(p: seq<int>, n: nat)
    requires Permutation(p, n)
    ensures Image(p, n) == Range(n)
  {
    ImageSize(p, n);
    RangeSize(n);
    SubsetSize(Image(p, n), Range(n));
  }

  /** The sum of s[p[0]], ..., s[p[k - 1]]. */
  ghost function PickTo(s: seq<int>, p: seq<int>, k: nat): int
    requires k <= |p|
    requires forall j :: 0 <= j < k ==> 0 <= p[j] < |s|
  {
    if k == 0 then 0 else PickTo(s, p, k - 1) + s[p[k - 1]]
  }

  lemma {:induction false} PickIsSetSum(s: seq<int>, p: seq<int>, k: nat)
    requires k <= |p|
    requires forall j :: 0 <= j < k ==> 0 <= p[j] < |s|
    requires forall i, j :: 0 <= i < j < k ==> p[i] != p[j]
    ensures Image(p, k) <= Range(|s|) && PickTo(s, p, k) == SetSum(s, Image(p, k))
  {
    if k > 0 {
      PickIsSetSum(s, p, k - 1);
      ImageStep(p, k);
      SetSumSplit(s, Image(p, k), p[k - 1]);
      assert Image(p, k) - {p[k - 1]} == Image(p, k - 1);
    }
  }

  /** Summing along a permutation is summing in order. */
  lemma PermutedSum(s: seq<int>, p: seq<int>)
    requires Permutation(p, |s|)
    ensures PickTo(s, p, |p|) == SumTo(s, |s|)
  {
    PickIsSetSum(s, p, |p|);
    PermutationIsOnto(p, |p|);
    SetSumOfRange(s, |s|);
  }

  lemma {:induction false} SetSumOfRange(s: seq<int>, k: nat)
    requires k <= |s|
    ensures Range(k) <= Range(|s|) && SetSum(s, Range(k)) == SumTo(s, k)
  {
    if k > 0 {
      SetSumOfRange(s, k - 1);
      SetSumSplit(s, Range(k), k - 1);
      assert Range(k) - {k - 1} == Range(k - 1);
    }
  }

  // ----- labels -------------------------------------------------------------------------------

  /** The weights together with a labelling of the left (lx) and right (ly) vertices. */
  datatype Labelling = Labelling(w: Matrix, lx: seq<int>, ly: seq<int>) {
    ghost predicate Shape(n: nat) {
      IsSquare(w, n) && |lx| == n && |ly| == n
    }

    ghost predicate Tight(i: int, j: int)
      requires Shape(|w|) && 0 <= i < |w| && 0 <= j < |w|
    {
      lx[i] + ly[j] == w[i][j]
    }

    ghost predicate Feasible()
      requires Shape(|w|)
    {
      forall i, j :: 0 <= i < |w| && 0 <= j < |w| ==> lx[i] + ly[j] >= w[i][j]
    }

    /** The sum that a search compares with weight (i, j) fits in an int. */
    ghost predicate SumFits(i: int, j: int)
      requires Shape(|w|) && 0 <= i < |w| && 0 <= j < |w|
    {
      IsInt(lx[i] + ly[j])
    }

    ghost predicate SumsFit()
      requires Shape(|w|)
    {
      forall i, j :: 0 <= i < |w| && 0 <= j < |w| ==> SumFits(i, j)
    }

    ghost function Dual(): int
      requires Shape(|w|)
    {
      SumTo(lx, |w|) + SumTo(ly, |w|)
    }
  }

  lemma {:induction false} WeightBelowLabels(d: Labelling, p: seq<int>, k: nat)
    requires d.Shape(|d.w|) && d.Feasible() && Permutation(p, |d.w|) && k <= |p|
    ensures WeightTo(d.w, p, k) <= PickTo(d.lx, p, k) + SumTo(d.ly, k)
    ensures (forall j :: 0 <= j < k ==> d.Tight(p[j], j)) ==> WeightTo(d.w, p, k) == PickTo(d.lx, p, k) + SumTo(d.ly, k)
  {
    if k > 0 {
      WeightBelowLabels(d, p, k - 1);
      assert d.Tight(p[k - 1], k - 1) == (d.lx[p[k - 1]] + d.ly[k - 1] == d.w[p[k - 1]][k - 1]);
    }
  }

  /** Weak duality, with equality on permutations made of tight edges. */
  lemma DualBound(d: Labelling, p: seq<int>)
    requires d.Shape(|d.w|) && d.Feasible() && Permutation(p, |d.w|)
    ensures Total(d.w, p) <= d.Dual()
    ensures (forall j :: 0 <= j < |p| ==> d.Tight(p[j], j)) ==> Total(d.w, p) == d.Dual()
  {
    WeightBelowLabels(d, p, |p|);
    PermutedSum(d.lx, p);
  }

  /** p weighs at least as much as every permutation. */
  ghost predicate Heaviest(w: Matrix, p: seq<int>)
    requires IsSquare(w, |p|) && Permutation(p, |p|)
  {
    forall q :: Permutation(q, |p|) ==> Total(w, q) <= Total(w, p)
  }

  /** p weighs at most as much as every permutation. */
  ghost predicate Lightest(w: Matrix, p: seq<int>)
    requires IsSquare(w, |p|) && Permutation(p, |p|)
  {
    forall q :: Permutation(q, |p|) ==> Total(w, p) <= Total(w, q)
  }

  /** Optimality certificate: a permutation of tight edges beats every permutation. */
  lemma TightIsHeaviest(d: Labelling, p: seq<int>)
    requires d.Shape(|d.w|) && d.Feasible() && Permutation(p, |d.w|)
    requires forall j :: 0 <= j < |p| ==> d.Tight(p[j], j)
    ensures Heaviest(d.w, p)
  {
    forall q | Permutation(q, |p|) ensures Total(d.w, q) <= Total(d.w, p) {
      DualBound(d, p);
      DualBound(d, q);
    }
  }

  ghost function Negated(w: Matrix): Matrix {
    seq(|w|, i requires 0 <= i < |w| => seq(|w[i]|, j requires 0 <= j < |w[i]| => -w[i][j]))
  }

  lemma {:induction false} NegatedWeight(w: Matrix, p: seq<int>, k: nat)
    requires IsSquare(w, |p|) && Permutation(p, |p|) && k <= |p|
    ensures WeightTo(Negated(w), p, k) == -WeightTo(w, p, k)
  {
    if k > 0 { NegatedWeight(w, p, k - 1); }
  }

  lemma NegatedTotal(w: Matrix, p: seq<int>)
    requires IsSquare(w, |p|) && Permutation(p, |p|)
    ensures IsSquare(Negated(w), |p|) && Total(Negated(w), p) == -Total(w, p)
  {
    NegatedWeight(w, p, |p|);
  }

  /** Maximising over the negated weights minimises over the weights. */
  lemma NegatedHeaviest(w: Matrix, p: seq<int>)
    requires IsSquare(w, |p|) && Permutation(p, |p|) && Heaviest(Negated(w), p)
    ensures Lightest(w, p)
  {
    NegatedWeight(w, p, |p|);
    forall q | Permutation(q, |p|) ensures Total(w, p) <= Total(w, q) {
      NegatedWeight(w, q, |q|);
      assert Total(Negated(w), q) <= Total(Negated(w), p);
    }
  }

  // ----- partial matchings --------------------------------------------------------------------

  /** m[v] is the left partner of right vertex v, or -1; no left vertex is used twice. */
  ghost predicate Partial(m: seq<int>, n: nat) {
    && |m| == n
    && (forall v :: 0 <= v < n ==> -1 <= m[v] < n)
    && (forall u, v :: 0 <= u < v < n && m[u] != -1 ==> m[u] != m[v])
  }

  /** The left vertices matched to the right vertices in a. */
  ghost function Cover(m: seq<int>, a: set<int>): set<int> {
    set v | v in a && 0 <= v < |m| && m[v] != -1 :: m[v]
  }

  ghost predicate MatchedTight(d: Labelling, m: seq<int>)
    requires d.Shape(|m|) && Partial(m, |m|)
  {
    forall v :: 0 <= v < |m| && m[v] != -1 ==> d.Tight(m[v], v)
  }

  /** What an augmenting search from left vertex u does when it may only touch the right vertices
      in a: exactly u is gained among the left vertices matched inside a, nothing outside a
      changes, and every changed edge is tight. */
  ghost predicate Augmented(d: Labelling, m: seq<int>, m': seq<int>, u: int, a: set<int>)
    requires d.Shape(|d.w|)
  {
    && |m| == |m'| == |d.w|
    && (forall v :: 0 <= v < |m| && v !in a ==> m'[v] == m[v])
    && (forall v :: 0 <= v < |m| ==> -1 <= m'[v] < |m|)
    && (forall v1, v2 :: 0 <= v1 < v2 < |m| && v1 in a && v2 in a && m'[v1] != -1 ==> m'[v1] != m'[v2])
    && Cover(m', a) == Cover(m, a) + {u}
    && (forall v :: 0 <= v < |m| && m'[v] != m[v] ==> 0 <= m'[v] && d.Tight(m'[v], v))
  }

  lemma AugmentFree(d: Labelling, m: seq<int>, u: int, v: int, a: set<int>)
    requires d.Shape(|d.w|) && Partial(m, |d.w|)
    requires 0 <= u < |m| && 0 <= v < |m| && v in a
    requires u !in Cover(m, a) && m[v] == -1 && d.Tight(u, v)
    ensures Augmented(d, m, m[v := u], u, a)
  {
    var m' := m[v := u];
    forall x ensures x in Cover(m', a) <==> x in Cover(m, a) + {u} {
      if x in Cover(m, a) {
        var t :| t in a && 0 <= t < |m| && m[t] != -1 && m[t] == x;
        assert m'[t] == x;
      }
      assert m'[v] == u;
    }
  }

  /** The recursive case: the partner m[v] of v was re-matched inside a1, so u may take v. */
  ghost predicate Through(d: Labelling, m: seq<int>, m1: seq<int>, u: int, v: int, a: set<int>, a1: set<int>) {
    && d.Shape(|d.w|) && Partial(m, |d.w|)
    && 0 <= u < |m| && 0 <= v < |m| && v in a && a1 <= a - {v}
    && u !in Cover(m, a) && m[v] != -1 && d.Tight(u, v)
    && Augmented(d, m, m1, m[v], a1)
  }

  lemma ThroughCovers(d: Labelling, m: seq<int>, m1: seq<int>, u: int, v: int, a: set<int>, a1: set<int>, t: int)
    requires Through(d, m, m1, u, v, a, a1)
    requires t in a && 0 <= t < |m| && m1[t] != -1 && t != v
    ensures m1[t] in Cover(m, a)
  {
    assert m[v] in Cover(m, a);
    if t in a1 { assert m1[t] in Cover(m1, a1); }
  }

  lemma ThroughInjective(d: Labelling, m: seq<int>, m1: seq<int>, u: int, v: int, a: set<int>, a1: set<int>, s: int,
                         t: int)
    requires Through(d, m, m1, u, v, a, a1)
    requires 0 <= s < |m| && 0 <= t < |m| && s in a && t in a && s != t && m1[v := u][s] != -1
    ensures m1[v := u][s] != m1[v := u][t]
  {
    if s != v { ThroughCovers(d, m, m1, u, v, a, a1, s); }
    if t != v && m1[t] != -1 { ThroughCovers(d, m, m1, u, v, a, a1, t); }
    if s in a1 { assert m1[s] in Cover(m1, a1); }
    if t in a1 && m1[t] != -1 { assert m1[t] in Cover(m1, a1); }
  }

  lemma ThroughKeeps(d: Labelling, m: seq<int>, m1: seq<int>, u: int, v: int, a: set<int>, a1: set<int>, t: int)
    requires Through(d, m, m1, u, v, a, a1)
    requires t in a && 0 <= t < |m| && m[t] != -1
    ensures m[t] in Cover(m1[v := u], a)
  {
    var m' := m1[v := u];
    if t == v || t in a1 {
      assert m[t] in Cover(m1, a1);
      var s :| s in a1 && 0 <= s < |m1| && m1[s] != -1 && m1[s] == m[t];
      assert m'[s] == m[t];
    } else {
      assert m'[t] == m[t];
    }
  }

  lemma AugmentThrough(d: Labelling, m: seq<int>, m1: seq<int>, u: int, v: int, a: set<int>, a1: set<int>)
    requires Through(d, m, m1, u, v, a, a1)
    ensures Augmented(d, m, m1[v := u], u, a)
  {
    var m' := m1[v := u];
    forall s, t | 0 <= s < t < |m| && s in a && t in a && m'[s] != -1 ensures m'[s] != m'[t] {
      ThroughInjective(d, m, m1, u, v, a, a1, s, t);
    }
    forall x | x in Cover(m', a) ensures x in Cover(m, a) + {u} {
      var t :| t in a && 0 <= t < |m'| && m'[t] != -1 && m'[t] == x;
      if t != v { ThroughCovers(d, m, m1, u, v, a, a1, t); }
    }
    forall x | x in Cover(m, a) + {u} ensures x in Cover(m', a) {
      assert m'[v] == u;
      if x != u {
        var t :| t in a && 0 <= t < |m| && m[t] != -1 && m[t] == x;
        ThroughKeeps(d, m, m1, u, v, a, a1, t);
      }
    }
  }

  // ----- alternating closure ------------------------------------------------------------------

  /** (a, b) is closed under tight edges from left to right and matching edges from right to left. */
  ghost predicate Closed(d: Labelling, m: seq<int>, a: set<int>, b: set<int>)
    requires d.Shape(|m|)
  {
    && (forall i, v :: i in a && 0 <= i < |m| && 0 <= v < |m| && d.Tight(i, v) ==> v in b)
    && (forall v :: v in b && 0 <= v < |m| && m[v] != -1 ==> m[v] in a)
  }

  /** (a, b) is exactly what is alternating-reachable from u: closed, containing u, and inside every
      other closed pair that contains u. */
  ghost predicate Reachable(d: Labelling, m: seq<int>, u: int, a: set<int>, b: set<int>)
    requires d.Shape(|m|)
  {
    && u in a && Closed(d, m, a, b)
    && a <= Range(|m|) && b <= Range(|m|)
    && forall a', b' :: Closed(d, m, a', b') && u in a' ==> a <= a' && b <= b'
  }

  /** A search from u that began with (a0, b0) visited and has (a, b) visited now stayed inside every
      closed pair that contains u. */
  ghost predicate Confined(d: Labelling, m: seq<int>, u: int, a0: set<int>, b0: set<int>, a: set<int>, b: set<int>)
    requires d.Shape(|m|)
  {
    && u in a && a0 <= a && b0 <= b
    && forall a', b' :: Closed(d, m, a', b') && u in a' ==> a <= a0 + a' && b <= b0 + b'
  }

  /** It has followed all alternating steps from what it visited, except possibly the tight edges
      from u to the right vertices v and above. */
  ghost predicate FollowedTo(d: Labelling, m: seq<int>, u: int, a0: set<int>, b0: set<int>, a: set<int>, b: set<int>,
                             v: int)
    requires d.Shape(|m|)
  {
    && (forall i, t :: i in a && i !in a0 && i != u && 0 <= i < |m| && 0 <= t < |m| && d.Tight(i, t) ==> t in b)
    && (0 <= u < |m| ==> forall t :: 0 <= t < v && t < |m| && d.Tight(u, t) ==> t in b)
    && (forall t :: t in b && t !in b0 && 0 <= t < |m| ==> m[t] != -1 && m[t] in a)
  }

  /** The contract of one augmenting search from u: it took the visited vertices from (a0, b0) to
      (a, b) and the matching from m to m'. */
  ghost predicate Searched(d: Labelling, u: int, a0: set<int>, b0: set<int>, m: seq<int>,
                           a: set<int>, b: set<int>, m': seq<int>, found: bool)
    requires d.Shape(|m|)
  {
    && Confined(d, m, u, a0, b0, a, b)
    && (found ==> Augmented(d, m, m', u, Range(|m|) - b0))
    && (!found ==> m' == m && FollowedTo(d, m, u, a0, b0, a, b, |m|))
  }

  lemma SearchBegins(d: Labelling, m: seq<int>, u: nat, a0: set<int>, b0: set<int>)
    requires d.Shape(|m|) && u < |m|
    ensures Confined(d, m, u, a0, b0, a0 + {u as int}, b0) && FollowedTo(d, m, u, a0, b0, a0 + {u as int}, b0, 0)
  {
  }

  lemma SearchGrows(d: Labelling, m: seq<int>, u: nat, a0: set<int>, b0: set<int>, a: set<int>, b: set<int>)
    requires d.Shape(|m|) && Confined(d, m, u, a0, b0, a, b)
    ensures a0 <= a && b0 <= b && Range(|m|) - b <= Range(|m|) - b0
  {
  }

  /** A visited or slack v leads nowhere. */
  lemma SearchSkips(d: Labelling, m: seq<int>, u: nat, a0: set<int>, b0: set<int>, a: set<int>, b: set<int>, v: nat)
    requires d.Shape(|m|) && u < |m| && v < |m| && FollowedTo(d, m, u, a0, b0, a, b, v) && (v in b || !d.Tight(u, v))
    ensures FollowedTo(d, m, u, a0, b0, a, b, v + 1)
  {
  }

  /** One step of the search from u: visit v over a tight edge; if v is free, or the search from its
      partner finds a way out, give v to u; otherwise the edge is settled. */
  lemma SearchStep(d: Labelling, m: seq<int>, u: int, v: int, a0: set<int>, b0: set<int>, a: set<int>, b: set<int>,
                   a1: set<int>, b1: set<int>, m1: seq<int>, found: bool)
    requires d.Shape(|m|) && Partial(m, |m|) && 0 <= u < |m| && 0 <= v < |m| && v !in b && d.Tight(u, v)
    requires u !in Cover(m, Range(|m|) - b0)
    requires Confined(d, m, u, a0, b0, a, b) && FollowedTo(d, m, u, a0, b0, a, b, v)
    requires m[v] == -1 ==> found && a1 == a && b1 == b + {v} && m1 == m
    requires m[v] != -1 ==> Searched(d, m[v], a, b + {v}, m, a1, b1, m1, found)
    ensures Confined(d, m, u, a0, b0, a1, b1)
    ensures found ==> |m1| == |m| && Augmented(d, m, m1[v := u], u, Range(|m|) - b0)
    ensures !found ==> m1 == m && FollowedTo(d, m, u, a0, b0, a1, b1, v + 1)
  {
    if m[v] == -1 {
      AugmentFree(d, m, u, v, Range(|m|) - b0);
    } else if found {
      AugmentThrough(d, m, m1, u, v, Range(|m|) - b0, Range(|m|) - (b + {v}));
    }
  }

  /** A search that failed from a clean start has visited exactly what is reachable. */
  lemma FailedSearch(d: Labelling, m: seq<int>, u: int, a: set<int>, b: set<int>)
    requires d.Shape(|m|) && 0 <= u < |m| && a <= Range(|m|) && b <= Range(|m|)
    requires Confined(d, m, u, {}, {}, a, b) && FollowedTo(d, m, u, {}, {}, a, b, |m|)
    ensures Reachable(d, m, u, a, b)
  {
  }

  /** The labels after subtracting dx on the left set a and adding dx on the right set b. */
  ghost predicate Relabelled(d: Labelling, d': Labelling, a: set<int>, b: set<int>, dx: int)
    requires d.Shape(|d.w|)
  {
    && d'.w == d.w && d'.Shape(|d.w|)
    && (forall i :: 0 <= i < |d.w| ==> d'.lx[i] == if i in a then d.lx[i] - dx else d.lx[i])
    && (forall j :: 0 <= j < |d.w| ==> d'.ly[j] == if j in b then d.ly[j] + dx else d.ly[j])
  }

  /** dx is a lower bound of the slacks from a to the complement of b. */
  ghost predicate BelowSlack(d: Labelling, a: set<int>, b: set<int>, dx: int)
    requires d.Shape(|d.w|)
  {
    forall i, j :: i in a && 0 <= i < |d.w| && 0 <= j < |d.w| && j !in b ==> dx <= Slack(d, i, j)
  }

  /** Relabelling keeps feasibility, matched edges and the edges inside the tree. */
  lemma RelabelKeeps(d: Labelling, d': Labelling, m: seq<int>, a: set<int>, b: set<int>, dx: int)
    requires d.Shape(|m|) && Partial(m, |m|) && d.Feasible() && MatchedTight(d, m)
    requires Closed(d, m, a, b) && 0 <= dx && BelowSlack(d, a, b, dx)
    requires Relabelled(d, d', a, b, dx)
    ensures d'.Feasible() && MatchedTight(d', m)
    ensures forall i, j :: i in a && j in b && 0 <= i < |m| && 0 <= j < |m| ==> (d'.Tight(i, j) <==> d.Tight(i, j))
  {
    forall v | 0 <= v < |m| && m[v] != -1 ensures d'.Tight(m[v], v) {
      assert d.Tight(m[v], v);
      assert v in b <==> m[v] in a;
    }
  }

  /** After a relabelling by the exact minimal slack, everything reachable from u stays reachable and
      at least one new right vertex joins. */
  lemma TreeGrows(d: Labelling, d': Labelling, m: seq<int>, u: int, a: set<int>, b: set<int>, dx: int,
                  i0: int, j0: int, a': set<int>, b': set<int>)
    requires d.Shape(|m|) && Partial(m, |m|)
    requires Reachable(d, m, u, a, b) && 0 <= dx && Relabelled(d, d', a, b, dx)
    requires i0 in a && 0 <= i0 < |m| && 0 <= j0 < |m| && j0 !in b
    requires dx == Slack(d, i0, j0)
    requires Closed(d', m, a', b') && u in a'
    ensures a <= a' && b < b'
  {
    assert Closed(d, m, a' * a, b' * b) by {
      forall i, v | i in a' * a && 0 <= i < |m| && 0 <= v < |m| && d.Tight(i, v) ensures v in b' * b {
        assert v in b;
        assert d'.Tight(i, v);
      }
    }
    assert d'.Tight(i0, j0);
  }

  /** With fewer than n matched left vertices some right vertex is free. */
  lemma FreeRightVertex(m: seq<int>, u: nat) returns (v: nat)
    requires Partial(m, |m|) && u < |m| && Cover(m, Range(|m|)) == Range(u)
    ensures v < |m| && m[v] == -1
  {
    CoverSizeIfFull(m, |m|);
    RangeSize(u);
    v :| 0 <= v < |m| && m[v] == -1;
  }

  lemma CoverSizeIfFull(m: seq<int>, k: nat)
    requires Partial(m, |m|) && k <= |m|
    ensures (forall v :: 0 <= v < k ==> m[v] != -1) ==> |Cover(m, Range(k))| == k
  {
    if forall v :: 0 <= v < k ==> m[v] != -1 {
      ImageSize(m, k);
      assert Image(m, k) == Cover(m, Range(k));
    }
  }

  /** Once all left vertices are matched the matching is a permutation. */
  lemma FullCoverIsPermutation(m: seq<int>)
    requires Partial(m, |m|) && Cover(m, Range(|m|)) == Range(|m|)
    ensures Permutation(m, |m|)
  {
    forall v | 0 <= v < |m| ensures m[v] != -1 {
      if m[v] == -1 {
        CoverSize(m, |m|, v);
        RangeSize(|m|);
        assert false;
      }
    }
  }

  lemma CoverStep(m: seq<int>, k: nat)
    requires 0 < k <= |m|
    ensures Cover(m, Range(k)) == Cover(m, Range(k - 1)) + if m[k - 1] == -1 then {} else {m[k - 1]}
  {
  }

  lemma {:induction false} CoverSize(m: seq<int>, k: nat, v: int)
    requires k <= |m|
    ensures |Cover(m, Range(k))| <= k
    ensures 0 <= v < k && m[v] == -1 ==> |Cover(m, Range(k))| < k
  {
    if k > 0 {
      CoverSize(m, k - 1, v);
      CoverStep(m, k);
    }
  }

  /** Each matched right vertex of a closed set has its partner on the left, and the free root is
      one more: a failed search marks strictly more left than right vertices. */
  lemma {:induction false} PartnersFit(m: seq<int>, a: set<int>, b: set<int>, u: int)
    requires Partial(m, |m|) && b <= Range(|m|)
    requires forall v :: v in b ==> m[v] != -1 && m[v] in a
    requires u in a && u !in Cover(m, Range(|m|))
    ensures |b| < |a|
    decreases |b|
  {
    if b != {} {
      var v :| v in b;
      assert m[v] in Cover(m, Range(|m|));
      forall t | t in b - {v} ensures m[t] in a - {m[v]} {
        assert m[t] != m[v];
      }
      PartnersFit(m, a - {m[v]}, b - {v}, u);
    }
  }

  lemma CutAt(a: set<int>, k: nat)
    requires 0 < k
    ensures |a * Range(k)| == |a * Range(k - 1)| + if k - 1 in a then 1 else 0
  {
    assert a * Range(k) == a * Range(k - 1) + if k - 1 in a then {k - 1} else {};
  }

  lemma {:induction false} ShiftedSum(s: seq<int>, s': seq<int>, a: set<int>, dx: int, k: nat)
    requires k <= |s| == |s'|
    requires forall i :: 0 <= i < k ==> s'[i] == if i in a then s[i] + dx else s[i]
    ensures SumTo(s', k) == SumTo(s, k) + dx * |a * Range(k)|
  {
    hide Range;
    if k == 0 {
      EmptyCut(a);
    } else {
      ShiftedSum(s, s', a, dx, k - 1);
      CutAt(a, k);
      var c := |a * Range(k - 1)|;
      assert dx * (c + 1) == dx * c + dx;
    }
  }

  lemma EmptyCut(a: set<int>)
    ensures |a * Range(0)| == 0
  {
    assert a * Range(0) == {};
  }

  /** Each relabelling lowers the dual objective, which no permutation's weight exceeds. */
  lemma DualDrops(d: Labelling, d': Labelling, a: set<int>, b: set<int>, dx: int)
    requires d.Shape(|d.w|) && Relabelled(d, d', a, b, dx)
    requires a <= Range(|d.w|) && b <= Range(|d.w|) && |b| < |a| && 1 <= dx
    ensures d'.Dual() < d.Dual()
  {
    var n := |d.w|;
    ShiftedSum(d.lx, d'.lx, a, -dx, n);
    ShiftedSum(d.ly, d'.ly, b, dx, n);
    assert a * Range(n) == a && b * Range(n) == b;
    assert d'.Dual() == d.Dual() - dx * (|a| - |b|);
    assert dx * (|a| - |b|) >= 1;
  }

  // ----- the state between two phases ---------------------------------------------------------

  /** u phases are over: the left vertices below u are matched, over tight edges, under feasible
      labels; right vertices that are still free have label 0. */
  ghost predicate Settled(d: Labelling, m: seq<int>, u: nat) {
    && d.Shape(|m|) && Partial(m, |m|) && d.Feasible() && MatchedTight(d, m)
    && Cover(m, Range(|m|)) == Range(u)
    && (forall j :: 0 <= j < |m| ==> 0 <= d.ly[j])
    && (forall j :: 0 <= j < |m| && m[j] == -1 ==> d.ly[j] == 0)
    && (forall i :: 0 <= i < |m| ==> d.lx[i] <= StartLabel(d.w[i]))
  }

  /** The labels of the left vertices from u on are still those that the run started with. */
  ghost predicate Untouched(d: Labelling, u: nat)
    requires d.Shape(|d.w|)
  {
    forall i :: u <= i < |d.w| ==> d.lx[i] == StartLabel(d.w[i])
  }

  const LOWEST_LABEL := -0x1FFF_FFFF

  /** The label a left vertex starts with: its greatest weight, but no less than the lowest label. */
  ghost function StartLabel(row: seq<int>): (x: int)
    ensures -0x1FFF_FFFF <= x && forall j :: 0 <= j < |row| ==> row[j] <= x
    ensures x == -0x1FFF_FFFF || x in row
  {
    if row == [] then LOWEST_LABEL
    else
      var x := StartLabel(row[..|row| - 1]);
      assert row == row[..|row| - 1] + [row[|row| - 1]];
      if x < row[|row| - 1] then row[|row| - 1] else x
  }

  lemma NoLabel()
    ensures StartLabel([]) == LOWEST_LABEL
  {
  }

  lemma NextLabel(row: seq<int>, j: nat)
    requires j < |row|
    ensures StartLabel(row[..j + 1]) == if StartLabel(row[..j]) < row[j] then row[j] else StartLabel(row[..j])
  {
    assert row[..j + 1][..j] == row[..j];
  }

  /** A found augmentation ends the phase. */
  lemma PhaseEnds(d: Labelling, m: seq<int>, m': seq<int>, u: nat)
    requires Settled(d, m, u) && u < |m| && Augmented(d, m, m', u, Range(|m|))
    ensures Settled(d, m', u + 1)
  {
    assert Range(u + 1) == Range(u) + {u as int};
    forall v | 0 <= v < |m| && m'[v] != -1 ensures d.Tight(m'[v], v) {
      assert m'[v] == m[v] ==> d.Tight(m[v], v);
    }
    forall v | 0 <= v < |m| && m'[v] == -1 ensures d.ly[v] == 0 {
      assert m[v] == -1;
    }
  }

  /** Relabelling after a failed search leads to another such state, with a smaller dual objective
      and no larger left labels. */
  lemma RelabelSettles(d: Labelling, d': Labelling, m: seq<int>, u: nat, a: set<int>, b: set<int>, dx: int)
    requires Settled(d, m, u) && u < |m| && Reachable(d, m, u, a, b)
    requires forall v :: v in b ==> m[v] != -1
    requires 1 <= dx && BelowSlack(d, a, b, dx) && Relabelled(d, d', a, b, dx)
    ensures Settled(d', m, u) && d'.Dual() < d.Dual() && NoHigher(d'.lx, d.lx)
    ensures Untouched(d, u + 1) ==> Untouched(d', u + 1)
  {
    hide StartLabel;
    RelabelKeeps(d, d', m, a, b, dx);
    PartnersFit(m, a, b, u);
    DualDrops(d, d', a, b, dx);
    VisitedSoFar(d, m, u, a, b);
  }

  /** A search in phase u visits no left vertex of a later phase. */
  lemma VisitedSoFar(d: Labelling, m: seq<int>, u: nat, a: set<int>, b: set<int>)
    requires Settled(d, m, u) && u < |m| && Reachable(d, m, u, a, b)
    ensures a <= Range(u + 1)
  {
    assert Closed(d, m, Range(u + 1), Range(|m|)) by {
      forall v | 0 <= v < |m| && m[v] != -1 ensures m[v] in Range(u + 1) {
        assert v in Range(|m|) && m[v] in Cover(m, Range(|m|));
      }
    }
  }

  /** After n phases the matching is a heaviest permutation. */
  lemma SettledIsHeaviest(d: Labelling, m: seq<int>)
    requires Settled(d, m, |m|)
    ensures Permutation(m, |m|) && Heaviest(d.w, m)
  {
    FullCoverIsPermutation(m);
    forall j | 0 <= j < |m| ensures d.Tight(m[j], j) {
      assert m[j] != -1;
    }
    TightIsHeaviest(d, m);
  }

  /** The initial labels: row maxima (but no less than the lowest label) and zeros. */
  lemma InitiallySettled(d: Labelling, m: seq<int>)
    requires d.Shape(|m|) && forall v :: 0 <= v < |m| ==> m[v] == -1 && d.ly[v] == 0
    requires Untouched(d, 0)
    ensures Settled(d, m, 0)
  {
  }

  /** All weights lie in one interval that is safe. */
  ghost predicate Narrow(w: Matrix) {
    exists lo, hi :: Within(w, lo, hi) && Safe(lo, hi)
  }

  predicate Within(w: Matrix, lo: int, hi: int) {
    forall i, j :: 0 <= i < |w| && 0 <= j < |w[i]| ==> lo <= w[i][j] <= hi
  }

  /** No int overflows with ints from lo to hi as weights: left labels reach from lo to the greater of hi
      and the lowest label, right labels from 0 to hi - lo, and neither a sum of two labels nor a slack
      exceeds an int. */
  predicate Safe(lo: int, hi: int) {
    && INT_MIN <= lo <= hi
    && Highest(hi) + (hi - lo) <= INT_MAX
    && Highest(hi) + (hi - lo) - lo <= INT_MAX
  }

  /** The highest label that a left vertex can start with. */
  function Highest(hi: int): int {
    if hi < LOWEST_LABEL then LOWEST_LABEL else hi
  }

  /** What that comes to for weights that are not negative, and for intervals around zero. */
  lemma SafeForms(lo: int, hi: int)
    requires lo <= hi
    ensures 0 <= lo ==> (Safe(lo, hi) <==> 2 * hi - lo <= INT_MAX)
    ensures lo <= 0 <= hi ==> (Safe(lo, hi) <==> hi - lo <= 0x3FFF_FFFF) && (Safe(lo, hi) <==> Safe(-hi, -lo))
  {
  }

  ghost predicate Ints(w: Matrix) {
    forall i, j :: 0 <= i < |w| && 0 <= j < |w[i]| ==> IsInt(w[i][j])
  }

  lemma NarrowInts(w: Matrix)
    requires Narrow(w)
    ensures Ints(w)
  {
  }

  /** The slack of (i, j), as a term of its own. */
  ghost function Slack(d: Labelling, i: int, j: int): int
    requires d.Shape(|d.w|) && 0 <= i < |d.w| && 0 <= j < |d.w|
  {
    d.lx[i] + d.ly[j] - d.w[i][j]
  }

  /** All that a relabelling computes from these labels fits in an int. */
  ghost predicate SlacksFit(d: Labelling)
    requires d.Shape(|d.w|)
  {
    d.SumsFit() && forall i, j :: 0 <= i < |d.w| && 0 <= j < |d.w| ==> IsInt(Slack(d, i, j))
  }

  ghost predicate LabelsFit(d: Labelling) {
    (forall i :: 0 <= i < |d.lx| ==> IsInt(d.lx[i])) && (forall j :: 0 <= j < |d.ly| ==> IsInt(d.ly[j]))
  }

  ghost predicate NoHigher(s: seq<int>, t: seq<int>) {
    |s| == |t| && forall i :: 0 <= i < |s| ==> s[i] <= t[i]
  }

  /** dx is the slack of some pair from a to the complement of b. */
  ghost predicate Attained(d: Labelling, a: set<int>, b: set<int>, dx: int)
    requires d.Shape(|d.w|)
  {
    exists i, j :: i in a && 0 <= i < |d.w| && 0 <= j < |d.w| && j !in b && dx == Slack(d, i, j)
  }

  /** While a right vertex is free, weights from lo to hi bound all labels. */
  lemma LabelBounds(d: Labelling, m: seq<int>, u: nat, lo: int, hi: int)
    requires Settled(d, m, u) && u < |m| && Within(d.w, lo, hi)
    ensures forall i :: 0 <= i < |m| ==> lo <= d.lx[i] <= Highest(hi)
    ensures forall j :: 0 <= j < |m| ==> 0 <= d.ly[j] <= hi - lo
  {
    hide Cover, Range, Partial;
    var v0 := FreeRightVertex(m, u);
    forall i | 0 <= i < |m| ensures lo <= d.lx[i] <= Highest(hi) {
      assert d.lx[i] + d.ly[v0] >= d.w[i][v0];
      assert d.lx[i] <= StartLabel(d.w[i]);
    }
    forall j | 0 <= j < |m| ensures 0 <= d.ly[j] <= hi - lo {
      assert lo <= d.w[0][0] <= hi;
      if m[j] != -1 { LabelOfMatched(d, m, u, j, lo, hi); }
    }
  }

  lemma LabelOfMatched(d: Labelling, m: seq<int>, u: nat, j: int, lo: int, hi: int)
    requires Settled(d, m, u) && 0 <= j < |m| && m[j] != -1 && Within(d.w, lo, hi)
    requires forall i :: 0 <= i < |m| ==> lo <= d.lx[i]
    ensures d.ly[j] <= hi - lo
  {
    assert d.Tight(m[j], j);
  }

  /** So with narrow weights no label, sum or slack leaves 32 bits. Unless all weights are below the
      lowest label, no slack reaches the initial value of dx. */
  lemma NarrowFits(d: Labelling, m: seq<int>, u: nat)
    requires Settled(d, m, u) && u < |m| && Narrow(d.w)
    ensures SlacksFit(d)
    ensures LabelsFit(d)
    ensures forall i, j :: 0 <= i < |m| && 0 <= j < |m| ==> 0 <= Slack(d, i, j)
    ensures SomeHigh(d.w) ==> forall i, j :: 0 <= i < |m| && 0 <= j < |m| ==> Slack(d, i, j) < INT_MAX
  {
    hide Cover, Range, Partial, MatchedTight, StartLabel;
    var lo, hi :| Within(d.w, lo, hi) && Safe(lo, hi);
    LabelBounds(d, m, u, lo, hi);
  }

  /** Some weight is at least the lowest label. */
  ghost predicate SomeHigh(w: Matrix) {
    exists i, j :: 0 <= i < |w| && 0 <= j < |w[i]| && LOWEST_LABEL <= w[i][j]
  }

  /** Every closed pair containing u has at least k right vertices. */
  ghost predicate TreesAtLeast(d: Labelling, m: seq<int>, u: int, k: int)
    requires d.Shape(|m|)
  {
    forall a, b :: Closed(d, m, a, b) && u in a ==> k <= |b|
  }

  /** A relabelling by an attained slack makes every later tree larger. */
  lemma TreesGrow(d: Labelling, d': Labelling, m: seq<int>, u: nat, a: set<int>, b: set<int>, dx: int, k: nat)
    requires d.Shape(|m|) && Partial(m, |m|) && d'.Shape(|m|)
    requires Reachable(d, m, u, a, b) && 0 <= dx && Relabelled(d, d', a, b, dx)
    requires Attained(d, a, b, dx)
    requires TreesAtLeast(d, m, u, k)
    ensures TreesAtLeast(d', m, u, k + 1) && k < |m|
  {
    var i0, j0 :| i0 in a && 0 <= i0 < |m| && 0 <= j0 < |m| && j0 !in b && dx == Slack(d, i0, j0);
    forall a', b' | Closed(d', m, a', b') && u in a' ensures k + 1 <= |b'| {
      TreeGrows(d, d', m, u, a, b, dx, i0, j0, a', b');
      assert b' == b + (b' - b);
    }
    assert b + {j0} <= Range(|m|) && |b + {j0}| == |b| + 1;
    RangeSize(|m|);
    SubsetSize(b + {j0}, Range(|m|));
  }

  /** After a failed search the slacks out of the tree are positive. */
  lemma PositiveSlack(d: Labelling, m: seq<int>, u: nat, a: set<int>, b: set<int>, dx: int)
    requires Settled(d, m, u) && Closed(d, m, a, b) && Attained(d, a, b, dx)
    ensures 1 <= dx
  {
    var i, j :| i in a && 0 <= i < |m| && 0 <= j < |m| && j !in b && dx == Slack(d, i, j);
    assert !d.Tight(i, j);
  }

  /** The slacks that a relabelling looks at are ints. */
  ghost predicate SlacksAreInts(d: Labelling, a: set<int>, b: set<int>)
    requires d.Shape(|d.w|)
  {
    forall i, j :: i in a && 0 <= i < |d.w| && 0 <= j < |d.w| && j !in b ==> IsInt(Slack(d, i, j))
  }

  /** If they are, the least of them is attained: the initial value of dx is no less than any int. */
  lemma LeastSlackAttained(d: Labelling, m: seq<int>, u: nat, a: set<int>, b: set<int>, dx: int)
    requires Settled(d, m, u) && u < |m| && u in a && (forall v :: v in b ==> 0 <= v < |m| && m[v] != -1)
    requires BelowSlack(d, a, b, dx) && (dx == INT_MAX || Attained(d, a, b, dx)) && SlacksAreInts(d, a, b)
    ensures Attained(d, a, b, dx)
  {
    var v := FreeRightVertex(m, u);
    assert dx <= Slack(d, u, v) <= INT_MAX;
  }

  /** With narrow weights, not all below the lowest label, some slack is below the initial value of dx. */
  lemma CappedOnlyIfWide(d: Labelling, m: seq<int>, u: nat, a: set<int>, b: set<int>, dx: int)
    requires Settled(d, m, u) && u < |m| && Narrow(d.w) && SomeHigh(d.w)
    requires u in a && (forall v :: v in b && 0 <= v < |m| ==> m[v] != -1) && BelowSlack(d, a, b, dx)
    ensures dx < 0x7FFF_FFFF
  {
    NarrowFits(d, m, u);
    var v := FreeRightVertex(m, u);
    assert dx <= Slack(d, u, v);
  }

  /** A search from a clean start either ends the phase or has visited exactly what is reachable. */
  lemma SearchOutcome(d: Labelling, u: nat, m: seq<int>, a: set<int>, b: set<int>, m': seq<int>, found: bool)
    requires Settled(d, m, u) && u < |m| && a <= Range(|m|) && b <= Range(|m|)
    requires Searched(d, u, {}, {}, m, a, b, m', found)
    ensures found ==> Settled(d, m', u + 1)
    ensures !found ==> m' == m && Reachable(d, m, u, a, b) && forall v :: v in b ==> m[v] != -1
  {
    assert Range(|m|) - {} == Range(|m|);
    if found {
      PhaseEnds(d, m, m', u);
    } else {
      FailedSearch(d, m, u, a, b);
    }
  }

  /** The label change after a failed search, as a whole: dx is the capped minimal slack. */
  lemma AdjustSettles(d: Labelling, d': Labelling, m: seq<int>, u: nat, a: set<int>, b: set<int>, dx: int)
    requires Settled(d, m, u) && u < |m| && Reachable(d, m, u, a, b)
    requires forall v :: v in b ==> 0 <= v < |m| && m[v] != -1
    requires BelowSlack(d, a, b, dx) && (dx == INT_MAX || Attained(d, a, b, dx))
    requires Relabelled(d, d', a, b, dx)
    ensures Settled(d', m, u) && d'.Dual() < d.Dual() && NoHigher(d'.lx, d.lx)
    ensures Untouched(d, u + 1) ==> Untouched(d', u + 1)
    ensures Narrow(d.w) ==> SlacksFit(d) && LabelsFit(d') && (SomeHigh(d.w) ==> dx < INT_MAX)
  {
    hide Untouched;
    if Attained(d, a, b, dx) { PositiveSlack(d, m, u, a, b, dx); }
    RelabelSettles(d, d', m, u, a, b, dx);
    if Narrow(d.w) {
      NarrowFits(d, m, u);
      NarrowFits(d', m, u);
      if SomeHigh(d.w) { CappedOnlyIfWide(d, m, u, a, b, dx); }
    }
  }

  /** As long as all slacks are ints it makes the next tree larger, so it happens at most n times. */
  lemma AdjustGrows(d: Labelling, d': Labelling, m: seq<int>, u: nat, a: set<int>, b: set<int>, dx: int, k: nat)
    requires Settled(d, m, u) && u < |m| && Reachable(d, m, u, a, b) && d'.Shape(|m|)
    requires forall v :: v in b ==> 0 <= v < |m| && m[v] != -1
    requires BelowSlack(d, a, b, dx) && (dx == INT_MAX || Attained(d, a, b, dx)) && SlacksAreInts(d, a, b)
    requires Relabelled(d, d', a, b, dx) && TreesAtLeast(d, m, u, k)
    ensures k < |m| && TreesAtLeast(d', m, u, k + 1)
  {
    LeastSlackAttained(d, m, u, a, b, dx);
    PositiveSlack(d, m, u, a, b, dx);
    TreesGrow(d, d', m, u, a, b, dx, k);
  }

  // ----- no other interval is safe --------------------------------------------------------------

  /** What a run without overflow gets through in phase u: the first sum that the search compares with
      a weight is an int, and so are the slacks looked at if the first search does not end the phase. */
  ghost predicate Passed(w: Matrix, u: nat) {
    exists d, m :: AtPhase(w, d, m, u) && d.SumFits(u, 0) && (Ends(d, u) || LooksFit(d, m, u))
  }

  ghost predicate AtPhase(w: Matrix, d: Labelling, m: seq<int>, u: nat) {
    d.w == w && u < |m| && Settled(d, m, u) && Untouched(d, u)
  }

  /** The phase ends without a relabelling. */
  ghost predicate Ends(d: Labelling, u: nat) {
    exists m :: |m| == |d.w| && Settled(d, m, u + 1)
  }

  ghost predicate LooksFit(d: Labelling, m: seq<int>, u: nat)
    requires d.Shape(|m|)
  {
    exists a, b :: Reachable(d, m, u, a, b) && SlacksAreInts(d, a, b)
  }

  lemma PhaseBegins(w: Matrix, d: Labelling, m: seq<int>, u: nat)
    requires AtPhase(w, d, m, u)
    ensures Settled(d, m, u) && Untouched(d, u + 1) && TreesAtLeast(d, m, u, 0)
    ensures IsSquare(w, |m|) && Permutation(Identity(|m|), |m|) && Total(w, Identity(|m|)) <= d.Dual()
  {
    DualBound(d, Identity(|m|));
  }

  lemma DualAtLeast(d: Labelling, m: seq<int>, u: nat)
    requires Settled(d, m, u)
    ensures IsSquare(d.w, |m|) && Permutation(Identity(|m|), |m|) && Total(d.w, Identity(|m|)) <= d.Dual()
  {
    DualBound(d, Identity(|m|));
  }

  lemma PassedByEnding(w: Matrix, d: Labelling, m: seq<int>, m': seq<int>, u: nat)
    requires AtPhase(w, d, m, u) && d.SumFits(u, 0) && |m'| == |m| && Settled(d, m', u + 1)
    ensures Passed(w, u)
  {
    assert Ends(d, u);
  }

  lemma PassedByLooking(w: Matrix, d: Labelling, m: seq<int>, u: nat, a: set<int>, b: set<int>)
    requires AtPhase(w, d, m, u) && d.SumFits(u, 0) && Reachable(d, m, u, a, b) && SlacksAreInts(d, a, b)
    ensures Passed(w, u)
  {
    assert LooksFit(d, m, u);
  }

  /** Four vertices on each side; two want right vertex 0, two right vertex 2. */
  ghost function WideWeights(lo: int, hi: int): (w: Matrix)
    requires lo <= hi
    ensures IsSquare(w, 4) && Within(w, lo, hi)
    ensures forall i, v :: 0 <= i < 4 && 0 <= v < 4 ==> w[i][v] == if v == (if i < 2 then 0 else 2) then hi else lo
  {
    [[hi, lo, lo, lo], [hi, lo, lo, lo], [lo, lo, hi, lo], [lo, lo, hi, lo]]
  }

  /** If an interval is not safe, no run gets through these weights from its ends: however the first
      phases went, either the first sum of the third phase or a slack in the fourth one is too large. */
  lemma WideOverflows(lo: int, hi: int)
    requires IsInt(lo) && IsInt(hi) && lo <= hi && !Safe(lo, hi)
    ensures !Passed(WideWeights(lo, hi), 2) || !Passed(WideWeights(lo, hi), 3)
  {
    hide WideWeights, Partial, Cover, MatchedTight, Reachable, StartLabel, Untouched, Range;
    var w := WideWeights(lo, hi);
    if Highest(hi) + (hi - lo) > INT_MAX {
      forall d, m | AtPhase(w, d, m, 2) ensures !d.SumFits(2, 0) {
        WideLabels(lo, hi, d, m, 2);
      }
    } else {
      forall d, m | AtPhase(w, d, m, 3) ensures !Ends(d, 3) && !LooksFit(d, m, 3) {
        WideLabels(lo, hi, d, m, 3);
        WideNeverEnds(lo, hi, d);
        forall a, b | Reachable(d, m, 3, a, b) ensures !SlacksAreInts(d, a, b) {
          WideLooks(lo, hi, d, m, a, b);
          assert !IsInt(Slack(d, 3, 0));
        }
      }
    }
  }

  /** The right vertex of a left vertex whose phase is over. */
  lemma PartnerOf(d: Labelling, m: seq<int>, u: nat, i: nat) returns (v: int)
    requires Settled(d, m, u) && i < u
    ensures 0 <= v < |m| && m[v] == i && 0 <= i < |m| && d.Tight(i, v)
  {
    assert i in Range(u);
    v :| v in Range(|m|) && 0 <= v < |m| && m[v] != -1 && m[v] == i;
  }

  /** One of the left vertices 0 and 1 is not matched with right vertex 0, which the other wants too. */
  lemma WideLabels(lo: int, hi: int, d: Labelling, m: seq<int>, u: nat)
    requires lo < hi && 2 <= u < 4 && AtPhase(WideWeights(lo, hi), d, m, u)
    ensures d.lx[u] == Highest(hi) && hi - lo <= d.ly[0]
  {
    hide WideWeights, Cover, Range;
    var w := WideWeights(lo, hi);
    assert w[u][2] == hi && forall x :: x in w[u] ==> x <= hi;
    var v0 := PartnerOf(d, m, u, 0);
    var v1 := PartnerOf(d, m, u, 1);
    var i: int, v: int := if v0 != 0 then 0 else 1, if v0 != 0 then v0 else v1;
    assert d.Tight(i, v) && w[i][v] == lo && w[i][0] == hi;
    assert d.lx[i] + d.ly[0] >= w[i][0];
  }

  /** Left vertex 3, with its first label, can only have right vertex 2, and then left vertex 2 none. */
  lemma WideNeverEnds(lo: int, hi: int, d: Labelling)
    requires lo < hi && d.w == WideWeights(lo, hi) && d.Shape(4) && d.lx[3] == Highest(hi)
    ensures !Ends(d, 3)
  {
    hide WideWeights, Cover, Range, Partial, MatchedTight, StartLabel;
    forall m | |m| == 4 ensures !Settled(d, m, 4) {
      if Settled(d, m, 4) {
        var v2 := PartnerOf(d, m, 4, 2);
        var v3 := PartnerOf(d, m, 4, 3);
        assert false;
      }
    }
  }

  /** With its first label left vertex 3 is tight with right vertex 2 at most, if that has label 0. */
  lemma WideTight(lo: int, hi: int, d: Labelling, v: int)
    requires lo < hi && d.w == WideWeights(lo, hi) && d.Shape(4) && d.lx[3] == Highest(hi)
    requires 0 <= v < 4 && d.ly[v] >= 0 && d.Tight(3, v)
    ensures v == 2 && d.ly[2] == 0
  {
    hide WideWeights;
    assert d.w[3][v] == if v == 2 then hi else lo;
  }

  /** The first search from left vertex 3 does not come to right vertex 0. */
  lemma WideLooks(lo: int, hi: int, d: Labelling, m: seq<int>, a: set<int>, b: set<int>)
    requires lo < hi && AtPhase(WideWeights(lo, hi), d, m, 3) && d.lx[3] == Highest(hi)
    requires Reachable(d, m, 3, a, b)
    ensures 3 in a && 0 !in b
  {
    hide WideWeights, Cover, Range, StartLabel, Untouched;
    forall v | 0 <= v < 4 && d.Tight(3, v) ensures v == 2 && d.ly[2] == 0 {
      WideTight(lo, hi, d, v);
    }
    if d.ly[2] == 0 {
      var v2 := PartnerOf(d, m, 3, 2);
      assert d.lx[2] + d.ly[2] >= d.w[2][2] == hi;
      forall v | 0 <= v < 4 && d.Tight(2, v) ensures v == 2 {
        assert d.w[2][v] == if v == 2 then hi else lo;
      }
      assert Closed(d, m, {2, 3}, {2});
    } else {
      assert Closed(d, m, {3}, {});
    }
  }

  /** The identity permutation. */
  ghost function Identity(n: nat): seq<int> {
    seq(n, i => i)
  }

  // ----- 32-bit integers ----------------------------------------------------------------------

  const INT_MIN := -0x8000_0000
  const INT_MAX := 0x7FFF_FFFF

  predicate IsInt(x: int) {
    INT_MIN <= x <= INT_MAX
  }

  /** Two's complement wrap-around of a 32-bit int. */
  function Wrap(x: int): int {
    (x + 0x8000_0000) % 0x1_0000_0000 - 0x8000_0000
  }

  /** Wrapping after every addition gives the wrap of the exact sum, and the wrapped value is the
      exact one just when that fits. */
  lemma WrapOfSum(x: int, y: int)
    ensures Wrap(Wrap(x) + y) == Wrap(x + y)
    ensures Wrap(-Wrap(x)) == Wrap(-x)
    ensures Wrap(x) == x <==> IsInt(x)
    ensures -0x8000_0000 <= Wrap(x) <= 0x7FFF_FFFF && (x - Wrap(x)) % 0x1_0000_0000 == 0
  {
    var q := (x + 0x8000_0000) / 0x1_0000_0000;
    assert Wrap(x) == x - q * 0x1_0000_0000;
    ModShift(x + y + 0x8000_0000, -q);
    ModShift(-x + 0x8000_0000, q);
  }

  lemma ModShift(a: int, k: int)
    ensures (a + k * 0x1_0000_0000) % 0x1_0000_0000 == a % 0x1_0000_0000
  {
    var r := a % 0x1_0000_0000;
    var t := a / 0x1_0000_0000;
    assert a + k * 0x1_0000_0000 == (t + k) * 0x1_0000_0000 + r;
  }
}
