/** Lloyd's k-means iterations over the reals. */
module Lloyd {
  import opened Common

  type Point = seq<real>

  // ----- sums ---------------------------------------------------------------------------------

  /** The squared distance over the first d coordinates. */
  ghost function SqDistTo(x: Point, y: Point, d: nat): (r: real)
    requires d <= |x| && d <= |y|
    ensures r >= 0.0
  {
    if d == 0 then 0.0 else SqDistTo(x, y, d - 1) + Square(x[d - 1] - y[d - 1])
  }

  /** The inner product over the first d coordinates. */
  function DotTo(x: Point, y: Point, d: nat): real
    requires d <= |x| && d <= |y|
  {
    if d == 0 then 0.0 else DotTo(x, y, d - 1) + x[d - 1] * y[d - 1]
  }

  ghost predicate Matrix(rows: seq<Point>, dim: nat) {
    forall i :: 0 <= i < |rows| ==> |rows[i]| == dim
  }

  /** a assigns one of k centres to every point. */
  ghost predicate Assigns(a: seq<nat>, n: nat, k: nat) {
    |a| == n && forall i :: 0 <= i < n ==> a[i] < k
  }

  /** The sum of the squared distances of the first n points from their centres. */
  ghost function CostTo(data: seq<Point>, centers: seq<Point>, a: seq<nat>, dim: nat, n: nat): (r: real)
    requires Matrix(data, dim) && Matrix(centers, dim) && Assigns(a, |data|, |centers|) && n <= |data|
    ensures r >= 0.0
  {
    if n == 0 then 0.0 else CostTo(data, centers, a, dim, n - 1) + SqDistTo(data[n - 1], centers[a[n - 1]], dim)
  }

  ghost function Cost(data: seq<Point>, centers: seq<Point>, a: seq<nat>, dim: nat): (r: real)
    requires Matrix(data, dim) && Matrix(centers, dim) && Assigns(a, |data|, |centers|)
    ensures r >= 0.0
  {
    CostTo(data, centers, a, dim, |data|)
  }

  // ----- the distance by norms ----------------------------------------------------------------

  /** |x - y|^2 = |x|^2 + |y|^2 - 2 x.y */
  lemma {:induction false} NormExpansion(x: Point, y: Point, d: nat)
    requires d <= |x| && d <= |y|
    ensures DotTo(x, x, d) + DotTo(y, y, d) - 2.0 * DotTo(x, y, d) == SqDistTo(x, y, d)
  {
    if d > 0 {
      NormExpansion(x, y, d - 1);
      Binomial(x[d - 1], y[d - 1]);
    }
  }

  lemma Binomial(a: real, b: real)
    ensures Square(a - b) == a * a + b * b - 2.0 * (a * b)
  {
  }

  // ----- the mean is the best centre ----------------------------------------------------------

  ghost function ColumnSum(data: seq<Point>, list: seq<nat>, j: nat): real
    requires forall i :: 0 <= i < |list| ==> list[i] < |data| && j < |data[list[i]]|
  {
    if list == [] then 0.0 else ColumnSum(data, list[..|list| - 1], j) + data[list[|list| - 1]][j]
  }

  /** The squared deviations of one coordinate from v. */
  ghost function Deviation(data: seq<Point>, list: seq<nat>, j: nat, v: real): real
    requires forall i :: 0 <= i < |list| ==> list[i] < |data| && j < |data[list[i]]|
  {
    if list == [] then 0.0 else Deviation(data, list[..|list| - 1], j, v) + Square(data[list[|list| - 1]][j] - v)
  }

  ghost function ListCost(data: seq<Point>, list: seq<nat>, center: Point, d: nat): real
    requires forall i :: 0 <= i < |list| ==> list[i] < |data| && d <= |data[list[i]]|
    requires d <= |center|
  {
    if list == [] then 0.0
    else ListCost(data, list[..|list| - 1], center, d) + SqDistTo(data[list[|list| - 1]], center, d)
  }

  /** What moving the reference point of m values with sum s from u to v adds to their deviation. */
  function Gain(u: real, v: real, s: real, m: real): real {
    (u - v) * (2.0 * s - m * (u + v))
  }

  /** Moving the reference point changes the deviation by a parabola with its minimum at the mean. */
  lemma {:induction false} DeviationShift(data: seq<Point>, list: seq<nat>, j: nat, u: real, v: real)
    requires forall i :: 0 <= i < |list| ==> list[i] < |data| && j < |data[list[i]]|
    ensures Deviation(data, list, j, v) - Deviation(data, list, j, u)
              == Gain(u, v, ColumnSum(data, list, j), |list| as real)
  {
    hide Gain, Square;
    if list != [] {
      var m := |list| - 1;
      DeviationShift(data, list[..m], j, u, v);
      GainStep(data[list[m]][j], u, v, ColumnSum(data, list[..m], j), m as real);
    } else {
      NoGain(u, v);
    }
  }

  lemma NoGain(u: real, v: real)
    ensures Gain(u, v, 0.0, 0.0) == 0.0
  {
  }

  lemma GainStep(x: real, u: real, v: real, s: real, m: real)
    ensures Gain(u, v, s, m) + Square(x - v) - Square(x - u) == Gain(u, v, s + x, m + 1.0)
  {
    var a, b := u - v, u + v;
    assert Square(x - v) - Square(x - u) == a * (2.0 * x - b);
    assert (m + 1.0) * b == m * b + b;
    assert a * (2.0 * s - m * b) + a * (2.0 * x - b) == a * (2.0 * s - m * b + 2.0 * x - b);
  }

  lemma MeanIsBest(data: seq<Point>, list: seq<nat>, j: nat, mean: real, v: real)
    requires list != [] && forall i :: 0 <= i < |list| ==> list[i] < |data| && j < |data[list[i]]|
    requires mean == ColumnSum(data, list, j) / |list| as real
    ensures Deviation(data, list, j, mean) <= Deviation(data, list, j, v)
  {
    hide Gain, Deviation, ColumnSum;
    DeviationShift(data, list, j, mean, v);
    Parabola(|list| as real, mean, v, ColumnSum(data, list, j));
  }

  lemma Parabola(n: real, mean: real, v: real, s: real)
    requires n > 0.0 && mean == s / n
    ensures Gain(mean, v, s, n) >= 0.0
  {
    assert s == n * mean;
    assert 2.0 * s - n * (mean + v) == n * (mean - v);
    assert (mean - v) * (n * (mean - v)) == n * Square(mean - v);
    Nonnegative(n, Square(mean - v));
  }

  lemma Nonnegative(a: real, b: real)
    requires a >= 0.0 && b >= 0.0
    ensures a * b >= 0.0
  {
  }

  lemma {:induction false} ListCostByColumn(data: seq<Point>, list: seq<nat>, center: Point, d: nat)
    requires 0 < d <= |center| && forall i :: 0 <= i < |list| ==> list[i] < |data| && d <= |data[list[i]]|
    ensures ListCost(data, list, center, d)
         == ListCost(data, list, center, d - 1) + Deviation(data, list, d - 1, center[d - 1])
  {
    if list != [] {
      ListCostByColumn(data, list[..|list| - 1], center, d);
    }
  }

  /** center is the mean of the listed points. */
  ghost predicate IsMean(data: seq<Point>, list: seq<nat>, center: Point)
    requires forall i :: 0 <= i < |list| ==> list[i] < |data| && |center| <= |data[list[i]]|
  {
    list != [] && forall j :: 0 <= j < |center| ==> center[j] == ColumnSum(data, list, j) / |list| as real
  }

  /** No centre is better for a list of points than their mean. */
  lemma {:induction false} MeanBeats(data: seq<Point>, list: seq<nat>, mean: Point, center: Point, d: nat)
    requires d <= |mean| == |center| && forall i :: 0 <= i < |list| ==> list[i] < |data| && |mean| <= |data[list[i]]|
    requires IsMean(data, list, mean)
    ensures ListCost(data, list, mean, d) <= ListCost(data, list, center, d)
  {
    if d > 0 {
      MeanBeats(data, list, mean, center, d - 1);
      ListCostByColumn(data, list, mean, d);
      ListCostByColumn(data, list, center, d);
      MeanIsBest(data, list, d - 1, mean[d - 1], center[d - 1]);
    } else {
      NoCoordinates(data, list, mean);
      NoCoordinates(data, list, center);
    }
  }

  lemma {:induction false} NoCoordinates(data: seq<Point>, list: seq<nat>, center: Point)
    requires forall i :: 0 <= i < |list| ==> list[i] < |data|
    ensures ListCost(data, list, center, 0) == 0.0
  {
    if list != [] {
      NoCoordinates(data, list[..|list| - 1], center);
    }
  }

  // ----- one centre at a time -----------------------------------------------------------------

  /** Replacing centre c changes the cost by what its members' cost changes. */
  lemma {:induction false} ReplaceCenter(data: seq<Point>, centers: seq<Point>, a: seq<nat>, dim: nat, c: nat,
                                         center: Point, n: nat)
    requires Matrix(data, dim) && Matrix(centers, dim) && Assigns(a, |data|, |centers|) && n <= |data|
    requires c < |centers| && |center| == dim
    ensures var list := Members(a, c, n);
            CostTo(data, centers[c := center], a, dim, n) - CostTo(data, centers, a, dim, n)
            == ListCost(data, list, center, dim) - ListCost(data, list, centers[c], dim)
  {
    hide SqDistTo, Members, ListCost, CostTo;
    var after := centers[c := center];
    CostNext(data, centers, a, dim, n);
    CostNext(data, after, a, dim, n);
    MembersCost(data, a, c, n, center, dim);
    MembersCost(data, a, c, n, centers[c], dim);
    if n > 0 {
      ReplaceCenter(data, centers, a, dim, c, center, n - 1);
      assert after[a[n - 1]] == if a[n - 1] == c then center else centers[a[n - 1]];
    }
  }

  /** The members of centre c cost what those before the last point cost, and the last point if it is one. */
  lemma MembersCost(data: seq<Point>, a: seq<nat>, c: nat, n: nat, center: Point, dim: nat)
    requires Matrix(data, dim) && |a| == |data| && n <= |data| && |center| == dim
    ensures n == 0 ==> ListCost(data, Members(a, c, n), center, dim) == 0.0
    ensures n > 0 ==> ListCost(data, Members(a, c, n), center, dim)
                      == ListCost(data, Members(a, c, n - 1), center, dim)
                         + if a[n - 1] == c then SqDistTo(data[n - 1], center, dim) else 0.0
  {
    hide SqDistTo, Members, ListCost;
    MembersNext(a, c, n);
    if n == 0 {
      ListCostNone(data, center, dim);
    } else if a[n - 1] == c {
      ListCostSnoc(data, Members(a, c, n - 1), n - 1, center, dim);
    }
  }

  lemma CostNext(data: seq<Point>, centers: seq<Point>, a: seq<nat>, dim: nat, n: nat)
    requires Matrix(data, dim) && Matrix(centers, dim) && Assigns(a, |data|, |centers|) && n <= |data|
    ensures n == 0 ==> CostTo(data, centers, a, dim, n) == 0.0
    ensures n > 0 ==> CostTo(data, centers, a, dim, n)
                      == CostTo(data, centers, a, dim, n - 1) + SqDistTo(data[n - 1], centers[a[n - 1]], dim)
  {
  }

  lemma ListCostNone(data: seq<Point>, center: Point, d: nat)
    requires d <= |center|
    ensures ListCost(data, [], center, d) == 0.0
  {
  }

  lemma ListCostSnoc(data: seq<Point>, list: seq<nat>, i: nat, center: Point, d: nat)
    requires forall k :: 0 <= k < |list| ==> list[k] < |data| && d <= |data[list[k]]|
    requires i < |data| && d <= |data[i]| && d <= |center|
    ensures ListCost(data, list + [i], center, d) == ListCost(data, list, center, d) + SqDistTo(data[i], center, d)
  {
    hide SqDistTo;
    assert (list + [i])[..|list|] == list;
  }

  /** The first k centres were replaced by the means of their members, or by zero where there are none. */
  ghost predicate Updated(data: seq<Point>, before: seq<Point>, after: seq<Point>, a: seq<nat>, dim: nat, k: nat)
    requires Matrix(data, dim) && |a| == |data|
  {
    && k <= |before| == |after| && Matrix(before, dim) && Matrix(after, dim)
    && (forall c :: k <= c < |before| ==> after[c] == before[c])
    && (forall c :: 0 <= c < k && Members(a, c, |a|) != [] ==> IsMean(data, Members(a, c, |a|), after[c]))
    && (forall c, j :: 0 <= c < k && Members(a, c, |a|) == [] && 0 <= j < dim ==> after[c][j] == 0.0)
  }

  /** Replacing centres by means never raises the cost; centres without members do not matter. */
  lemma {:induction false} UpdateLowersCost(data: seq<Point>, before: seq<Point>, after: seq<Point>, a: seq<nat>,
                                            dim: nat, k: nat)
    requires Matrix(data, dim) && Assigns(a, |data|, |before|) && Updated(data, before, after, a, dim, k)
    ensures Cost(data, after, a, dim) <= Cost(data, before, a, dim)
    decreases k
  {
    if k == 0 {
      assert after == before;
    } else {
      var c := k - 1;
      var mid := after[c := before[c]];
      UpdateLowersCost(data, before, mid, a, dim, c);
      assert mid[c := after[c]] == after;
      ReplaceCenter(data, mid, a, dim, c, after[c], |data|);
      var list := Members(a, c, |a|);
      if list != [] {
        MeanBeats(data, list, after[c], before[c], dim);
      }
    }
  }

  // ----- the nearest centres ------------------------------------------------------------------

  ghost predicate Nearest(data: seq<Point>, centers: seq<Point>, a: seq<nat>, dim: nat)
    requires Matrix(data, dim) && Matrix(centers, dim) && Assigns(a, |data|, |centers|)
  {
    forall i, c :: 0 <= i < |data| && 0 <= c < |centers| ==>
      SqDistTo(data[i], centers[a[i]], dim) <= SqDistTo(data[i], centers[c], dim)
  }

  /** Assigning every point to its nearest centre is the cheapest assignment. */
  lemma {:induction false} NearestIsCheapest(data: seq<Point>, centers: seq<Point>, a: seq<nat>, b: seq<nat>,
                                             dim: nat, n: nat)
    requires Matrix(data, dim) && Matrix(centers, dim) && Assigns(a, |data|, |centers|) && Assigns(b, |data|, |centers|)
    requires Nearest(data, centers, a, dim) && n <= |data|
    ensures CostTo(data, centers, a, dim, n) <= CostTo(data, centers, b, dim, n)
  {
    if n > 0 {
      NearestIsCheapest(data, centers, a, b, dim, n - 1);
    }
  }

  // ----- the algorithms -----------------------------------------------------------------------

  const CHUNK_SIZE := 16384

  /** The squared distance of two vectors. */
  method CalcDistance(x: Point, y: Point, dim: nat) returns (dist: real)
    requires dim <= |x| && dim <= |y|
    ensures dist == SqDistTo(x, y, dim)
  {
    dist := 0.0;
    for j := 0 to dim
      invariant dist == SqDistTo(x, y, j)
    {
      dist := dist + (x[j] - y[j]) * (x[j] - y[j]);
    }
  }

  /** The squared norm of every row. */
  method ComputeVecsL2sq(rows: seq<Point>, dim: nat) returns (norms: seq<real>)
    requires Matrix(rows, dim)
    ensures |norms| == |rows| && forall i :: 0 <= i < |rows| ==> norms[i] == DotTo(rows[i], rows[i], dim)
  {
    norms := [];
    for i := 0 to |rows|
      invariant |norms| == i && forall k :: 0 <= k < i ==> norms[k] == DotTo(rows[k], rows[k], dim)
    {
      norms := norms + [DotTo(rows[i], rows[i], dim)];
    }
  }

  /** One row of the distance matrix: the squared distances of a point from all centres, by norms. */
  method DistanceRow(x: Point, norm: real, centers: seq<Point>, centerNorms: seq<real>,
                     dim: nat) returns (row: seq<real>)
    requires |x| == dim && Matrix(centers, dim) && |centerNorms| == |centers| && norm == DotTo(x, x, dim)
    requires forall c :: 0 <= c < |centers| ==> centerNorms[c] == DotTo(centers[c], centers[c], dim)
    ensures |row| == |centers| && forall c :: 0 <= c < |centers| ==> row[c] == SqDistTo(x, centers[c], dim)
  {
    row := [];
    for c := 0 to |centers|
      invariant |row| == c && forall k :: 0 <= k < c ==> row[k] == SqDistTo(x, centers[k], dim)
    {
      NormExpansion(x, centers[c], dim);
      row := row + [norm + centerNorms[c] - 2.0 * DotTo(x, centers[c], dim)];
    }
  }

  /** The first least entry of a row of distances below the largest float. */
  method ClosestInRow(row: seq<real>, maxFloat: real) returns (closest: nat)
    requires row != [] && forall c :: 0 <= c < |row| ==> row[c] < maxFloat
    ensures closest < |row| && (forall c :: 0 <= c < |row| ==> row[closest] <= row[c])
    ensures forall c :: 0 <= c < closest ==> row[closest] < row[c]
  {
    var min := maxFloat;
    closest := 0;
    for j := 0 to |row|
      invariant closest < |row| && (j > 0 ==> closest < j) && (j == 0 ==> min == maxFloat && closest == 0)
      invariant j > 0 ==> min == row[closest] && forall c :: 0 <= c < j ==> row[closest] <= row[c]
      invariant forall c :: 0 <= c < closest ==> row[closest] < row[c]
    {
      if row[j] < min {
        closest := j;
        min := row[j];
      }
    }
  }

  /** Of equally near centres the first is taken. */
  ghost predicate First(data: seq<Point>, centers: seq<Point>, a: seq<nat>, dim: nat)
    requires Matrix(data, dim) && Matrix(centers, dim) && Assigns(a, |data|, |centers|)
  {
    forall i, c :: 0 <= i < |data| && 0 <= c < a[i] ==>
      SqDistTo(data[i], centers[a[i]], dim) < SqDistTo(data[i], centers[c], dim)
  }

  /** Distances are floats: below the largest one. */
  ghost predicate Bounded(data: seq<Point>, centers: seq<Point>, dim: nat, maxFloat: real)
    requires Matrix(data, dim) && Matrix(centers, dim)
  {
    forall i, c :: 0 <= i < |data| && 0 <= c < |centers| ==> SqDistTo(data[i], centers[c], dim) < maxFloat
  }

  /** The nearest centre of every point. */
  method ComputeClosestCentersInBlock(data: seq<Point>, centers: seq<Point>, dim: nat, docsNorm: seq<real>,
                                      centerNorms: seq<real>, maxFloat: real) returns (closest: seq<nat>)
    requires Matrix(data, dim) && Matrix(centers, dim) && centers != [] && Bounded(data, centers, dim, maxFloat)
    requires |docsNorm| == |data| && forall i :: 0 <= i < |data| ==> docsNorm[i] == DotTo(data[i], data[i], dim)
    requires |centerNorms| == |centers|
    requires forall c :: 0 <= c < |centers| ==> centerNorms[c] == DotTo(centers[c], centers[c], dim)
    ensures Assigns(closest, |data|, |centers|) && Nearest(data, centers, closest, dim)
    ensures First(data, centers, closest, dim)
  {
    hide SqDistTo, DotTo;
    closest := [];
    for i := 0 to |data|
      invariant |closest| == i && forall k :: 0 <= k < i ==> closest[k] < |centers|
      invariant forall k, c :: 0 <= k < i && 0 <= c < |centers| ==>
                  SqDistTo(data[k], centers[closest[k]], dim) <= SqDistTo(data[k], centers[c], dim)
      invariant forall k, c :: 0 <= k < i && 0 <= c < closest[k] ==>
                  SqDistTo(data[k], centers[closest[k]], dim) < SqDistTo(data[k], centers[c], dim)
    {
      var row := DistanceRow(data[i], docsNorm[i], centers, centerNorms, dim);
      var nearest := ClosestInRow(row, maxFloat);
      closest := closest + [nearest];
    }
  }

  /** The nearest centres and the inverted index: for every centre its points, in order. */
  method ComputeClosestCenters(data: seq<Point>, centers: seq<Point>, dim: nat, docsNorm: seq<real>, maxFloat: real)
    returns (closest: seq<nat>, inverted: seq<seq<nat>>)
    requires Matrix(data, dim) && Matrix(centers, dim) && centers != [] && Bounded(data, centers, dim, maxFloat)
    requires |docsNorm| == |data| && forall i :: 0 <= i < |data| ==> docsNorm[i] == DotTo(data[i], data[i], dim)
    ensures Assigns(closest, |data|, |centers|) && Nearest(data, centers, closest, dim)
    ensures First(data, centers, closest, dim) && Inverts(inverted, closest, |centers|)
  {
    hide SqDistTo, DotTo, Nearest, First;
    var centerNorms := ComputeVecsL2sq(centers, dim);
    closest := ComputeClosestCentersInBlock(data, centers, dim, docsNorm, centerNorms, maxFloat);
    inverted := seq(|centers|, _ => []);
    for j := 0 to |data|
      invariant |inverted| == |centers| && forall c :: 0 <= c < |centers| ==> inverted[c] == Members(closest, c, j)
    {
      var c := closest[j];
      inverted := inverted[c := inverted[c] + [j]];
    }
  }

  /** docs lists for every centre exactly its points, in order. */
  ghost predicate Inverts(docs: seq<seq<nat>>, a: seq<nat>, k: nat) {
    |docs| == k && forall c :: 0 <= c < k ==> docs[c] == Members(a, c, |a|)
  }

  /** The inverted index is a partition: every point is listed exactly once, under its own centre. */
  lemma {:induction false} MembersPartition(a: seq<nat>, c: nat, n: nat, i: nat)
    requires n <= |a| && i < n
    ensures multiset(Members(a, c, n))[i] == if a[i] == c then 1 else 0
  {
    if i == n - 1 {
      assert i !in Members(a, c, n - 1);
    } else {
      MembersPartition(a, c, n - 1, i);
    }
  }

  /** The mean of the listed points, coordinate by coordinate. */
  method MeanOf(data: seq<Point>, list: seq<nat>, dim: nat) returns (mean: Point)
    requires Matrix(data, dim) && list != [] && forall i :: 0 <= i < |list| ==> list[i] < |data|
    ensures |mean| == dim && IsMean(data, list, mean)
  {
    mean := [];
    for j := 0 to dim
      invariant |mean| == j && forall k :: 0 <= k < j ==> mean[k] == ColumnSum(data, list, k) / |list| as real
    {
      var sum := 0.0;
      for i := 0 to |list|
        invariant sum == ColumnSum(data, list[..i], j)
      {
        assert list[..i + 1][..i] == list[..i];
        sum := sum + data[list[i]][j];
      }
      assert list[..|list|] == list;
      mean := mean + [sum / |list| as real];
    }
  }

  function Zero(dim: nat): (p: Point)
    ensures |p| == dim && forall j :: 0 <= j < dim ==> p[j] == 0.0
  {
    seq(dim, _ => 0.0)
  }

  /** Zeroes all centres, then sets those with members to the members' mean. */
  method UpdateCenters(data: seq<Point>, dim: nat, centers: array<Point>, closestDocs: seq<seq<nat>>, ghost a: seq<nat>)
    requires Matrix(data, dim) && Matrix(centers[..], dim) && Assigns(a, |data|, centers.Length)
    requires Inverts(closestDocs, a, centers.Length)
    modifies centers
    ensures Matrix(centers[..], dim) && Updated(data, old(centers[..]), centers[..], a, dim, centers.Length)
  {
    hide Members, IsMean, Zero;
    for c := 0 to centers.Length
      invariant forall k :: 0 <= k < c ==> centers[k] == Zero(dim)
    {
      centers[c] := Zero(dim);
    }
    for c := 0 to centers.Length
      invariant forall k :: 0 <= k < centers.Length ==> |centers[k]| == dim
      invariant forall k :: 0 <= k < c && Members(a, k, |a|) != [] ==> IsMean(data, Members(a, k, |a|), centers[k])
      invariant forall k :: 0 <= k < centers.Length && (k >= c || Members(a, k, |a|) == []) ==> centers[k] == Zero(dim)
    {
      if closestDocs[c] != [] {
        centers[c] := MeanOf(data, closestDocs[c], dim);
      }
    }
  }

  /** The residual, summed chunk by chunk. */
  method Residual(data: seq<Point>, dim: nat, centers: seq<Point>, closest: seq<nat>) returns (residual: real)
    requires Matrix(data, dim) && Matrix(centers, dim) && Assigns(closest, |data|, |centers|)
    ensures residual == Cost(data, centers, closest, dim)
  {
    residual := 0.0;
    var d := 0;
    while d < |data|
      invariant d <= |data| && residual == CostTo(data, centers, closest, dim, d)
    {
      var chunk := 0.0;
      var end := if d + CHUNK_SIZE < |data| then d + CHUNK_SIZE else |data|;
      while d < end
        invariant d <= end && residual + chunk == CostTo(data, centers, closest, dim, d)
      {
        var dist := CalcDistance(data[d], centers[closest[d]], dim);
        chunk := chunk + dist;
        d := d + 1;
      }
      residual := residual + chunk;
    }
  }

  /** One iteration. The residual is the cost of the new centres, and no assignment to the old centres
      is cheaper. */
  method LloydsIter(data: seq<Point>, dim: nat, centers: array<Point>, docsNorm: seq<real>, maxFloat: real)
    returns (residual: real, closestDocs: seq<seq<nat>>, closest: seq<nat>)
    requires Matrix(data, dim) && Matrix(centers[..], dim) && centers.Length > 0
               && Bounded(data, centers[..], dim, maxFloat)
    requires |docsNorm| == |data| && forall i :: 0 <= i < |data| ==> docsNorm[i] == DotTo(data[i], data[i], dim)
    modifies centers
    ensures Matrix(centers[..], dim) && Assigns(closest, |data|, centers.Length)
    ensures residual == Cost(data, centers[..], closest, dim)
    ensures forall b :: Assigns(b, |data|, centers.Length) ==> residual <= Cost(data, old(centers[..]), b, dim)
    ensures Updated(data, old(centers[..]), centers[..], closest, dim, centers.Length)
    ensures Nearest(data, old(centers[..]), closest, dim) && First(data, old(centers[..]), closest, dim)
    ensures Inverts(closestDocs, closest, centers.Length)
  {
    hide SqDistTo, DotTo, CostTo, Nearest, First, Updated, Members;
    ghost var before := centers[..];
    closest, closestDocs := ComputeClosestCenters(data, centers[..], dim, docsNorm, maxFloat);
    UpdateCenters(data, dim, centers, closestDocs, closest);
    residual := Residual(data, dim, centers[..], closest);
    UpdateLowersCost(data, before, centers[..], closest, dim, centers.Length);
    forall b | Assigns(b, |data|, centers.Length) ensures residual <= Cost(data, before, b, dim) {
      NearestIsCheapest(data, before, closest, b, dim, |data|);
    }
  }

  // ----- the whole run ------------------------------------------------------------------------

  /** All coordinates lie in [-bound, bound]. */
  ghost predicate InBox(rows: seq<Point>, bound: real) {
    forall i, j :: 0 <= i < |rows| && 0 <= j < |rows[i]| ==> -bound <= rows[i][j] <= bound
  }

  lemma {:induction false} BoxDistance(x: Point, y: Point, bound: real, d: nat)
    requires d <= |x| && d <= |y| && bound >= 0.0
    requires forall j :: 0 <= j < d ==> -bound <= x[j] <= bound && -bound <= y[j] <= bound
    ensures SqDistTo(x, y, d) <= d as real * (4.0 * Square(bound))
  {
    if d > 0 {
      BoxDistance(x, y, bound, d - 1);
      BoxSquare(x[d - 1], y[d - 1], bound);
    }
  }

  lemma BoxSquare(a: real, b: real, bound: real)
    requires -bound <= a <= bound && -bound <= b <= bound
    ensures Square(a - b) <= 4.0 * Square(bound)
  {
    var c := a - b;
    Nonnegative(2.0 * bound - c, 2.0 * bound + c);
    assert (2.0 * bound - c) * (2.0 * bound + c) == 4.0 * Square(bound) - Square(c);
  }

  lemma BoxIsBounded(data: seq<Point>, centers: seq<Point>, dim: nat, bound: real, maxFloat: real)
    requires Matrix(data, dim) && Matrix(centers, dim) && InBox(data, bound) && InBox(centers, bound) && bound >= 0.0
    requires dim as real * (4.0 * Square(bound)) < maxFloat
    ensures Bounded(data, centers, dim, maxFloat)
  {
    hide SqDistTo, Square;
    forall i, c | 0 <= i < |data| && 0 <= c < |centers| ensures SqDistTo(data[i], centers[c], dim) < maxFloat {
      BoxDistance(data[i], centers[c], bound, dim);
    }
  }

  lemma {:induction false} SumInBox(data: seq<Point>, list: seq<nat>, j: nat, bound: real)
    requires forall i :: 0 <= i < |list| ==> list[i] < |data| && j < |data[list[i]]|
    requires InBox(data, bound)
    ensures -(|list| as real * bound) <= ColumnSum(data, list, j) <= |list| as real * bound
  {
    if list != [] {
      SumInBox(data, list[..|list| - 1], j, bound);
    }
  }

  lemma Quotient(s: real, n: real, bound: real)
    requires n > 0.0 && -(n * bound) <= s <= n * bound
    ensures -bound <= s / n <= bound
  {
    var q := s / n;
    assert n * q == s;
    assert q > bound ==> n * q > n * bound;
    assert q < -bound ==> n * q < n * (-bound);
  }

  /** Means and zeros stay in the box. */
  lemma UpdatedInBox(data: seq<Point>, before: seq<Point>, after: seq<Point>, a: seq<nat>, dim: nat, bound: real)
    requires Matrix(data, dim) && |a| == |data| && InBox(data, bound) && bound >= 0.0
    requires Updated(data, before, after, a, dim, |before|)
    ensures InBox(after, bound)
  {
    hide Members;
    forall c, j | 0 <= c < |after| && 0 <= j < |after[c]| ensures -bound <= after[c][j] <= bound {
      var list := Members(a, c, |a|);
      if list != [] { MeanInBox(data, list, after[c], j, bound); }
    }
  }

  lemma MeanInBox(data: seq<Point>, list: seq<nat>, center: Point, j: nat, bound: real)
    requires InBox(data, bound) && j < |center|
    requires forall i :: 0 <= i < |list| ==> list[i] < |data| && |center| <= |data[list[i]]|
    requires IsMean(data, list, center)
    ensures -bound <= center[j] <= bound
  {
    hide InBox, ColumnSum;
    SumInBox(data, list, j, bound);
    Quotient(ColumnSum(data, list, j), |list| as real, bound);
  }

  /** What one iteration leaves behind: the new centres, the assignment, and the residual. */
  datatype Iterate = Iterate(centers: seq<Point>, closest: seq<nat>, residual: real)

  /** The iteration that took the centres from `before` to those of `it`. */
  ghost predicate StepOf(data: seq<Point>, dim: nat, before: seq<Point>, it: Iterate) {
    && Matrix(data, dim) && Matrix(before, dim) && Matrix(it.centers, dim) && |it.centers| == |before|
    && Assigns(it.closest, |data|, |before|) && Nearest(data, before, it.closest, dim)
    && First(data, before, it.closest, dim)
    && Updated(data, before, it.centers, it.closest, dim, |before|)
    && it.residual == Cost(data, it.centers, it.closest, dim)
  }

  /** An iteration is determined by the centres before it. */
  lemma StepIsUnique(data: seq<Point>, dim: nat, before: seq<Point>, it1: Iterate, it2: Iterate)
    requires StepOf(data, dim, before, it1) && StepOf(data, dim, before, it2)
    ensures it1 == it2
  {
    hide SqDistTo, Updated, Members, Cost;
    forall i | 0 <= i < |data| ensures it1.closest[i] == it2.closest[i] {
      FirstIsUnique(data, before, it1.closest, it2.closest, dim, i);
      FirstIsUnique(data, before, it2.closest, it1.closest, dim, i);
    }
    assert it1.closest == it2.closest;
    UpdateIsUnique(data, before, it1.centers, it2.centers, it1.closest, dim);
  }

  lemma FirstIsUnique(data: seq<Point>, centers: seq<Point>, a: seq<nat>, b: seq<nat>, dim: nat, i: nat)
    requires Matrix(data, dim) && Matrix(centers, dim) && Assigns(a, |data|, |centers|) && Assigns(b, |data|, |centers|)
    requires Nearest(data, centers, a, dim) && First(data, centers, b, dim) && i < |data|
    ensures b[i] <= a[i]
  {
    hide SqDistTo;
    assert SqDistTo(data[i], centers[a[i]], dim) <= SqDistTo(data[i], centers[b[i]], dim);
  }

  lemma UpdateIsUnique(data: seq<Point>, before: seq<Point>, after1: seq<Point>, after2: seq<Point>, a: seq<nat>,
                       dim: nat)
    requires Matrix(data, dim) && |a| == |data|
    requires Updated(data, before, after1, a, dim, |before|) && Updated(data, before, after2, a, dim, |before|)
    ensures after1 == after2
  {
    hide Members, ColumnSum;
    forall c, j | 0 <= c < |before| && 0 <= j < dim ensures after1[c][j] == after2[c][j] {
      if Members(a, c, |a|) != [] {
        assert IsMean(data, Members(a, c, |a|), after1[c]) && IsMean(data, Members(a, c, |a|), after2[c]);
      }
    }
    forall c | 0 <= c < |before| ensures after1[c] == after2[c] {
    }
  }

  /** The centres before iteration i. */
  ghost function Before(start: seq<Point>, its: seq<Iterate>, i: nat): seq<Point>
    requires i <= |its|
  {
    if i == 0 then start else its[i - 1].centers
  }

  /** its are the iterations of a run from the centres start. */
  ghost predicate Iterations(data: seq<Point>, dim: nat, start: seq<Point>, its: seq<Iterate>) {
    forall i :: 0 <= i < |its| ==> IsIteration(data, dim, start, its, i)
  }

  ghost predicate IsIteration(data: seq<Point>, dim: nat, start: seq<Point>, its: seq<Iterate>, i: nat)
    requires i < |its|
  {
    StepOf(data, dim, Before(start, its, i), its[i])
  }

  lemma NoIterations(data: seq<Point>, dim: nat, start: seq<Point>)
    ensures Iterations(data, dim, start, [])
  {
  }

  lemma IterationsSnoc(data: seq<Point>, dim: nat, start: seq<Point>, its: seq<Iterate>, it: Iterate)
    requires Iterations(data, dim, start, its) && StepOf(data, dim, Before(start, its, |its|), it)
    ensures Iterations(data, dim, start, its + [it])
  {
    hide StepOf;
    var more := its + [it];
    forall i | 0 <= i < |more| ensures IsIteration(data, dim, start, more, i) {
      assert i < |its| ==> IsIteration(data, dim, start, its, i);
    }
  }

  /** The residual never increases from one iteration to the next, whether or not clusters are empty. */
  lemma {:induction false} ResidualsNeverIncrease(data: seq<Point>, dim: nat, start: seq<Point>, its: seq<Iterate>,
                                                  i: nat, j: nat)
    requires Iterations(data, dim, start, its) && i <= j < |its|
    ensures its[j].residual <= its[i].residual
    decreases j
  {
    hide Cost, Nearest, Updated;
    if i < j {
      ResidualsNeverIncrease(data, dim, start, its, i, j - 1);
      assert IsIteration(data, dim, start, its, j - 1) && IsIteration(data, dim, start, its, j);
      StepLowers(data, dim, its[j - 1], its[j]);
    }
  }

  lemma StepLowers(data: seq<Point>, dim: nat, was: Iterate, it: Iterate)
    requires StepOf(data, dim, was.centers, it) && Assigns(was.closest, |data|, |was.centers|)
    requires was.residual == Cost(data, was.centers, was.closest, dim)
    ensures it.residual <= was.residual
  {
    hide CostTo, Nearest, Updated;
    NearestIsCheapest(data, was.centers, it.closest, was.closest, dim, |data|);
    UpdateLowersCost(data, was.centers, it.centers, it.closest, dim, |was.centers|);
  }

  /** After iteration i the run stops: the residual hardly changed, or there is hardly any. A ratio by
      a zero residual is not below the limit, as for floats. */
  ghost predicate StopsAt(its: seq<Iterate>, i: nat, epsilon: real)
    requires i < |its|
  {
    var r := its[i].residual;
    (i != 0 && r != 0.0 && (its[i - 1].residual - r) / r < 0.00001) || r < epsilon
  }

  /** In numbers: the drop of the residual is below a hundred-thousandth of what is left, or what is left is
      below epsilon. */
  lemma StopsWhen(its: seq<Iterate>, i: nat, epsilon: real)
    requires i < |its| && its[i].residual > 0.0
    ensures StopsAt(its, i, epsilon)
            <==> its[i].residual < epsilon
                 || (i > 0 && 100000.0 * (its[i - 1].residual - its[i].residual) < its[i].residual)
  {
    var r := its[i].residual;
    if i > 0 {
      var drop := its[i - 1].residual - r;
      RatioBelow(drop, r);
    }
  }

  lemma RatioBelow(a: real, r: real)
    requires r > 0.0
    ensures a / r < 0.00001 <==> 100000.0 * a < r
  {
    var q := a / r;
    assert q * r == a;
    if q < 0.00001 {
      Positive(0.00001 - q, r);
    } else {
      NotNegative(q - 0.00001, r);
    }
  }

  lemma Positive(a: real, b: real)
    requires a > 0.0 && b > 0.0
    ensures a * b > 0.0
  {
  }

  lemma NotNegative(a: real, b: real)
    requires a >= 0.0 && b > 0.0
    ensures a * b >= 0.0
  {
  }

  ghost function Power(q: real, n: nat): real {
    if n == 0 then 1.0 else q * Power(q, n - 1)
  }

  /** As long as a run goes on, every iteration divides the residual by at least 1.00001. */
  lemma {:induction false} ResidualsDrop(its: seq<Iterate>, i: nat, epsilon: real)
    requires i < |its| && epsilon > 0.0 && forall j :: 0 <= j <= i ==> !StopsAt(its, j, epsilon)
    ensures its[i].residual >= epsilon && Power(1.00001, i) * its[i].residual <= its[0].residual
  {
    assert !StopsAt(its, i, epsilon);
    if i > 0 {
      ResidualsDrop(its, i - 1, epsilon);
      StopsWhen(its, i, epsilon);
      PowerPositive(1.00001, i - 1);
      OneMoreDrop(Power(1.00001, i - 1), its[i].residual, its[i - 1].residual, its[0].residual);
    } else {
      assert Power(1.00001, 0) == 1.0;
    }
  }

  lemma OneMoreDrop(p: real, r: real, was: real, first: real)
    requires p > 0.0 && 100000.0 * (was - r) >= r && p * was <= first
    ensures 1.00001 * p * r <= first
  {
    var d := was - 1.00001 * r;
    NotNegative(d, p);
    assert d * p == p * was - 1.00001 * p * r by {
      assert p * (d + 1.00001 * r) == p * d + p * (1.00001 * r);
    }
  }

  lemma {:induction false} PowerPositive(q: real, n: nat)
    requires q > 0.0
    ensures Power(q, n) > 0.0
  {
    if n > 0 {
      PowerPositive(q, n - 1);
      Positive(q, Power(q, n - 1));
    }
  }

  /** So a run goes on for a number of iterations that the first residual bounds, whatever maxReps is. */
  lemma RunIsShort(its: seq<Iterate>, i: nat, epsilon: real)
    requires i < |its| && epsilon > 0.0 && forall j :: 0 <= j <= i ==> !StopsAt(its, j, epsilon)
    ensures Power(1.00001, i) * epsilon <= its[0].residual
  {
    ResidualsDrop(its, i, epsilon);
    PowerPositive(1.00001, i);
    var p, r := Power(1.00001, i), its[i].residual;
    NotNegative(r - epsilon, p);
    assert (r - epsilon) * p == p * r - p * epsilon;
  }

  lemma StopsLocally(its: seq<Iterate>, it: Iterate, epsilon: real)
    ensures forall i :: 0 <= i < |its| ==> (StopsAt(its + [it], i, epsilon) <==> StopsAt(its, i, epsilon))
  {
  }

  /** A run: iterations up to the first after which the run stops, but at most maxReps. The results are
      those of the last iteration. */
  method RunLloyds(data: seq<Point>, dim: nat, centers: array<Point>, maxReps: nat, maxFloat: real, epsilon: real,
                   ghost bound: real)
    returns (residual: real, closestDocs: seq<seq<nat>>, closest: seq<nat>, ghost its: seq<Iterate>)
    requires Matrix(data, dim) && Matrix(centers[..], dim) && centers.Length > 0
    requires InBox(data, bound) && InBox(centers[..], bound) && bound >= 0.0
    requires dim as real * (4.0 * Square(bound)) < maxFloat
    modifies centers
    ensures Iterations(data, dim, old(centers[..]), its) && centers[..] == Before(old(centers[..]), its, |its|)
    ensures |its| <= maxReps && forall i :: 0 <= i < |its| - 1 ==> !StopsAt(its, i, epsilon)
    ensures |its| < maxReps ==> its != [] && StopsAt(its, |its| - 1, epsilon)
    ensures its == [] ==> residual == maxFloat
    ensures its != [] ==> residual == its[|its| - 1].residual && closest == its[|its| - 1].closest
                          && Inverts(closestDocs, closest, centers.Length)
  {
    hide SqDistTo, DotTo, Cost, Nearest, First, Updated, Members, Bounded, InBox, Square, StepOf, Iterations, Inverts;
    ghost var start := centers[..];
    residual, its, closest, closestDocs := maxFloat, [], [], [];
    var docsNorm := ComputeVecsL2sq(data, dim);
    NoIterations(data, dim, start);
    for i := 0 to maxReps
      invariant |its| == i && Iterations(data, dim, start, its) && centers[..] == Before(start, its, i)
      invariant Matrix(centers[..], dim) && InBox(centers[..], bound)
      invariant forall j :: 0 <= j < i ==> !StopsAt(its, j, epsilon)
      invariant i == 0 ==> residual == maxFloat
      invariant i != 0 ==> residual == its[i - 1].residual && closest == its[i - 1].closest
                           && Inverts(closestDocs, closest, centers.Length)
    {
      var oldResidual := residual;
      ghost var before, was := centers[..], its;
      BoxIsBounded(data, before, dim, bound, maxFloat);
      residual, closestDocs, closest := LloydsIter(data, dim, centers, docsNorm, maxFloat);
      UpdatedInBox(data, before, centers[..], closest, dim, bound);
      ghost var it := Iterate(centers[..], closest, residual);
      IsStep(data, dim, before, it);
      IterationsSnoc(data, dim, start, was, it);
      StopsLocally(was, it, epsilon);
      its := was + [it];
      if (i != 0 && residual != 0.0 && (oldResidual - residual) / residual < 0.00001) || residual < epsilon {
        break;
      }
    }
  }

  lemma IsStep(data: seq<Point>, dim: nat, before: seq<Point>, it: Iterate)
    requires Matrix(data, dim) && Matrix(before, dim) && Matrix(it.centers, dim) && |it.centers| == |before|
    requires Assigns(it.closest, |data|, |before|) && Nearest(data, before, it.closest, dim)
    requires First(data, before, it.closest, dim) && Updated(data, before, it.centers, it.closest, dim, |before|)
    requires it.residual == Cost(data, it.centers, it.closest, dim)
    ensures StepOf(data, dim, before, it)
  {
  }
}
