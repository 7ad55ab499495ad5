/** Kuhn-Munkres matching on global arrays, as in `hungary.h`: a recursive augmenting search inside
    a relabelling loop, one phase per left vertex.

    Labels, sums and slacks are formed in unbounded integers, and the ghost field `overflow` says whether
    one of them has left the 32 bits of the source's `int`. From then on the source's behaviour is
    undefined, and optimality is promised only of calls without overflow: of all calls when the weights
    lie in a safe interval, and in no other interval. The returned sum is wrapped. */
module Hungary {
  import opened Common
  import opened Assignment

  const MAXN := 100000
  const NO_SLACK := 0x7FFF_FFFF

  class Matcher {
    const lx: array<int>    // labels of the left vertices
    const ly: array<int>    // labels of the right vertices
    const sx: array<bool>   // left vertices visited by the current search
    const sy: array<bool>   // right vertices visited by the current search
    const mate: array<int>  // left partner of each right vertex, -1 if none
    var weight: array2<int>
    var n: nat
    ghost var overflow: bool

    constructor ()
      ensures Valid() && n == 0 && !overflow
      ensures fresh(lx) && fresh(ly) && fresh(sx) && fresh(sy) && fresh(mate) && fresh(weight)
    {
      lx, ly := new int[MAXN], new int[MAXN];
      sx, sy := new bool[MAXN], new bool[MAXN];
      mate := new int[MAXN];
      weight := new int[0, 0];
      n := 0;
      overflow := false;
    }

    ghost predicate Valid()
      reads this`n, this`weight
    {
      && n <= MAXN
      && lx.Length == ly.Length == sx.Length == sy.Length == mate.Length == MAXN
      && lx != ly && lx != mate && ly != mate && sx != sy
      && weight.Length0 == weight.Length1 == n
    }

    /** w is what the weight array holds. */
    ghost predicate Holds(w: Matrix)
      reads this`n, this`weight, weight
    {
      Valid() && IsSquare(w, n) && forall i, j :: 0 <= i < n && 0 <= j < n ==> weight[i, j] == w[i][j]
    }

    ghost function Labels(w: Matrix): Labelling
      requires Valid()
      reads this`n, this`weight, lx, ly
    {
      Labelling(w, lx[..n], ly[..n])
    }

    ghost function Mates(): seq<int>
      requires Valid()
      reads this`n, this`weight, mate
    {
      mate[..n]
    }

    ghost function VisitedLeft(): set<int>
      requires Valid()
      reads this`n, this`weight, sx
    {
      set i | i in Range(n) && sx[i]
    }

    ghost function VisitedRight(): set<int>
      requires Valid()
      reads this`n, this`weight, sy
    {
      set j | j in Range(n) && sy[j]
    }

    /** The augmenting search from u. It stays confined to what is reachable from u; on failure
        nothing is re-matched and every alternating step was followed; on success u is matched and
        every other matched left vertex stays matched. */
    method Dfs(u: nat, ghost w: Matrix) returns (found: bool)
      requires Holds(w) && u < n
      requires Partial(Mates(), n)
      requires u !in Cover(Mates(), Range(n) - VisitedRight())
      modifies sx, sy, mate, this`overflow
      ensures Labels(w).SumsFit() ==> overflow == old(overflow)
      ensures old(overflow) ==> overflow
      ensures !overflow && 0 !in old(VisitedRight()) ==> Labels(w).SumFits(u, 0)
      ensures Searched(Labels(w), u, old(VisitedLeft()), old(VisitedRight()), old(Mates()),
                       VisitedLeft(), VisitedRight(), Mates(), found)
      decreases Range(n) - VisitedRight(), 1
    {
      hide Augmented, Cover, Closed, Partial, Confined, FollowedTo, IsInt;
      ghost var m, d := Mates(), Labels(w);
      ghost var a0, b0 := VisitedLeft(), VisitedRight();
      sx[u] := true;
      assert VisitedLeft() == a0 + {u};
      SearchBegins(d, m, u, a0, b0);
      for v := 0 to n
        invariant Mates() == m
        invariant d.SumsFit() ==> overflow == old(overflow)
        invariant old(overflow) ==> overflow
        invariant v > 0 && !overflow && 0 !in b0 ==> d.SumFits(u, 0)
        invariant v == 0 ==> VisitedRight() == b0
        invariant Confined(d, m, u, a0, b0, VisitedLeft(), VisitedRight())
        invariant FollowedTo(d, m, u, a0, b0, VisitedLeft(), VisitedRight(), v)
      {
        if !sy[v] {
          assert d.SumFits(u, v) == IsInt(lx[u] + ly[v]) && d.Tight(u, v) == (lx[u] + ly[v] == weight[u, v]);
          overflow := overflow || !IsInt(lx[u] + ly[v]);
          if lx[u] + ly[v] == weight[u, v] {
            SearchGrows(d, m, u, a0, b0, VisitedLeft(), VisitedRight());
            var again := Visit(u, v, w, a0, b0);
            if again {
              return true;
            }
            continue;
          }
        }
        SearchSkips(d, m, u, a0, b0, VisitedLeft(), VisitedRight(), v);
      }
      return false;
    }

    /** The body of the loop of `Dfs` once the unvisited right vertex v is found to be tight. */
    method Visit(u: nat, v: nat, ghost w: Matrix, ghost a0: set<int>, ghost b0: set<int>) returns (found: bool)
      requires Holds(w) && u < n && v < n && !sy[v]
      requires Partial(Mates(), n) && Labels(w).Tight(u, v)
      requires u !in Cover(Mates(), Range(n) - b0)
      requires Confined(Labels(w), Mates(), u, a0, b0, VisitedLeft(), VisitedRight())
      requires FollowedTo(Labels(w), Mates(), u, a0, b0, VisitedLeft(), VisitedRight(), v)
      modifies sx, sy, mate, this`overflow
      ensures Labels(w).SumsFit() ==> overflow == old(overflow)
      ensures old(overflow) ==> overflow
      ensures Confined(Labels(w), old(Mates()), u, a0, b0, VisitedLeft(), VisitedRight())
      ensures found ==> Augmented(Labels(w), old(Mates()), Mates(), u, Range(n) - b0)
      ensures !found ==> Mates() == old(Mates())
                         && FollowedTo(Labels(w), Mates(), u, a0, b0, VisitedLeft(), VisitedRight(), v + 1)
      decreases Range(n) - VisitedRight(), 0
    {
      ghost var m, d := Mates(), Labels(w);
      ghost var a, b := VisitedLeft(), VisitedRight();
      sy[v] := true;
      assert VisitedRight() == b + {v};
      found := mate[v] == -1;
      if !found {
        assert m[v] !in Cover(m, Range(n) - VisitedRight());
        found := Dfs(mate[v], w);
      }
      SearchStep(d, m, u, v, a0, b0, a, b, VisitedLeft(), VisitedRight(), Mates(), found);
      if found {
        ghost var m1 := Mates();
        mate[v] := u;
        assert Mates() == m1[v := u];
      }
    }

    method ResetMarks()
      requires Valid()
      modifies sx, sy
      ensures VisitedLeft() == {} && VisitedRight() == {}
    {
      forall i | 0 <= i < MAXN { sx[i] := false; }
      forall i | 0 <= i < MAXN { sy[i] := false; }
    }

    /** A search from u with all marks cleared. */
    method Attempt(u: nat, ghost w: Matrix) returns (found: bool)
      requires Holds(w) && u < n && Settled(Labels(w), Mates(), u)
      modifies sx, sy, mate, this`overflow
      ensures found ==> Settled(Labels(w), Mates(), u + 1)
      ensures !found ==> Mates() == old(Mates())
                         && Reachable(Labels(w), Mates(), u, VisitedLeft(), VisitedRight())
                         && forall v :: v in VisitedRight() ==> mate[v] != -1
      ensures old(overflow) ==> overflow
      ensures !overflow ==> Labels(w).SumFits(u, 0)
      ensures Narrow(w) ==> overflow == old(overflow)
    {
      ResetMarks();
      ghost var d, m := Labels(w), Mates();
      if Narrow(w) { NarrowFits(d, m, u); }
      assert Range(n) - VisitedRight() == Range(n);
      found := Dfs(u, w);
      SearchOutcome(d, u, m, VisitedLeft(), VisitedRight(), Mates(), found);
    }

    /** The smallest slack from the visited left to the unvisited right vertices, capped. */
    method MinSlack(ghost w: Matrix) returns (dx: int)
      requires Holds(w)
      modifies this`overflow
      ensures BelowSlack(Labels(w), VisitedLeft(), VisitedRight(), dx)
      ensures dx == NO_SLACK || (dx < NO_SLACK && Attained(Labels(w), VisitedLeft(), VisitedRight(), dx))
      ensures old(overflow) ==> overflow
      ensures !overflow ==> SlacksAreInts(Labels(w), VisitedLeft(), VisitedRight())
      ensures SlacksFit(Labels(w)) ==> overflow == old(overflow)
    {
      hide Attained, Slack, Labelling.SumFits;
      ghost var d, a, b := Labels(w), VisitedLeft(), VisitedRight();
      dx := NO_SLACK;
      for i := 0 to n
        invariant dx == NO_SLACK || (dx < NO_SLACK && Attained(d, a, b, dx))
        invariant forall k, j :: k in a && 0 <= k < i && 0 <= j < n && j !in b ==> Looked(Slack(d, k, j), dx, overflow)
        invariant old(overflow) ==> overflow
        invariant SlacksFit(d) ==> overflow == old(overflow)
      {
        if sx[i] {
          for j := 0 to n
            invariant dx == NO_SLACK || (dx < NO_SLACK && Attained(d, a, b, dx))
            invariant forall k, l :: k in a && 0 <= k < i && 0 <= l < n && l !in b ==>
                      Looked(Slack(d, k, l), dx, overflow)
            invariant forall l :: 0 <= l < j && l !in b ==> Looked(Slack(d, i, l), dx, overflow)
            invariant old(overflow) ==> overflow
            invariant SlacksFit(d) ==> overflow == old(overflow)
          {
            if !sy[j] {
              var slack := lx[i] + ly[j] - weight[i, j];
              SlackIs(d, a, b, i, j);
              overflow := overflow || !IsInt(lx[i] + ly[j]) || !IsInt(slack);
              dx := if slack < dx then slack else dx;
            }
          }
        }
      }
    }

    method Relabel(dx: int, ghost w: Matrix)
      requires Holds(w)
      modifies lx, ly, this`overflow
      ensures Relabelled(old(Labels(w)), Labels(w), VisitedLeft(), VisitedRight(), dx)
      ensures old(overflow) ==> overflow
      ensures LabelsFit(Labels(w)) ==> overflow == old(overflow)
    {
      for i := 0 to n
        invariant forall k :: 0 <= k < i ==> lx[k] == (if sx[k] then old(lx[k]) - dx else old(lx[k]))
        invariant forall k :: 0 <= k < i ==> ly[k] == (if sy[k] then old(ly[k]) + dx else old(ly[k]))
        invariant forall k :: i <= k < n ==> lx[k] == old(lx[k]) && ly[k] == old(ly[k])
        invariant old(overflow) ==> overflow
        invariant (forall k :: 0 <= k < i ==> IsInt(lx[k]) && IsInt(ly[k])) ==> overflow == old(overflow)
      {
        if sx[i] {
          lx[i] := lx[i] - dx;
          overflow := overflow || !IsInt(lx[i]);
        }
        if sy[i] {
          ly[i] := ly[i] + dx;
          overflow := overflow || !IsInt(ly[i]);
        }
      }
    }

    /** The label change after a failed search from u. */
    method Adjust(u: nat, ghost w: Matrix, ghost k: nat)
      requires Holds(w) && u < n
      requires Settled(Labels(w), Mates(), u)
      requires Reachable(Labels(w), Mates(), u, VisitedLeft(), VisitedRight())
      requires forall v :: v in VisitedRight() ==> mate[v] != -1
      requires !overflow ==> TreesAtLeast(Labels(w), Mates(), u, k)
      modifies lx, ly, this`overflow
      ensures Settled(Labels(w), Mates(), u)
      ensures old(Untouched(Labels(w), u + 1)) ==> Untouched(Labels(w), u + 1)
      ensures Labels(w).Dual() < old(Labels(w).Dual())
      ensures NoHigher(lx[..n], old(lx[..n]))
      ensures old(overflow) ==> overflow
      ensures !overflow ==> k < n && TreesAtLeast(Labels(w), Mates(), u, k + 1)
      ensures !overflow ==> old(SlacksAreInts(Labels(w), VisitedLeft(), VisitedRight()))
      ensures Narrow(w) ==> overflow == old(overflow)
    {
      hide Settled, Reachable, Untouched, Attained;
      ghost var d, a, b := Labels(w), VisitedLeft(), VisitedRight();
      var dx := MinSlack(w);
      assert Labels(w) == d && VisitedLeft() == a && VisitedRight() == b;
      Relabel(dx, w);
      AdjustSettles(d, Labels(w), Mates(), u, a, b, dx);
      if !overflow {
        AdjustGrows(d, Labels(w), Mates(), u, a, b, dx, k);
      }
    }

    /** The loop that matches left vertex u. It ends because the dual objective drops at every
        relabelling; without overflow it relabels at most n times. */
    method Phase(u: nat, ghost w: Matrix) returns (ghost relabellings: nat)
      requires Holds(w) && u < n
      requires AtPhase(w, Labels(w), Mates(), u)
      modifies lx, ly, sx, sy, mate, this`overflow
      ensures Settled(Labels(w), Mates(), u + 1) && Untouched(Labels(w), u + 1)
      ensures NoHigher(lx[..n], old(lx[..n]))
      ensures old(overflow) ==> overflow
      ensures !overflow ==> relabellings <= n && Passed(w, u)
      ensures Narrow(w) ==> overflow == old(overflow)
    {
      hide Settled, Reachable, Untouched, TreesAtLeast, Passed, SlacksAreInts, Labelling.Dual;
      ghost var d, m := Labels(w), Mates();
      PhaseBegins(w, d, m, u);
      relabellings := 0;
      ghost var lowest := Total(w, Identity(n));
      while true
        invariant Settled(Labels(w), Mates(), u) && lowest <= Labels(w).Dual()
        invariant NoHigher(lx[..n], old(lx[..n]))
        invariant Untouched(Labels(w), u + 1) && (relabellings == 0 ==> Labels(w) == d && Mates() == m)
        invariant old(overflow) ==> overflow
        invariant !overflow ==> relabellings <= n && TreesAtLeast(Labels(w), Mates(), u, relabellings)
        invariant !overflow && relabellings > 0 ==> Passed(w, u)
        invariant Narrow(w) ==> overflow == old(overflow)
        decreases Labels(w).Dual() - lowest
      {
        var isFind := Attempt(u, w);
        ghost var a, b, sums := VisitedLeft(), VisitedRight(), !overflow;
        if isFind {
          if sums && relabellings == 0 { PassedByEnding(w, d, m, Mates(), u); }
          break;
        }
        Adjust(u, w, relabellings);
        if !overflow && relabellings == 0 { PassedByLooking(w, d, m, u, a, b); }
        DualAtLeast(Labels(w), Mates(), u);
        relabellings := relabellings + 1;
      }
    }

    method Negate(ghost w: Matrix)
      requires Holds(w)
      modifies weight, this`overflow
      ensures Holds(Negated(w))
      ensures old(overflow) ==> overflow
      ensures Ints(Negated(w)) ==> overflow == old(overflow)
    {
      ghost var v := Negated(w);
      for i := 0 to n
        invariant forall k, l :: 0 <= k < i && 0 <= l < n ==> weight[k, l] == -w[k][l]
        invariant forall k, l :: i <= k < n && 0 <= l < n ==> weight[k, l] == w[k][l]
        invariant old(overflow) ==> overflow
        invariant Ints(v) ==> overflow == old(overflow)
      {
        for j := 0 to n
          invariant forall k, l :: 0 <= k < i && 0 <= l < n ==> weight[k, l] == -w[k][l]
          invariant forall l :: 0 <= l < j ==> weight[i, l] == -w[i][l]
          invariant forall l :: j <= l < n ==> weight[i, l] == w[i][l]
          invariant forall k, l :: i < k < n && 0 <= l < n ==> weight[k, l] == w[k][l]
          invariant old(overflow) ==> overflow
          invariant Ints(v) ==> overflow == old(overflow)
        {
          assert v[i][j] == -weight[i, j];
          overflow := overflow || !IsInt(-weight[i, j]);
          weight[i, j] := -weight[i, j];
        }
      }
    }

    method InitLabels(ghost w: Matrix)
      requires Holds(w)
      modifies lx, ly, mate
      ensures Settled(Labels(w), Mates(), 0) && Untouched(Labels(w), 0)
    {
      hide StartLabel;
      for i := 0 to n
        invariant forall k :: 0 <= k < i ==> ly[k] == 0 && lx[k] == StartLabel(w[k])
      {
        lx[i] := LOWEST_LABEL;
        ly[i] := 0;
        NoLabel();
        assert w[i][..0] == [];
        for j := 0 to n
          invariant ly[i] == 0 && lx[i] == StartLabel(w[i][..j])
          invariant forall k :: 0 <= k < i ==> ly[k] == 0 && lx[k] == StartLabel(w[k])
        {
          NextLabel(w[i], j);
          if lx[i] < weight[i, j] {
            lx[i] := weight[i, j];
          }
        }
        assert w[i][..n] == w[i];
      }
      forall v | 0 <= v < MAXN { mate[v] := -1; }
      InitiallySettled(Labels(w), Mates());
    }

    /** The matched weight, accumulated in a 32-bit int. */
    method SumMatched(ghost w: Matrix) returns (sum: int)
      requires Holds(w) && Permutation(Mates(), n)
      ensures sum == Wrap(Total(w, Mates()))
    {
      sum := 0;
      for i := 0 to n
        invariant sum == Wrap(WeightTo(w, Mates(), i))
      {
        WrapOfSum(WeightTo(w, Mates(), i), weight[mate[i], i]);
        sum := Wrap(sum + weight[mate[i], i]);
      }
    }

    /** The phases for all left vertices. */
    method MatchAll(ghost w: Matrix)
      requires Holds(w)
      modifies lx, ly, sx, sy, mate, this`overflow
      ensures Permutation(Mates(), n)
      ensures !overflow ==> Heaviest(w, Mates()) && forall u :: 0 <= u < n ==> Passed(w, u)
      ensures old(overflow) ==> overflow
      ensures Narrow(w) ==> overflow == old(overflow)
    {
      hide Settled, Untouched, Passed;
      InitLabels(w);
      for u := 0 to n
        invariant Settled(Labels(w), Mates(), u) && Untouched(Labels(w), u)
        invariant old(overflow) ==> overflow
        invariant !overflow ==> forall v :: 0 <= v < u ==> Passed(w, v)
        invariant Narrow(w) ==> overflow == old(overflow)
      {
        ghost var relabellings := Phase(u, w);
      }
      SettledIsHeaviest(Labels(w), Mates());
    }

    /** A perfect matching of all n left with all n right vertices, of maximum weight (or, with maxsum
        false, of minimum weight) if no int overflowed, as with narrow weights none does. The weights
        are as before the call; the result is the 32-bit wrap of the matched weight. */
    method HungaryMatch(maxsum: bool, ghost w: Matrix) returns (sum: int)
      requires Holds(w)
      modifies lx, ly, sx, sy, mate, weight, this`overflow
      ensures Holds(w)
      ensures Permutation(Mates(), n) && sum == Wrap(Total(w, Mates()))
      ensures !overflow ==> if maxsum then Heaviest(w, Mates()) else Lightest(w, Mates())
      ensures !overflow && maxsum ==> forall u :: 0 <= u < n ==> Passed(w, u)
      ensures !overflow && !maxsum ==> forall u :: 0 <= u < n ==> Passed(Negated(w), u)
      ensures Ints(w) && Narrow(if maxsum then w else Negated(w)) ==> !overflow
    {
      hide Permutation, Heaviest, Lightest, Total, Passed, Narrow;
      overflow := false;
      if !maxsum {
        Negate(w);
      }
      ghost var v := if maxsum then w else Negated(w);
      if Narrow(v) { NarrowInts(v); }
      MatchAll(v);
      sum := SumMatched(v);
      if !maxsum {
        ghost var m := Mates();
        if Heaviest(v, m) { NegatedHeaviest(w, m); }
        NegatedTotal(w, m);
        WrapOfSum(Total(v, m), 0);
        sum := Wrap(-sum);
        Negate(v);
        assert Mates() == m;
      }
    }
  }

  /** A slack that a relabelling has looked at. */
  ghost predicate Looked(slack: int, dx: int, overflow: bool) {
    dx <= slack && (overflow || IsInt(slack))
  }

  lemma SlackIs(d: Labelling, a: set<int>, b: set<int>, i: nat, j: nat)
    requires d.Shape(|d.w|) && i < |d.w| && j < |d.w| && i in a && j !in b
    ensures Slack(d, i, j) == d.lx[i] + d.ly[j] - d.w[i][j] && Attained(d, a, b, Slack(d, i, j))
    ensures SlacksFit(d) ==> IsInt(d.lx[i] + d.ly[j]) && IsInt(Slack(d, i, j))
  {
    assert d.SumsFit() ==> d.SumFits(i, j);
  }

  /** Whether all weights from lo to hi can be matched without overflow shows at the weights that are lo or
      hi: the call overflows exactly if the interval is not safe, whatever the searches find. */
  method WideRun(g: Matcher, lo: int, hi: int) returns (sum: int)
    requires IsInt(lo) && IsInt(hi) && lo <= hi && g.Holds(WideWeights(lo, hi))
    modifies g.lx, g.ly, g.sx, g.sy, g.mate, g.weight, g`overflow
    ensures g.overflow <==> !Safe(lo, hi)
  {
    if !Safe(lo, hi) { WideOverflows(lo, hi); }
    sum := g.HungaryMatch(true, WideWeights(lo, hi));
  }
}
