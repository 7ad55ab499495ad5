/** What a beam search does, independent of how it reads its vertices: from the queue, expand the
    closest unexpanded entry, visit its neighbours, and offer to the queue what was not visited. */
module BeamSearch {
  import opened Common
  import opened NeighborQueue

  /** The searchable vertices: out-neighbours and distance from the query. */
  datatype World = World(nbrs: map<nat, seq<nat>>, dist: map<nat, real>)

  ghost predicate ValidWorld(w: World) {
    && w.nbrs.Keys == w.dist.Keys
    && forall x, i :: x in w.nbrs && 0 <= i < |w.nbrs[x]| ==> w.nbrs[x][i] in w.nbrs
  }

  ghost function Out(w: World, x: nat): set<nat>
    requires x in w.nbrs
  {
    set y | y in w.nbrs[x]
  }

  /** The distances of the vertices in s. */
  ghost function Offers(w: World, s: set<nat>): map<nat, real> {
    map x | x in s && x in w.dist :: w.dist[x]
  }

  /** The state of a search between two hops. */
  datatype Snapshot = Snapshot(queue: seq<Neighbor>, cur: nat, visited: set<nat>, expanded: set<nat>)

  /** The queue holds the L least visited vertices, the expanded ones flagged, the cursor on the first
      that is not. */
  ghost predicate Reflects(w: World, L: nat, s: Snapshot) {
    && s.visited <= w.dist.Keys && s.expanded <= s.visited
    && IsTop(s.queue, Offers(w, s.visited), L)
    && FlagsAre(s.queue, s.expanded) && CursorAt(s.queue, s.cur)
  }

  ghost predicate Start(w: World, L: nat, eps: set<nat>, s: Snapshot) {
    Reflects(w, L, s) && s.visited == eps && s.expanded == {}
  }

  /** One hop: the entry under the cursor is expanded and its neighbours are visited. */
  ghost predicate Hop(w: World, L: nat, s: Snapshot, s': Snapshot) {
    && Reflects(w, L, s) && Reflects(w, L, s') && s.cur < |s.queue| && s.queue[s.cur].item in w.nbrs
    && s'.visited == s.visited + Out(w, s.queue[s.cur].item)
    && s'.expanded == s.expanded + {s.queue[s.cur].item}
  }

  ghost predicate Hops(w: World, L: nat, eps: set<nat>, t: seq<Snapshot>) {
    && |t| > 0 && Start(w, L, eps, t[0])
    && forall i :: 0 <= i < |t| - 1 ==> Hop(w, L, t[i], t[i + 1])
  }

  /** A whole search: it stops when nothing in the queue is unexpanded. */
  ghost predicate Run(w: World, L: nat, eps: set<nat>, t: seq<Snapshot>) {
    Hops(w, L, eps, t) && t[|t| - 1].cur == |t[|t| - 1].queue|
  }

  lemma HopsExtend(w: World, L: nat, eps: set<nat>, t: seq<Snapshot>, s: Snapshot)
    requires Hops(w, L, eps, t) && Hop(w, L, t[|t| - 1], s)
    ensures Hops(w, L, eps, t + [s])
  {
    var t' := t + [s];
    forall i | 0 <= i < |t'| - 1 ensures Hop(w, L, t'[i], t'[i + 1]) {
      if i < |t| - 1 { assert Hop(w, L, t[i], t[i + 1]); }
    }
  }

  // ----- the run is determined by the graph ---------------------------------------------------

  lemma CursorIsUnique(c: seq<Neighbor>, i: nat, j: nat)
    requires CursorAt(c, i) && CursorAt(c, j)
    ensures i == j
  {
  }

  lemma ReflectionIsUnique(w: World, L: nat, s: Snapshot, t: Snapshot)
    requires Reflects(w, L, s) && Reflects(w, L, t) && s.visited == t.visited && s.expanded == t.expanded
    ensures s == t
  {
    TopIsUnique(s.queue, t.queue, Offers(w, s.visited), s.expanded, L);
    CursorIsUnique(s.queue, s.cur, t.cur);
  }

  lemma {:induction false} RunsAgreeAt(w: World, L: nat, eps: set<nat>, t1: seq<Snapshot>, t2: seq<Snapshot>, i: nat)
    requires Hops(w, L, eps, t1) && Hops(w, L, eps, t2) && i < |t1| && i < |t2|
    ensures t1[i] == t2[i]
  {
    if i == 0 {
      ReflectionIsUnique(w, L, t1[0], t2[0]);
    } else {
      RunsAgreeAt(w, L, eps, t1, t2, i - 1);
      assert Hop(w, L, t1[i - 1], t1[i]) && Hop(w, L, t2[i - 1], t2[i]);
      ReflectionIsUnique(w, L, t1[i], t2[i]);
    }
  }

  /** Two complete searches of the same graph go through the same queues, flags and cursors, hop by
      hop, in whatever order each of them scored the vertices of a hop. */
  lemma RunsAgree(w: World, L: nat, eps: set<nat>, t1: seq<Snapshot>, t2: seq<Snapshot>)
    requires Run(w, L, eps, t1) && Run(w, L, eps, t2)
    ensures t1 == t2
  {
    RunNotLonger(w, L, eps, t1, t2);
    RunNotLonger(w, L, eps, t2, t1);
    forall i | 0 <= i < |t1| ensures t1[i] == t2[i] {
      RunsAgreeAt(w, L, eps, t1, t2, i);
    }
  }

  lemma RunNotLonger(w: World, L: nat, eps: set<nat>, t1: seq<Snapshot>, t2: seq<Snapshot>)
    requires Run(w, L, eps, t1) && Run(w, L, eps, t2)
    ensures |t1| <= |t2|
  {
    if |t2| < |t1| {
      var i := |t2| - 1;
      assert Hop(w, L, t1[i], t1[i + 1]);
      RunsAgreeAt(w, L, eps, t1, t2, i);
    }
  }

  // ----- what a complete search has found -----------------------------------------------------

  ghost predicate ClosedUnder(w: World, r: set<nat>) {
    r <= w.nbrs.Keys && forall x :: x in r && x in w.nbrs ==> Out(w, x) <= r
  }

  /** r is the set of vertices reachable from eps: the least closed set that contains eps. */
  ghost predicate IsReach(w: World, eps: set<nat>, r: set<nat>) {
    && eps <= r && ClosedUnder(w, r)
    && forall r' :: eps <= r' && ClosedUnder(w, r') ==> r <= r'
  }

  lemma AllIsClosed(w: World)
    requires ValidWorld(w)
    ensures ClosedUnder(w, w.nbrs.Keys)
  {
    forall x, y | x in w.nbrs && y in Out(w, x) ensures y in w.nbrs {
      var i :| 0 <= i < |w.nbrs[x]| && w.nbrs[x][i] == y;
    }
  }

  /** Along every search: only reachable vertices are visited, the entry points are, and whatever was
      expanded has all its neighbours visited. */
  lemma {:induction false} HopsInvariant(w: World, L: nat, eps: set<nat>, t: seq<Snapshot>, r: set<nat>, i: nat)
    requires Hops(w, L, eps, t) && i < |t| && eps <= r && ClosedUnder(w, r)
    ensures eps <= t[i].visited <= r
    ensures forall x :: x in t[i].expanded && x in w.nbrs ==> Out(w, x) <= t[i].visited
  {
    if i > 0 {
      HopsInvariant(w, L, eps, t, r, i - 1);
      assert Hop(w, L, t[i - 1], t[i]);
      var c := t[i - 1].queue;
      assert c[t[i - 1].cur].item in Offers(w, t[i - 1].visited);
    }
  }

  /** At exit the queue holds the L least of all visited vertices, each retained vertex is expanded,
      and all its out-neighbours were visited. */
  lemma LocallyOptimal(w: World, L: nat, eps: set<nat>, t: seq<Snapshot>)
    requires ValidWorld(w) && Run(w, L, eps, t)
    ensures var s := t[|t| - 1];
            && IsTop(s.queue, Offers(w, s.visited), L)
            && (forall i :: 0 <= i < |s.queue| ==> s.queue[i].expanded && s.queue[i].item in w.nbrs
                                                   && Out(w, s.queue[i].item) <= s.visited)
  {
    var s := t[|t| - 1];
    AllIsClosed(w);
    assert Start(w, L, eps, t[0]);
    assert Reflects(w, L, s) by {
      if |t| > 1 { assert Hop(w, L, t[|t| - 2], t[|t| - 1]); }
    }
    HopsInvariant(w, L, eps, t, w.nbrs.Keys, |t| - 1);
    forall i | 0 <= i < |s.queue|
      ensures s.queue[i].expanded && s.queue[i].item in w.nbrs && Out(w, s.queue[i].item) <= s.visited
    {
      assert s.queue[i].item in Offers(w, s.visited);
    }
  }

  /** A queue at least as large as the reachable set makes the search exhaustive and exact: the queue
      is the whole reachable set in order of distance. */
  lemma ExactWhenLarge(w: World, L: nat, eps: set<nat>, t: seq<Snapshot>, r: set<nat>)
    requires ValidWorld(w) && Run(w, L, eps, t) && IsReach(w, eps, r) && |r| <= L
    ensures t[|t| - 1].visited == r
    ensures Sorted(t[|t| - 1].queue) && Items(t[|t| - 1].queue) == r
  {
    var s := t[|t| - 1];
    HopsInvariant(w, L, eps, t, r, |t| - 1);
    LocallyOptimal(w, L, eps, t);
    SmallQueueKeepsAll(s.queue, Offers(w, s.visited), L, s.visited, r);
    forall x | x in s.visited && x in w.nbrs ensures Out(w, x) <= s.visited {
      var i :| 0 <= i < |s.queue| && s.queue[i].item == x;
    }
    assert ClosedUnder(w, s.visited);
  }

  /** A queue that was never offered more than its capacity has everything. */
  lemma SmallQueueKeepsAll(c: seq<Neighbor>, offered: map<nat, real>, L: nat, s: set<nat>, r: set<nat>)
    requires IsTop(c, offered, L) && offered.Keys == s && s <= r && |r| <= L
    ensures Items(c) == s
  {
    TopIsDistinct(c, offered, L);
    assert Items(c) <= s;
    assert r == s + (r - s);
    forall x | x in s ensures x in Items(c) {
      if x !in Items(c) {
        SubsetSize(Items(c), s);
      }
    }
  }

  /** The first k entries of a sorted queue over r are the k nearest of r. */
  lemma PrefixIsNearest(c: seq<Neighbor>, r: set<nat>, k: nat, x: nat)
    requires Sorted(c) && Items(c) == r && k <= |c|
    requires x in r && x !in ItemsTo(c, k)
    ensures exists j :: k <= j < |c| && c[j].item == x && forall i :: 0 <= i < k ==> Less(c[i], c[j])
  {
    var j :| 0 <= j < |c| && c[j].item == x;
    assert k <= j;
  }

  /** The vertices reachable from eps. */
  ghost function Reach(w: World, eps: set<nat>): set<nat> {
    set x | x in w.nbrs && forall r :: eps <= r && ClosedUnder(w, r) ==> x in r
  }

  lemma ReachIsReach(w: World, eps: set<nat>)
    requires ValidWorld(w) && eps <= w.nbrs.Keys
    ensures IsReach(w, eps, Reach(w, eps))
  {
    var r := Reach(w, eps);
    AllIsClosed(w);
    forall x | x in r && x in w.nbrs ensures Out(w, x) <= r {
      forall y | y in Out(w, x) ensures y in r {
        forall r' | eps <= r' && ClosedUnder(w, r') ensures y in r' {
          assert x in r';
        }
      }
    }
  }

  /** xs are the k nearest of r, or all of r if it is smaller, nearest first; the smaller number is the
      nearer of two vertices at the same distance. */
  ghost predicate Nearest(w: World, r: set<nat>, xs: seq<nat>, k: nat) {
    && r <= w.dist.Keys && |xs| == (if k <= |r| then k else |r|)
    && (forall i :: 0 <= i < |xs| ==> xs[i] in r)
    && (forall i, j :: 0 <= i < j < |xs| ==> Nearer(w, xs[i], xs[j]))
    && (forall x :: x in r && x !in xs ==> forall i :: 0 <= i < |xs| ==> Nearer(w, xs[i], x))
  }

  ghost predicate Nearer(w: World, x: nat, y: nat) {
    x in w.dist && y in w.dist && (w.dist[x] < w.dist[y] || (w.dist[x] == w.dist[y] && x < y))
  }

  /** With a queue at least as large as the reachable set the first k entries are the exact k nearest
      reachable vertices, at their distances. */
  lemma ExactNearest(w: World, L: nat, eps: set<nat>, t: seq<Snapshot>, k: nat) returns (xs: seq<nat>)
    requires ValidWorld(w) && eps <= w.nbrs.Keys && Run(w, L, eps, t) && |Reach(w, eps)| <= L
    ensures Nearest(w, Reach(w, eps), xs, k) && |xs| <= |t[|t| - 1].queue|
    ensures |xs| == if k <= |t[|t| - 1].queue| then k else |t[|t| - 1].queue|
    ensures forall i :: 0 <= i < |xs| ==>
              t[|t| - 1].queue[i].item == xs[i] && t[|t| - 1].queue[i].distance == w.dist[xs[i]]
  {
    hide Hop, Start, ClosedUnder, CursorAt, FlagsAre, Nearest;
    var r, s := Reach(w, eps), t[|t| - 1];
    ReachIsReach(w, eps);
    ExactWhenLarge(w, L, eps, t, r);
    LastReflects(w, L, eps, t);
    TopIsDistinct(s.queue, Offers(w, s.visited), L);
    xs := FirstAreNearest(w, s.queue, r, k);
  }

  lemma FirstAreNearest(w: World, c: seq<Neighbor>, r: set<nat>, k: nat) returns (xs: seq<nat>)
    requires Sorted(c) && Items(c) == r && |c| == |r|
    requires forall i :: 0 <= i < |c| ==> c[i].item in w.dist && c[i].distance == w.dist[c[i].item]
    ensures Nearest(w, r, xs, k) && |xs| == (if k <= |c| then k else |c|)
    ensures forall i :: 0 <= i < |xs| ==> c[i].item == xs[i] && c[i].distance == w.dist[xs[i]]
  {
    var m := if k <= |c| then k else |c|;
    xs := seq(m, i requires 0 <= i < m => c[i].item);
    forall i | 0 <= i < |c| ensures c[i].item in r {
      assert c[i].item in Items(c);
    }
    forall x, i | x in r && x !in xs && 0 <= i < |xs| ensures Nearer(w, xs[i], x) {
      BeyondPrefix(c, xs, x);
      PrefixIsNearest(c, r, m, x);
    }
  }

  lemma BeyondPrefix(c: seq<Neighbor>, xs: seq<nat>, x: nat)
    requires |xs| <= |c| && x !in xs && forall i :: 0 <= i < |xs| ==> xs[i] == c[i].item
    ensures x !in ItemsTo(c, |xs|)
  {
    forall j | 0 <= j < |xs| ensures c[j].item != x {
      assert xs[j] in xs;
    }
  }

  lemma LastReflects(w: World, L: nat, eps: set<nat>, t: seq<Snapshot>)
    requires Hops(w, L, eps, t)
    ensures Reflects(w, L, t[|t| - 1])
  {
    if |t| > 1 { assert Hop(w, L, t[|t| - 2], t[|t| - 2 + 1]); }
  }

  /** Vertices visited after everything in the queue was expanded push nothing back in: what the queue then
      holds of the earlier ones is expanded. */
  lemma LateOnly(w: World, L: nat, s0: Snapshot, s1: Snapshot)
    requires Reflects(w, L, s0) && Reflects(w, L, s1) && s0.cur == |s0.queue|
    requires s0.expanded == s1.expanded && s0.visited <= s1.visited
    ensures forall i :: 0 <= i < |s1.queue| && s1.queue[i].item in s0.visited ==> s1.queue[i].expanded
  {
    forall i | 0 <= i < |s1.queue| && s1.queue[i].item in s0.visited ensures s1.queue[i].expanded {
      StaysIn(s0.queue, s1.queue, Offers(w, s0.visited), Offers(w, s1.visited), L, i);
    }
  }

  /** With more offers an item can leave the queue, but not come back. */
  lemma StaysIn(c0: seq<Neighbor>, c1: seq<Neighbor>, o0: map<nat, real>, o1: map<nat, real>, L: nat, i: nat)
    requires IsTop(c0, o0, L) && IsTop(c1, o1, L) && i < |c1| && c1[i].item in o0
    requires forall x :: x in o0 ==> x in o1 && o1[x] == o0[x]
    ensures c1[i].item in Items(c0)
  {
    var y := c1[i].item;
    if y !in Items(c0) {
      forall x | x in Items(c0) ensures x in Items(c1) {
        var j :| 0 <= j < |c0| && c0[j].item == x;
        OutIsBeyond(c0, o0, L, y, j);
        OutIsBeyond(c1, o1, L, x, i);
      }
      TopIsDistinct(c0, o0, L);
      TopIsDistinct(c1, o1, L);
      assert y in Items(c1);
      SubsetSize(Items(c0) + {y}, Items(c1));
    }
  }

  // ----- renaming vertices --------------------------------------------------------------------

  /** w2 is w1 with every vertex x renamed to place[x]. */
  ghost predicate Renamed(w1: World, w2: World, place: map<nat, nat>) {
    && place.Keys == w1.dist.Keys == w1.nbrs.Keys
    && (forall x, y :: x in place && y in place && x != y ==> place[x] != place[y])
    && (forall x :: x in place ==> place[x] in w2.dist && place[x] in w2.nbrs && w2.dist[place[x]] == w1.dist[x])
    && (forall x :: x in place ==> Out(w1, x) <= place.Keys && Out(w2, place[x]) == Rename(place, Out(w1, x)))
  }

  ghost predicate TieFree(w: World) {
    forall x, y :: x in w.dist && y in w.dist && x != y ==> w.dist[x] != w.dist[y]
  }

  ghost function Rename(place: map<nat, nat>, s: set<nat>): set<nat>
    requires s <= place.Keys
  {
    set x | x in s :: place[x]
  }

  ghost function RenameQueue(place: map<nat, nat>, c: seq<Neighbor>): seq<Neighbor>
    requires Items(c) <= place.Keys
  {
    seq(|c|, i requires 0 <= i < |c| =>
      assert c[i].item in Items(c);
      Neighbor(place[c[i].item], c[i].distance, c[i].expanded))
  }

  ghost predicate Named(place: map<nat, nat>, s: Snapshot) {
    Items(s.queue) <= place.Keys && s.visited <= place.Keys && s.expanded <= place.Keys
  }

  ghost function RenameSnapshot(place: map<nat, nat>, s: Snapshot): Snapshot
    requires Named(place, s)
  {
    Snapshot(RenameQueue(place, s.queue), s.cur, Rename(place, s.visited), Rename(place, s.expanded))
  }

  lemma ReflectedIsNamed(w1: World, w2: World, place: map<nat, nat>, L: nat, s: Snapshot)
    requires Renamed(w1, w2, place) && Reflects(w1, L, s)
    ensures Named(place, s)
  {
    forall x | x in Items(s.queue) ensures x in place {
      var i :| 0 <= i < |s.queue| && s.queue[i].item == x;
      assert s.queue[i].item in Offers(w1, s.visited);
    }
  }

  /** Without ties the order does not look at the names. */
  lemma RenamedTop(w1: World, w2: World, place: map<nat, nat>, L: nat, s: Snapshot)
    requires Renamed(w1, w2, place) && TieFree(w1) && Reflects(w1, L, s) && Named(place, s)
    ensures IsTop(RenameQueue(place, s.queue), Offers(w2, Rename(place, s.visited)), L)
  {
    var c, c' := s.queue, RenameQueue(place, s.queue);
    var o, o' := Offers(w1, s.visited), Offers(w2, Rename(place, s.visited));
    TopIsDistinct(c, o, L);
    forall i | 0 <= i < |c'| ensures c'[i].item in o' && c'[i].distance == o'[c'[i].item] {
      assert c[i].item in o;
      assert place[c[i].item] in Rename(place, s.visited);
    }
    forall i, j | 0 <= i < j < |c'| ensures Less(c'[i], c'[j]) {
      assert c[i].item in o && c[j].item in o && Less(c[i], c[j]) && c[i].item != c[j].item;
    }
    forall y | y in o' ensures y in Items(c') || (|c'| == L && Beyond(c', y, o'[y])) {
      var x :| x in s.visited && place[x] == y;
      assert x in o;
      if x in Items(c) {
        var i :| 0 <= i < |c| && c[i].item == x;
        assert c'[i].item == y;
      } else {
        forall i | 0 <= i < |c'| ensures Less(c'[i], Neighbor(y, o'[y], false)) {
          assert Less(c[i], Neighbor(x, o[x], false)) && c[i].item in o;
        }
      }
    }
  }

  lemma RenamedReflects(w1: World, w2: World, place: map<nat, nat>, L: nat, s: Snapshot)
    requires Renamed(w1, w2, place) && TieFree(w1) && Reflects(w1, L, s) && Named(place, s)
    ensures Reflects(w2, L, RenameSnapshot(place, s))
  {
    RenamedTop(w1, w2, place, L, s);
    var s' := RenameSnapshot(place, s);
    forall i | 0 <= i < |s'.queue| ensures s'.queue[i].expanded <==> s'.queue[i].item in s'.expanded {
      assert s.queue[i].item in Items(s.queue);
    }
  }

  lemma RenamedHop(w1: World, w2: World, place: map<nat, nat>, L: nat, s: Snapshot, t: Snapshot)
    requires Renamed(w1, w2, place) && TieFree(w1) && Hop(w1, L, s, t) && Named(place, s) && Named(place, t)
    ensures Hop(w2, L, RenameSnapshot(place, s), RenameSnapshot(place, t))
  {
    hide IsTop, FlagsAre, CursorAt, Offers;
    RenamedReflects(w1, w2, place, L, s);
    RenamedReflects(w1, w2, place, L, t);
    var n := s.queue[s.cur].item;
    assert n in Items(s.queue);
    RenameUnion(place, s.visited, Out(w1, n));
    RenameUnion(place, s.expanded, {n});
    assert Rename(place, {n}) == {place[n]};
  }

  lemma RenameUnion(place: map<nat, nat>, a: set<nat>, b: set<nat>)
    requires a <= place.Keys && b <= place.Keys
    ensures Rename(place, a + b) == Rename(place, a) + Rename(place, b)
  {
  }

  /** With tie-free distances a search of the renamed graph is the renamed search. */
  lemma RenamedRun(w1: World, w2: World, place: map<nat, nat>, L: nat, ep: nat, t1: seq<Snapshot>, t2: seq<Snapshot>)
    requires Renamed(w1, w2, place) && TieFree(w1) && ep in place
    requires Run(w1, L, {ep}, t1) && Run(w2, L, {place[ep]}, t2)
    ensures |t1| == |t2|
    ensures forall i :: 0 <= i < |t1| ==> Named(place, t1[i]) && t2[i] == RenameSnapshot(place, t1[i])
  {
    forall i | 0 <= i < |t1| ensures Named(place, t1[i]) {
      assert i > 0 ==> Hop(w1, L, t1[i - 1], t1[i]);
      ReflectedIsNamed(w1, w2, place, L, t1[i]);
    }
    var t := seq(|t1|, i requires 0 <= i < |t1| => RenameSnapshot(place, t1[i]));
    RenamedReflects(w1, w2, place, L, t1[0]);
    assert Rename(place, {ep}) == {place[ep]};
    forall i | 0 <= i < |t| - 1 ensures Hop(w2, L, t[i], t[i + 1]) {
      RenamedHop(w1, w2, place, L, t1[i], t1[i + 1]);
    }
    RunsAgree(w2, L, {place[ep]}, t, t2);
  }
}
