/** What the distributed search does, independent of how it reads its vertices: an iteration expands the
    closest unexpanded entry, leaves out remote neighbours that look too far, scores the local ones at
    once, and the remote ones of the iteration `relax` steps before. */
module RelaxedSearch {
  import opened Common
  import opened NeighborQueue
  import opened BeamSearch
  import opened RecordLayout

  /** The graph, the size of the queue, the server that searches, how many batches stay in flight, and
      the quantised distances by which remote vertices are judged before they are read. */
  datatype Setting = Setting(w: World, L: nat, sid: nat, relax: nat, quantised: nat -> real)

  /** The state between two iterations. The snapshot reflects the vertices scored so far; seen are those
      that the search has come across; flight are the remote vertices of the batches in flight, oldest
      batch first. */
  datatype Stage = Stage(s: Snapshot, seen: set<nat>, flight: seq<set<nat>>)

  ghost function AtHome(sid: nat, a: set<nat>): set<nat> {
    set x | x in a && Server(x) == sid
  }

  ghost function Abroad(sid: nat, a: set<nat>): set<nat> {
    set x | x in a && Server(x) != sid
  }

  ghost function Union(f: seq<set<nat>>): set<nat> {
    set j, x | 0 <= j < |f| && x in f[j] :: x
  }

  /** A vertex is kept if it is local, or the queue is not full, or its quantised distance is below the
      largest distance in the queue times 1.1. */
  ghost predicate Kept(k: Setting, c: seq<Neighbor>, x: nat) {
    Server(x) == k.sid || |c| < k.L || (c != [] && k.quantised(x) < c[|c| - 1].distance * 1.1)
  }

  /** There is a vertex to expand. */
  ghost predicate GoesOn(k: Setting, z: Stage) {
    z.s.cur < |z.s.queue| && z.s.queue[z.s.cur].item in k.w.nbrs
  }

  /** The neighbours of the vertex that is expanded next. */
  ghost function Reached(k: Setting, z: Stage): set<nat> {
    if GoesOn(k, z) then Out(k.w, z.s.queue[z.s.cur].item) else {}
  }

  /** What its expansion comes across for the first time and keeps. */
  ghost function Fresh(k: Setting, z: Stage): set<nat> {
    KeptOf(k, z.s.queue, Reached(k, z), z.seen)
  }

  ghost function KeptOf(k: Setting, c: seq<Neighbor>, reached: set<nat>, seen: set<nat>): set<nat> {
    set x | x in reached && x !in seen && Kept(k, c, x)
  }

  /** One iteration: the batch of the expansion is sent, its local vertices are scored; once more than
      relax batches are in flight, the oldest arrives and is scored. */
  ghost predicate Step(k: Setting, z: Stage, z': Stage) {
    && Reflects(k.w, k.L, z.s) && Reflects(k.w, k.L, z'.s) && GoesOn(k, z)
    && z'.seen == z.seen + Reached(k, z) && z'.s.expanded == z.s.expanded + {z.s.queue[z.s.cur].item}
    && var sent := z.flight + [Abroad(k.sid, Fresh(k, z))];
       var scored := z.s.visited + AtHome(k.sid, Fresh(k, z));
       if |z.flight| < k.relax then z'.flight == sent && z'.s.visited == scored
       else z'.flight == sent[1..] && z'.s.visited == scored + sent[0]
  }

  /** The two halves of an iteration: the expansion, and the arrival of the oldest batch. */
  ghost predicate Departed(k: Setting, z: Stage, z': Stage) {
    && GoesOn(k, z) && z'.seen == z.seen + Reached(k, z)
    && z'.s.expanded == z.s.expanded + {z.s.queue[z.s.cur].item}
    && z'.flight == z.flight + [Abroad(k.sid, Fresh(k, z))]
    && z'.s.visited == z.s.visited + AtHome(k.sid, Fresh(k, z))
  }

  ghost predicate Arrived(z: Stage, z': Stage) {
    && z.flight != [] && z'.flight == z.flight[1..] && z'.s.visited == z.s.visited + z.flight[0]
    && z'.seen == z.seen && z'.s.expanded == z.s.expanded
  }

  lemma HalvesStep(k: Setting, z: Stage, m: Stage, z': Stage)
    requires Reflects(k.w, k.L, z.s) && Reflects(k.w, k.L, z'.s) && Departed(k, z, m)
    requires if |z.flight| < k.relax then z' == m else Arrived(m, z')
    ensures Step(k, z, z')
  {
    hide Reflects, Fresh, Reached, AtHome, Abroad;
  }

  ghost predicate Steps(k: Setting, eps: set<nat>, t: seq<Stage>) {
    && |t| > 0 && Start(k.w, k.L, eps, t[0].s) && t[0].seen == eps && t[0].flight == []
    && forall i :: 0 <= i < |t| - 1 ==> Step(k, t[i], t[i + 1])
  }

  /** The iterations of a whole search: they stop when nothing in the queue is unexpanded. */
  ghost predicate Course(k: Setting, eps: set<nat>, t: seq<Stage>) {
    Steps(k, eps, t) && t[|t| - 1].s.cur == |t[|t| - 1].s.queue|
  }

  /** What has been scored or is in flight. */
  ghost function Accepted(z: Stage): set<nat> {
    z.s.visited + Union(z.flight)
  }

  lemma StepsExtend(k: Setting, eps: set<nat>, t: seq<Stage>, z: Stage)
    requires Steps(k, eps, t) && Step(k, t[|t| - 1], z)
    ensures Steps(k, eps, t + [z])
  {
    hide Step;
    var t' := t + [z];
    forall i | 0 <= i < |t'| - 1 ensures Step(k, t'[i], t'[i + 1]) {
      if i < |t| - 1 { assert Step(k, t[i], t[i + 1]); }
    }
  }

  lemma StageReflects(k: Setting, eps: set<nat>, t: seq<Stage>)
    requires Steps(k, eps, t)
    ensures Reflects(k.w, k.L, t[|t| - 1].s)
  {
    hide Reflects, Fresh, Reached;
    if |t| > 1 { assert Step(k, t[|t| - 2], t[|t| - 2 + 1]); }
  }

  // ----- the course is determined by the setting ------------------------------------------------

  lemma StepIsUnique(k: Setting, z: Stage, z1: Stage, z2: Stage)
    requires Step(k, z, z1) && Step(k, z, z2)
    ensures z1 == z2
  {
    hide Reflects, Fresh, Reached, AtHome, Abroad;
    ReflectionIsUnique(k.w, k.L, z1.s, z2.s);
  }

  lemma {:induction false} CoursesAgreeAt(k: Setting, eps: set<nat>, t1: seq<Stage>, t2: seq<Stage>, i: nat)
    requires Steps(k, eps, t1) && Steps(k, eps, t2) && i < |t1| && i < |t2|
    ensures t1[i] == t2[i]
  {
    hide Step;
    if i == 0 {
      ReflectionIsUnique(k.w, k.L, t1[0].s, t2[0].s);
    } else {
      CoursesAgreeAt(k, eps, t1, t2, i - 1);
      assert Step(k, t1[i - 1], t1[i - 1 + 1]) && Step(k, t2[i - 1], t2[i - 1 + 1]);
      StepIsUnique(k, t1[i - 1], t1[i], t2[i]);
    }
  }

  /** Whatever the network does, two searches of one setting go through the same queues, come across the
      same vertices and have the same batches in flight, iteration by iteration. */
  lemma CoursesAgree(k: Setting, eps: set<nat>, t1: seq<Stage>, t2: seq<Stage>)
    requires Course(k, eps, t1) && Course(k, eps, t2)
    ensures t1 == t2
  {
    hide Steps;
    CourseNotLonger(k, eps, t1, t2);
    CourseNotLonger(k, eps, t2, t1);
    forall i | 0 <= i < |t1| ensures t1[i] == t2[i] {
      CoursesAgreeAt(k, eps, t1, t2, i);
    }
  }

  lemma CourseNotLonger(k: Setting, eps: set<nat>, t1: seq<Stage>, t2: seq<Stage>)
    requires Course(k, eps, t1) && Course(k, eps, t2)
    ensures |t1| <= |t2|
  {
    hide Reflects, Fresh, Reached;
    if |t2| < |t1| {
      var i := |t2| - 1;
      assert Step(k, t1[i], t1[i + 1]);
      CoursesAgreeAt(k, eps, t1, t2, i);
    }
  }

  // ----- the schedule ---------------------------------------------------------------------------

  /** The last relax batches, or all if there are fewer, are in flight, in order. */
  ghost predicate FlightIs(k: Setting, t: seq<Stage>, i: nat) {
    && i < |t| && |t[i].flight| == (if i < k.relax then i else k.relax)
    && forall j :: 0 <= j < |t[i].flight| ==> t[i].flight[j] == Abroad(k.sid, Fresh(k, t[i - |t[i].flight| + j]))
  }

  lemma {:induction false} FlightAt(k: Setting, eps: set<nat>, t: seq<Stage>, i: nat)
    requires Steps(k, eps, t) && i < |t|
    ensures FlightIs(k, t, i)
  {
    hide Step, FlightIs, Abroad, Fresh;
    if i > 0 {
      FlightAt(k, eps, t, i - 1);
      assert Step(k, t[i - 1], t[i - 1 + 1]);
      InFlightNext(k, t, i - 1);
    } else {
      InFlightNone(k, t);
    }
  }

  lemma InFlightNone(k: Setting, t: seq<Stage>)
    requires |t| > 0 && t[0].flight == []
    ensures FlightIs(k, t, 0)
  {
  }

  lemma InFlightNext(k: Setting, t: seq<Stage>, i: nat)
    requires i + 1 < |t| && Step(k, t[i], t[i + 1]) && FlightIs(k, t, i)
    ensures FlightIs(k, t, i + 1)
  {
    hide Reflects, Fresh, Reached, Abroad, AtHome;
    var f, f' := t[i].flight, t[i + 1].flight;
    forall j | 0 <= j < |f'| ensures f'[j] == Abroad(k.sid, Fresh(k, t[i + 1 - |f'| + j])) {
      var dropped := if |f| < k.relax then 0 else 1;
      if j + dropped < |f| {
        assert f'[j] == f[j + dropped];
      }
    }
  }

  /** The remote vertices kept by the expansion of iteration i are scored in iteration i + relax, after
      the expansion of that iteration, and not before. */
  lemma ScoredLater(k: Setting, eps: set<nat>, t: seq<Stage>, i: nat)
    requires Steps(k, eps, t) && i + k.relax + 1 < |t|
    ensures var z, z' := t[i + k.relax], t[i + k.relax + 1];
            z'.s.visited == z.s.visited + AtHome(k.sid, Fresh(k, z)) + Abroad(k.sid, Fresh(k, t[i]))
  {
    hide Reflects, Fresh, Reached, Abroad, AtHome;
    FlightAt(k, eps, t, i + k.relax);
    assert Step(k, t[i + k.relax], t[i + k.relax + 1]);
    var z := t[i + k.relax];
    if k.relax > 0 {
      assert z.flight[0] == Abroad(k.sid, Fresh(k, t[i + k.relax - |z.flight| + 0]));
    }
  }

  // ----- what is kept ---------------------------------------------------------------------------

  /** What was scored or sent stays so, and more is seen. */
  lemma StepAccepts(k: Setting, z: Stage, z': Stage)
    requires Step(k, z, z')
    ensures Accepted(z') == Accepted(z) + Fresh(k, z) && z.seen <= z'.seen && z.s.visited <= z'.s.visited
  {
    hide Reflects, Fresh, Reached;
    var sent := z.flight + [Abroad(k.sid, Fresh(k, z))];
    UnionSnoc(z.flight, Abroad(k.sid, Fresh(k, z)));
    if |z.flight| >= k.relax { UnionFront(sent); }
    assert AtHome(k.sid, Fresh(k, z)) + Abroad(k.sid, Fresh(k, z)) == Fresh(k, z);
  }

  lemma UnionSnoc(f: seq<set<nat>>, a: set<nat>)
    ensures Union(f + [a]) == Union(f) + a
  {
    var g := f + [a];
    forall x ensures x in Union(g) <==> x in Union(f) + a {
      if x in Union(f) {
        var j :| 0 <= j < |f| && x in f[j];
        assert x in g[j];
      }
      if x in a { assert x in g[|f|]; }
    }
  }

  lemma UnionFront(f: seq<set<nat>>)
    requires f != []
    ensures Union(f) == f[0] + Union(f[1..])
  {
    var g := f[1..];
    forall x ensures x in Union(f) <==> x in f[0] + Union(g) {
      if x in Union(f) {
        var j :| 0 <= j < |f| && x in f[j];
        if j > 0 { assert x in g[j - 1]; }
      }
      if x in Union(g) {
        var j :| 0 <= j < |g| && x in g[j];
        assert x in f[j + 1];
      }
    }
  }

  /** Throughout: the entry points are scored, what is expanded was scored, what is accepted was seen,
      what was seen but not accepted is remote, and an expanded vertex has all its neighbours seen. */
  ghost predicate Explored(k: Setting, eps: set<nat>, z: Stage) {
    && eps <= z.s.visited && z.s.expanded <= z.s.visited && Accepted(z) <= z.seen
    && (forall x :: x in z.seen && x !in Accepted(z) ==> Server(x) != k.sid)
    && (forall x :: x in z.s.expanded ==> x in k.w.nbrs && Out(k.w, x) <= z.seen)
  }

  lemma {:induction false} AlwaysExplored(k: Setting, eps: set<nat>, t: seq<Stage>, i: nat)
    requires Steps(k, eps, t) && i < |t|
    ensures Explored(k, eps, t[i])
  {
    hide Server;
    if i > 0 {
      AlwaysExplored(k, eps, t, i - 1);
      assert Step(k, t[i - 1], t[i - 1 + 1]);
      ExploredNext(k, eps, t[i - 1], t[i]);
    }
  }

  lemma ExploredNext(k: Setting, eps: set<nat>, z: Stage, z': Stage)
    requires Explored(k, eps, z) && Step(k, z, z')
    ensures Explored(k, eps, z')
  {
    hide Server, Union, Accepted;
    StepAccepts(k, z, z');
    ScoredIn(k, z);
  }

  /** The vertex that is expanded next was scored. */
  lemma ScoredIn(k: Setting, z: Stage)
    requires Reflects(k.w, k.L, z.s) && GoesOn(k, z)
    ensures z.s.queue[z.s.cur].item in z.s.visited
  {
    assert z.s.queue[z.s.cur].item in Offers(k.w, z.s.visited);
  }

  /** A vertex that iteration i comes across first is accepted, then and ever after, exactly if it is kept
      by the queue of that iteration. */
  lemma {:induction false} AcceptedIff(k: Setting, eps: set<nat>, t: seq<Stage>, i: nat, j: nat, x: nat)
    requires Steps(k, eps, t) && i < j < |t| && x !in t[i].seen && x in t[i + 1].seen
    ensures x in Accepted(t[j]) <==> Kept(k, t[i].s.queue, x)
    ensures x in t[j].seen
  {
    hide Reflects, Kept, Accepted, Union;
    assert Step(k, t[j - 1], t[j - 1 + 1]);
    StepAccepts(k, t[j - 1], t[j]);
    if j == i + 1 {
      AlwaysExplored(k, eps, t, i);
      assert x !in Accepted(t[i]);
    } else {
      AcceptedIff(k, eps, t, i, j - 1, x);
    }
  }

  // ----- strict searches, and what leaving vertices out can cost ---------------------------------

  /** No quantised distance overestimates by 10% or more. */
  ghost predicate Lossless(k: Setting) {
    forall x :: x in k.w.dist ==> k.quantised(x) < k.w.dist[x] * 1.1
  }

  /** The snapshot of a search that scores everything it sees at once. */
  ghost function Strictly(z: Stage): Snapshot {
    Snapshot(z.s.queue, z.s.cur, z.seen, z.s.expanded)
  }

  ghost function StrictRun(t: seq<Stage>): seq<Snapshot> {
    seq(|t|, i requires 0 <= i < |t| => Strictly(t[i]))
  }

  /** With strict dependencies and such quantised distances, leaving vertices out changes nothing: the
      queues, flags and cursors are those of the beam search that scores every vertex it sees. */
  lemma LosslessIsStrict(k: Setting, eps: set<nat>, t: seq<Stage>)
    requires ValidWorld(k.w) && Course(k, eps, t) && k.relax == 0 && Lossless(k)
    ensures Run(k.w, k.L, eps, StrictRun(t))
  {
    hide Reflects, Step, Lossless;
    var u := StrictRun(t);
    NothingLost(k, eps, t, 0);
    forall i | 0 <= i < |u| - 1 ensures Hop(k.w, k.L, u[i], u[i + 1]) {
      NothingLost(k, eps, t, i);
      NothingLost(k, eps, t, i + 1);
      assert Step(k, t[i], t[i + 1]);
      StepHops(k, t[i], t[i + 1]);
    }
    assert Start(k.w, k.L, eps, u[0]);
  }

  lemma StepHops(k: Setting, z: Stage, z': Stage)
    requires Step(k, z, z') && Reflects(k.w, k.L, Strictly(z)) && Reflects(k.w, k.L, Strictly(z'))
    ensures Hop(k.w, k.L, Strictly(z), Strictly(z'))
  {
    hide Reflects, Fresh, Out;
  }

  lemma {:induction false} NothingLost(k: Setting, eps: set<nat>, t: seq<Stage>, i: nat)
    requires ValidWorld(k.w) && Steps(k, eps, t) && i < |t| && k.relax == 0 && Lossless(k)
    ensures t[i].flight == [] && Reflects(k.w, k.L, Strictly(t[i]))
  {
    hide Step, Reflects, Lossless;
    FlightAt(k, eps, t, i);
    if i > 0 {
      NothingLost(k, eps, t, i - 1);
      AlwaysExplored(k, eps, t, i);
      assert Step(k, t[i - 1], t[i - 1 + 1]);
      StepLosesNothing(k, t[i - 1], t[i]);
    }
  }

  lemma StepLosesNothing(k: Setting, z: Stage, z': Stage)
    requires ValidWorld(k.w) && Step(k, z, z') && k.relax == 0 && Lossless(k) && z.flight == []
    requires Reflects(k.w, k.L, Strictly(z)) && z'.s.visited <= z'.seen
    ensures Reflects(k.w, k.L, Strictly(z'))
  {
    hide FlagsAre, CursorAt, IsTop, Lossless, Kept;
    var kept := Fresh(k, z);
    assert AtHome(k.sid, kept) + Abroad(k.sid, kept) == kept;
    assert ([] + [Abroad(k.sid, kept)])[0] == Abroad(k.sid, kept);
    assert z'.s.visited == z.s.visited + kept;
    SeenExists(k, z);
    forall x | x in z'.seen && x !in z'.s.visited
      ensures |z'.s.queue| == k.L && Beyond(z'.s.queue, x, k.w.dist[x])
    {
      LeftOutIsBeyond(k, z, x);
      BeyondStays(z.s.queue, z'.s.queue, Offers(k.w, z.s.visited), Offers(k.w, z'.s.visited), k.L, x, k.w.dist[x]);
    }
    OffersMore(k.w, z'.s.queue, z'.s.visited, z'.seen, k.L);
  }

  lemma SeenExists(k: Setting, z: Stage)
    requires ValidWorld(k.w) && GoesOn(k, z)
    ensures Reached(k, z) <= k.w.dist.Keys
  {
    var n := z.s.queue[z.s.cur].item;
    forall y | y in Out(k.w, n) ensures y in k.w.dist {
      var i :| 0 <= i < |k.w.nbrs[n]| && k.w.nbrs[n][i] == y;
    }
  }

  lemma ItemsScored(k: Setting, s: Snapshot)
    requires Reflects(k.w, k.L, s)
    ensures Items(s.queue) <= s.visited
  {
    forall x | x in Items(s.queue) ensures x in s.visited {
      assert x in Offers(k.w, s.visited);
    }
  }

  /** What was seen but not scored, or is seen now and not kept, is beyond the end of the full queue. */
  lemma LeftOutIsBeyond(k: Setting, z: Stage, x: nat)
    requires Reflects(k.w, k.L, z.s) && Reflects(k.w, k.L, Strictly(z)) && Lossless(k) && GoesOn(k, z)
    requires x in z.seen + Reached(k, z) && x !in z.s.visited + Fresh(k, z) && x in k.w.dist
    ensures |z.s.queue| == k.L && Beyond(z.s.queue, x, k.w.dist[x])
  {
    var c := z.s.queue;
    if x in z.seen {
      assert x in Offers(k.w, z.seen);
      ItemsScored(k, z.s);
    } else {
      assert !Kept(k, c, x);
      assert k.quantised(x) < k.w.dist[x] * 1.1;
      assert c[|c| - 1].distance < k.w.dist[x];
      forall i | 0 <= i < |c| ensures Less(c[i], Neighbor(x, k.w.dist[x], false)) {
        assert i < |c| - 1 ==> Less(c[i], c[|c| - 1]);
      }
    }
  }

  /** What is beyond the end of a full queue stays so, whatever else is offered. */
  lemma BeyondStays(c0: seq<Neighbor>, c1: seq<Neighbor>, o0: map<nat, real>, o1: map<nat, real>, L: nat,
                    x: nat, d: real)
    requires IsTop(c0, o0, L) && IsTop(c1, o1, L) && (forall y :: y in o0 ==> y in o1 && o1[y] == o0[y])
    requires |c0| == L && Beyond(c0, x, d)
    ensures |c1| == L && Beyond(c1, x, d)
  {
    TopIsDistinct(c0, o0, L);
    TopIsDistinct(c1, o1, L);
    if Items(c0) <= Items(c1) {
      SubsetSize(Items(c0), Items(c1));
      forall i | 0 <= i < |c1| ensures Less(c1[i], Neighbor(x, d, false)) {
        assert c1[i].item in Items(c1);
        var j :| 0 <= j < |c0| && c0[j].item == c1[i].item;
        assert o0[c0[j].item] == o1[c1[i].item];
      }
    } else {
      var y :| y in Items(c0) && y !in Items(c1);
      var j :| 0 <= j < |c0| && c0[j].item == y;
      assert y in o1 && Beyond(c1, y, o1[y]);
      forall i | 0 <= i < |c1| ensures Less(c1[i], Neighbor(x, d, false)) {
        assert Less(c1[i], Neighbor(y, o1[y], false)) && Less(c0[j], Neighbor(x, d, false));
      }
    }
  }

  /** A queue of the best of some vertices is one of the best of more, if the others are beyond it. */
  lemma OffersMore(w: World, c: seq<Neighbor>, some: set<nat>, all: set<nat>, L: nat)
    requires IsTop(c, Offers(w, some), L) && some <= all <= w.dist.Keys
    requires forall x :: x in all && x !in some ==> |c| == L && Beyond(c, x, w.dist[x])
    ensures IsTop(c, Offers(w, all), L)
  {
    var o := Offers(w, all);
    forall x | x in o ensures x in Items(c) || (|c| == L && Beyond(c, x, o[x])) {
      if x in some { assert x in Offers(w, some); }
    }
  }
}
