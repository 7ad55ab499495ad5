/** The search over one index array. A vertex record holds the vector, the label and the neighbour list;
    `compare` is the distance of a vector from the query. What keeps a queue in step with the visited
    vertices is shared with the other searches. */
module LocalSearch {
  import opened Common
  import opened NeighborQueue
  import opened BeamSearch
  import opened RecordLayout

  type Vector = seq<byte>

  // ----- what the searches have in common -----------------------------------------------------

  /** The queue as it reflects the visited vertices. */
  ghost predicate InStep(w: World, q: NeighborPriorityQueue, visited: set<nat>)
    reads q
  {
    q.Valid() && q.coherent && 0 < q.capacity && visited <= w.dist.Keys && q.offered == Offers(w, visited)
  }

  ghost function Snap(q: NeighborPriorityQueue, visited: set<nat>): Snapshot
    requires q.size <= |q.data|
    reads q
  {
    Snapshot(q.Contents(), q.cur, visited, q.popped)
  }

  /** The vertices of a neighbour list that were not visited yet, in order, and visited from now on. */
  method Gather(neighbors: seq<nat>, visited: set<nat>) returns (scratch: seq<nat>, visited': set<nat>)
    ensures visited' == visited + Elements(neighbors)
    ensures Elements(scratch) == visited' - visited
    ensures forall i, j :: 0 <= i < j < |scratch| ==> scratch[i] != scratch[j]
    ensures forall i :: 0 <= i < |scratch| ==> scratch[i] in neighbors
  {
    scratch, visited' := [], visited;
    for m := 0 to |neighbors|
      invariant visited' == visited + Elements(neighbors[..m])
      invariant Elements(scratch) == visited' - visited
      invariant forall i, j :: 0 <= i < j < |scratch| ==> scratch[i] != scratch[j]
      invariant forall i :: 0 <= i < |scratch| ==> scratch[i] in neighbors
    {
      var id := neighbors[m];
      assert neighbors[..m + 1] == neighbors[..m] + [id];
      ElementsSnoc(neighbors[..m], id);
      if id !in visited' {
        assert id !in Elements(scratch);
        ElementsSnoc(scratch, id);
        visited' := visited' + {id};
        scratch := scratch + [id];
      }
    }
    assert neighbors[..|neighbors|] == neighbors;
  }

  lemma OffersGrow(w: World, a: set<nat>, x: nat)
    requires a <= w.dist.Keys && x in w.dist
    ensures Offers(w, a + {x}) == Offers(w, a)[x := w.dist[x]]
    ensures x in Offers(w, a) ==> Offers(w, a)[x] == w.dist[x]
  {
  }

  /** Offers the scratch vertices to the queue with their distances. */
  method Score(q: NeighborPriorityQueue, scratch: seq<nat>, vectors: seq<Vector>, compare: Vector -> real,
               ghost w: World, ghost a: set<nat>)
    requires InStep(w, q, a) && |vectors| == |scratch|
    requires forall i :: 0 <= i < |scratch| ==> scratch[i] in w.dist && compare(vectors[i]) == w.dist[scratch[i]]
    modifies q
    ensures InStep(w, q, a + Elements(scratch)) && q.popped == old(q.popped)
  {
    hide Consistent, InsertedAt, Splits, Refused;
    for m := 0 to |scratch|
      invariant InStep(w, q, a + Elements(scratch[..m])) && q.popped == old(q.popped)
    {
      assert scratch[..m + 1] == scratch[..m] + [scratch[m]];
      ElementsSnoc(scratch[..m], scratch[m]);
      ghost var b := a + Elements(scratch[..m]);
      OffersGrow(w, b, scratch[m]);
      assert a + Elements(scratch[..m + 1]) == b + {scratch[m]};
      var dist := compare(vectors[m]);
      var succ, at := q.Insert(Neighbor(scratch[m], dist, false));
    }
    assert scratch[..|scratch|] == scratch;
  }

  lemma InStepReflects(w: World, q: NeighborPriorityQueue, visited: set<nat>)
    requires InStep(w, q, visited)
    ensures Reflects(w, q.capacity, Snap(q, visited))
  {
  }

  /** The hop from the state before an entry was popped to the state after its neighbours were scored. */
  lemma HopDone(w: World, q: NeighborPriorityQueue, s: Snapshot, n: nat, visited: set<nat>)
    requires InStep(w, q, visited) && Reflects(w, q.capacity, s)
    requires s.cur < |s.queue| && s.queue[s.cur].item == n && n in w.nbrs
    requires visited == s.visited + Out(w, n) && q.popped == s.expanded + {n}
    ensures Hop(w, q.capacity, s, Snap(q, visited))
  {
    InStepReflects(w, q, visited);
  }

  /** The entry under the cursor is a visited vertex. */
  lemma CursorIsVisited(w: World, L: nat, s: Snapshot)
    requires Reflects(w, L, s) && s.cur < |s.queue|
    ensures s.queue[s.cur].item in s.visited && s.queue[s.cur].item !in s.expanded
  {
    assert s.queue[s.cur].item in Offers(w, s.visited);
  }

  /** A hop expands one more vertex. */
  lemma HopAdvances(w: World, L: nat, s: Snapshot, s': Snapshot)
    requires Hop(w, L, s, s')
    ensures s.expanded < s'.expanded && (w.nbrs.Keys == w.dist.Keys ==> s'.expanded <= w.nbrs.Keys)
              && s'.cur <= |s'.queue|
  {
    CursorIsVisited(w, L, s);
  }

  // ----- one index array ----------------------------------------------------------------------

  datatype Vertex = Vertex(vector: Vector, tag: nat, neighbors: seq<nat>)

  ghost predicate ValidIndex(index: seq<Vertex>) {
    forall x, i :: 0 <= x < |index| && 0 <= i < |index[x].neighbors| ==> index[x].neighbors[i] < |index|
  }

  ghost function FlatWorld(index: seq<Vertex>, compare: Vector -> real): World {
    World(map x: nat | x < |index| :: index[x].neighbors, map x: nat | x < |index| :: compare(index[x].vector))
  }

  /** Reads the vectors of the scratch vertices. */
  method ReadVectors(index: seq<Vertex>, scratch: seq<nat>) returns (vectors: seq<Vector>)
    requires forall i :: 0 <= i < |scratch| ==> scratch[i] < |index|
    ensures |vectors| == |scratch| && forall i :: 0 <= i < |scratch| ==> vectors[i] == index[scratch[i]].vector
  {
    vectors := [];
    for i := 0 to |scratch|
      invariant |vectors| == i && forall j :: 0 <= j < i ==> vectors[j] == index[scratch[j]].vector
    {
      vectors := vectors + [index[scratch[i]].vector];
    }
  }

  /** Visits what is new in a neighbour list and scores it. */
  method VisitAll(index: seq<Vertex>, compare: Vector -> real, q: NeighborPriorityQueue, neighbors: seq<nat>,
                  visited: set<nat>)
    returns (visited': set<nat>)
    requires InStep(FlatWorld(index, compare), q, visited) && forall i :: 0 <= i < |neighbors| ==>
               neighbors[i] < |index|
    modifies q
    ensures InStep(FlatWorld(index, compare), q, visited') && q.popped == old(q.popped)
    ensures visited' == visited + Elements(neighbors)
  {
    var scratch;
    scratch, visited' := Gather(neighbors, visited);
    var vectors := ReadVectors(index, scratch);
    Score(q, scratch, vectors, compare, FlatWorld(index, compare), visited);
    assert visited + Elements(scratch) == visited';
  }

  /** One hop of the search. */
  method Expand(index: seq<Vertex>, compare: Vector -> real, q: NeighborPriorityQueue, visited: set<nat>)
    returns (visited': set<nat>)
    requires ValidIndex(index) && InStep(FlatWorld(index, compare), q, visited) && q.HasUnexpandedNode()
    modifies q
    ensures InStep(FlatWorld(index, compare), q, visited')
    ensures Hop(FlatWorld(index, compare), q.capacity, old(Snap(q, visited)), Snap(q, visited'))
  {
    hide Consistent, Hop;
    ghost var w, s := FlatWorld(index, compare), Snap(q, visited);
    InStepReflects(w, q, visited);
    CursorIsVisited(w, q.capacity, s);
    var n := q.ClosestUnexpanded();
    visited' := VisitAll(index, compare, q, index[n.item].neighbors, visited);
    assert Out(w, n.item) == Elements(index[n.item].neighbors);
    HopDone(w, q, s, n.item, visited');
  }

  /** The labels and distances of the first k entries of the queue. */
  method Results(index: seq<Vertex>, q: NeighborPriorityQueue, k: nat) returns (indices: seq<nat>, distances: seq<real>)
    requires k <= q.size <= |q.data| && forall i :: 0 <= i < q.size ==> q.data[i].item < |index|
    ensures |indices| == |distances| == k
    ensures forall i :: 0 <= i < k ==> indices[i] == index[q.data[i].item].tag && distances[i] == q.data[i].distance
  {
    indices, distances := [], [];
    for i := 0 to k
      invariant |indices| == |distances| == i
      invariant forall j :: 0 <= j < i ==> indices[j] == index[q.data[j].item].tag && distances[j] == q.data[j].distance
    {
      indices := indices + [index[q.data[i].item].tag];
      distances := distances + [q.data[i].distance];
    }
  }

  lemma QueueIsVisited(w: World, L: nat, s: Snapshot)
    requires Reflects(w, L, s)
    ensures forall i :: 0 <= i < |s.queue| ==> s.queue[i].item in s.visited && s.queue[i].item in w.dist
  {
    forall i | 0 <= i < |s.queue| ensures s.queue[i].item in s.visited && s.queue[i].item in w.dist {
      assert s.queue[i].item in Offers(w, s.visited);
    }
  }

  /** What a search reports: labels and distances of the first K entries of the final queue, or of all
      if it has fewer. */
  ghost predicate Reports(index: seq<Vertex>, c: seq<Neighbor>, K: nat, indices: seq<nat>, distances: seq<real>) {
    && |indices| == |distances| == (if K <= |c| then K else |c|)
    && forall i :: 0 <= i < |indices| ==> c[i].item < |index| && indices[i] == index[c[i].item].tag
                                          && distances[i] == c[i].distance
  }

  /** The beam search from entry point ep: its hops are a complete run on the index. */
  method SearchBaseIndex(index: seq<Vertex>, ep: nat, compare: Vector -> real, q: NeighborPriorityQueue, K: nat)
    returns (indices: seq<nat>, distances: seq<real>, ghost t: seq<Snapshot>)
    requires q.Valid() && 0 < q.capacity && ValidIndex(index) && ep < |index|
    modifies q
    ensures Run(FlatWorld(index, compare), q.capacity, {ep}, t)
    ensures Reports(index, t[|t| - 1].queue, K, indices, distances)
  {
    hide Consistent, Hop, IsTop, FlagsAre;
    ghost var w := FlatWorld(index, compare);
    q.Clear();
    var visited := VisitAll(index, compare, q, [ep], {});
    assert Elements([ep]) == {ep};
    InStepReflects(w, q, visited);
    t := [Snap(q, visited)];
    while q.HasUnexpandedNode()
      invariant InStep(w, q, visited) && Hops(w, q.capacity, {ep}, t) && t[|t| - 1] == Snap(q, visited)
      decreases w.nbrs.Keys - q.popped
    {
      ghost var s := Snap(q, visited);
      InStepReflects(w, q, visited);
      visited := Expand(index, compare, q, visited);
      HopAdvances(w, q.capacity, s, Snap(q, visited));
      HopsExtend(w, q.capacity, {ep}, t, Snap(q, visited));
      t := t + [Snap(q, visited)];
    }
    InStepReflects(w, q, visited);
    QueueIsVisited(w, q.capacity, Snap(q, visited));
    assert forall i :: 0 <= i < q.size ==> q.data[i] == q.Contents()[i];
    indices, distances := Results(index, q, if K <= q.size then K else q.size);
  }

  lemma FlatWorldIsValid(index: seq<Vertex>, compare: Vector -> real)
    requires ValidIndex(index)
    ensures ValidWorld(FlatWorld(index, compare))
  {
  }

  /** A search whose queue can hold every vertex reachable from the entry point reports the labels and
      distances of the exact K nearest of them, nearest first. */
  lemma ReportsNearest(index: seq<Vertex>, ep: nat, compare: Vector -> real, L: nat, K: nat, t: seq<Snapshot>,
                       indices: seq<nat>, distances: seq<real>) returns (xs: seq<nat>)
    requires ValidIndex(index) && ep < |index| && Run(FlatWorld(index, compare), L, {ep}, t)
    requires |Reach(FlatWorld(index, compare), {ep})| <= L
    requires Reports(index, t[|t| - 1].queue, K, indices, distances)
    ensures Nearest(FlatWorld(index, compare), Reach(FlatWorld(index, compare), {ep}), xs, K)
    ensures |indices| == |distances| == |xs| && forall i :: 0 <= i < |xs| ==>
              xs[i] < |index| && indices[i] == index[xs[i]].tag && distances[i] == compare(index[xs[i]].vector)
  {
    hide Run, Nearest, Reach;
    FlatWorldIsValid(index, compare);
    xs := ExactNearest(FlatWorld(index, compare), L, {ep}, t, K);
  }
}
