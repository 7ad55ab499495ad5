/** The beam search over bucket memory, where a vertex is the `size` bytes of its slot. */
module BucketSearch {
  import opened Common
  import opened NeighborQueue
  import opened BeamSearch
  import opened RecordLayout
  import opened LocalSearch
  import opened BucketBuild

  /** Memory of all buckets (or servers), slot size and vector length. */
  datatype Space = Space(mem: seq<seq<byte>>, size: nat, vecBytes: nat) {
    ghost predicate Has(item: nat) {
      Server(item) < |mem| && Offset(size, Local(item)) + size <= |mem[Server(item)]|
    }

    /** The bytes of an item's slot. */
    ghost function Slot(item: nat): (s: seq<byte>)
      requires Has(item)
      ensures |s| == size
    {
      mem[Server(item)][Offset(size, Local(item))..Offset(size, Local(item)) + size]
    }

    ghost predicate Valid() {
      && (forall item: nat :: Has(item) ==> RecordLayout.Holds(Slot(item), 0, vecBytes))
      && (forall item: nat, i :: Has(item) && 0 <= i < |Refs(item)| ==> Has(Refs(item)[i]))
    }

    /** The neighbour items that an item's slot lists. */
    ghost function Refs(item: nat): seq<nat>
      requires Has(item)
    {
      if RecordLayout.Holds(Slot(item), 0, vecBytes) then ItemsOf(DecRecord(Slot(item), 0, vecBytes).refs) else []
    }

    ghost function ToWorld(compare: Vector -> real): World {
      World(map item: nat | item < |mem| * WORD && Has(item) :: Refs(item),
            map item: nat | item < |mem| * WORD && Has(item) :: compare(VectorOf(item)))
    }

    ghost function VectorOf(item: nat): Vector
      requires Has(item)
    {
      if vecBytes <= size then Slot(item)[..vecBytes] else []
    }
  }

  function ItemOf(r: Ref): nat {
    Pack(r.server, r.lid)
  }

  function ItemsOf(rs: seq<Ref>): (items: seq<nat>)
    ensures |items| == |rs|
  {
    seq(|rs|, i requires 0 <= i < |rs| => ItemOf(rs[i]))
  }

  lemma InWorld(sp: Space, compare: Vector -> real, item: nat)
    ensures var w := sp.ToWorld(compare);
            (item in w.nbrs <==> sp.Has(item)) && (item in w.dist <==> sp.Has(item))
    ensures sp.Has(item) ==> sp.ToWorld(compare).nbrs[item] == sp.Refs(item)
                             && sp.ToWorld(compare).dist[item] == compare(sp.VectorOf(item))
  {
    UnpackPack(item);
    if Server(item) < |sp.mem| {
      assert item < |sp.mem| * WORD;
    }
  }

  lemma WorldIsValid(sp: Space, compare: Vector -> real)
    requires sp.Valid()
    ensures ValidWorld(sp.ToWorld(compare))
  {
    var w := sp.ToWorld(compare);
    forall x | x in w.nbrs || x in w.dist ensures x in w.nbrs && x in w.dist {
      InWorld(sp, compare, x);
    }
    forall x, i | x in w.nbrs && 0 <= i < |w.nbrs[x]| ensures w.nbrs[x][i] in w.nbrs {
      InWorld(sp, compare, x);
      InWorld(sp, compare, w.nbrs[x][i]);
    }
  }

  // ----- reading ------------------------------------------------------------------------------

  /** Walks the neighbour list of a vertex record, taking each field where the pointer stands. */
  method DecodeNeighbors(vertex: seq<byte>, vecBytes: nat) returns (items: seq<nat>)
    requires RecordLayout.Holds(vertex, 0, vecBytes)
    ensures items == ItemsOf(DecRecord(vertex, 0, vecBytes).refs)
  {
    var tmp := vecBytes + 4;
    var maxM := Dec32(vertex, tmp);
    tmp := tmp + 4;
    items := [];
    for m := 0 to maxM
      invariant tmp == vecBytes + 8 + REF_BYTES * m
      invariant items == ItemsOf(DecRefs(vertex, vecBytes + 8, m))
    {
      var vid := Dec32(vertex, tmp);
      tmp := tmp + 4;
      var server := vertex[tmp];
      tmp := tmp + 1;
      var lid := Dec32(vertex, tmp);
      tmp := tmp + 4;
      items := items + [Pack(server, lid)];
    }
  }

  /** The vertices of the scratch items. */
  method ReadSlots(sp: Space, scratch: seq<nat>) returns (vertices: seq<seq<byte>>)
    requires forall i :: 0 <= i < |scratch| ==> sp.Has(scratch[i])
    ensures |vertices| == |scratch| && forall i :: 0 <= i < |scratch| ==> vertices[i] == sp.Slot(scratch[i])
  {
    vertices := [];
    for i := 0 to |scratch|
      invariant |vertices| == i && forall j :: 0 <= j < i ==> vertices[j] == sp.Slot(scratch[j])
    {
      vertices := vertices + [GetVertex(sp, scratch[i])];
    }
  }

  function GetVertex(sp: Space, item: nat): seq<byte>
    requires sp.Has(item)
  {
    sp.mem[Server(item)][Offset(sp.size, Local(item))..Offset(sp.size, Local(item)) + sp.size]
  }

  /** The vector part of each vertex. */
  function VectorsOf(vertices: seq<seq<byte>>, vecBytes: nat): seq<Vector>
    requires forall i :: 0 <= i < |vertices| ==> vecBytes <= |vertices[i]|
  {
    seq(|vertices|, i requires 0 <= i < |vertices| => vertices[i][..vecBytes])
  }

  method VisitAll(sp: Space, compare: Vector -> real, q: NeighborPriorityQueue, items: seq<nat>, visited: set<nat>)
    returns (visited': set<nat>)
    requires sp.Valid() && InStep(sp.ToWorld(compare), q, visited) && forall i :: 0 <= i < |items| ==> sp.Has(items[i])
    modifies q
    ensures InStep(sp.ToWorld(compare), q, visited') && q.popped == old(q.popped)
    ensures visited' == visited + Elements(items)
  {
    ghost var w := sp.ToWorld(compare);
    var scratch;
    scratch, visited' := Gather(items, visited);
    var vertices := ReadSlots(sp, scratch);
    forall i | 0 <= i < |scratch|
      ensures sp.vecBytes <= |vertices[i]| && scratch[i] in w.dist && compare(vertices[i][..sp.vecBytes])
                == w.dist[scratch[i]]
    {
      InWorld(sp, compare, scratch[i]);
    }
    Score(q, scratch, VectorsOf(vertices, sp.vecBytes), compare, w, visited);
    assert visited + Elements(scratch) == visited';
  }

  method Expand(sp: Space, compare: Vector -> real, q: NeighborPriorityQueue,
                visited: set<nat>) returns (visited': set<nat>)
    requires sp.Valid() && InStep(sp.ToWorld(compare), q, visited) && q.HasUnexpandedNode()
    modifies q
    ensures InStep(sp.ToWorld(compare), q, visited')
    ensures Hop(sp.ToWorld(compare), q.capacity, old(Snap(q, visited)), Snap(q, visited'))
  {
    hide Consistent, Hop, Space.ToWorld, Space.Has, Space.Refs, Space.Valid, GetVertex, Elements, Out, IsTop, FlagsAre;
    ghost var w, s := sp.ToWorld(compare), Snap(q, visited);
    InStepReflects(w, q, visited);
    CursorIsVisited(w, q.capacity, s);
    var n := q.ClosestUnexpanded();
    InWorld(sp, compare, n.item);
    RefsExist(sp, compare, n.item);
    VertexDecodes(sp, n.item);
    var items := DecodeNeighbors(GetVertex(sp, n.item), sp.vecBytes);
    visited' := VisitAll(sp, compare, q, items, visited);
    HopDone(w, q, s, n.item, visited');
  }

  lemma VertexDecodes(sp: Space, item: nat)
    requires sp.Valid() && sp.Has(item)
    ensures RecordLayout.Holds(GetVertex(sp, item), 0, sp.vecBytes)
    ensures ItemsOf(DecRecord(GetVertex(sp, item), 0, sp.vecBytes).refs) == sp.Refs(item)
  {
    hide RecordLayout.Holds, DecRecord;
    assert GetVertex(sp, item) == sp.Slot(item);
  }

  lemma RefsExist(sp: Space, compare: Vector -> real, n: nat)
    requires sp.Valid() && sp.Has(n)
    ensures n in sp.ToWorld(compare).nbrs && Elements(sp.Refs(n)) == Out(sp.ToWorld(compare), n)
    ensures Elements(sp.Refs(n)) <= sp.ToWorld(compare).nbrs.Keys
    ensures forall i :: 0 <= i < |sp.Refs(n)| ==> sp.Has(sp.Refs(n)[i])
  {
    InWorld(sp, compare, n);
    forall x | x in Elements(sp.Refs(n)) ensures x in sp.ToWorld(compare).nbrs {
      InWorld(sp, compare, x);
    }
  }

  /** The labels of the first K entries of the final queue, or of all if it has fewer. */
  ghost predicate Labels(sp: Space, c: seq<Neighbor>, K: nat, indices: seq<nat>) {
    && |indices| == (if K <= |c| then K else |c|)
    && forall i :: 0 <= i < |indices| ==> LabelIs(sp, c[i].item, indices[i])
  }

  ghost predicate LabelIs(sp: Space, item: nat, tag: nat) {
    sp.Has(item) && sp.vecBytes + 4 <= sp.size && tag == Dec32(sp.Slot(item), sp.vecBytes)
  }

  method Results(sp: Space, q: NeighborPriorityQueue, k: nat) returns (indices: seq<nat>)
    requires k <= q.size <= |q.data| && sp.vecBytes + 4 <= sp.size
    requires forall i :: 0 <= i < k ==> sp.Has(q.data[i].item)
    ensures |indices| == k && forall i :: 0 <= i < k ==> indices[i] == Dec32(sp.Slot(q.data[i].item), sp.vecBytes)
  {
    indices := [];
    for i := 0 to k
      invariant |indices| == i
      invariant forall j :: 0 <= j < i ==> indices[j] == Dec32(sp.Slot(q.data[j].item), sp.vecBytes)
    {
      indices := indices + [Dec32(GetVertex(sp, q.data[i].item), sp.vecBytes)];
    }
  }

  ghost predicate InMemory(sp: Space, q: NeighborPriorityQueue)
    requires q.size <= |q.data|
    reads q
  {
    forall i :: 0 <= i < q.size ==> sp.Has(q.data[i].item) && sp.vecBytes + 8 <= sp.size
  }

  /** The entries of a queue in step are slots in memory. */
  lemma QueueIsInMemory(sp: Space, compare: Vector -> real, q: NeighborPriorityQueue, visited: set<nat>)
    requires sp.Valid() && InStep(sp.ToWorld(compare), q, visited)
    ensures InMemory(sp, q)
  {
    var w := sp.ToWorld(compare);
    InStepReflects(w, q, visited);
    QueueIsVisited(w, q.capacity, Snap(q, visited));
    forall i | 0 <= i < q.size ensures sp.Has(q.data[i].item) && sp.vecBytes + 8 <= sp.size {
      assert q.data[i] == q.Contents()[i];
      InWorld(sp, compare, q.data[i].item);
      assert RecordLayout.Holds(sp.Slot(q.data[i].item), 0, sp.vecBytes);
    }
  }

  /** The search on buckets: its hops are a complete run on the graph stored in memory. */
  method SearchBaseIndexOnBuckets(sp: Space, ep: nat, compare: Vector -> real, q: NeighborPriorityQueue, K: nat)
    returns (indices: seq<nat>, ghost t: seq<Snapshot>)
    requires q.Valid() && 0 < q.capacity && sp.Valid() && sp.Has(ep)
    modifies q
    ensures Run(sp.ToWorld(compare), q.capacity, {ep}, t)
    ensures Labels(sp, t[|t| - 1].queue, K, indices)
  {
    hide Consistent, Hop, IsTop, FlagsAre, Space.ToWorld, Space.Slot, Space.Refs, ValidWorld, Offset, Server, Local,
         Dec32;
    ghost var w := sp.ToWorld(compare);
    q.Clear();
    var visited := VisitAll(sp, compare, q, [ep], {});
    assert Elements([ep]) == {ep};
    InStepReflects(w, q, visited);
    t := [Snap(q, visited)];
    WorldIsValid(sp, compare);
    while q.HasUnexpandedNode()
      invariant InStep(w, q, visited) && Hops(w, q.capacity, {ep}, t) && t[|t| - 1] == Snap(q, visited)
      decreases w.nbrs.Keys - q.popped
    {
      ghost var s := Snap(q, visited);
      InStepReflects(w, q, visited);
      visited := Expand(sp, compare, q, visited);
      HopAdvances(w, q.capacity, s, Snap(q, visited));
      HopsExtend(w, q.capacity, {ep}, t, Snap(q, visited));
      t := t + [Snap(q, visited)];
    }
    InStepReflects(w, q, visited);
    QueueIsInMemory(sp, compare, q, visited);
    indices := Results(sp, q, if K <= q.size then K else q.size);
    assert forall i :: 0 <= i < q.size ==> q.data[i] == q.Contents()[i];
  }

  // ----- against the search on one index array -------------------------------------------------

  /** The single index array over the same vertices: what is stored for id is its vector, id as the
      label, and its graph neighbours. */
  function FlatIndex(x: Input): seq<Vertex>
    requires x.Valid()
  {
    seq(|x.graph|, id requires 0 <= id < |x.graph| => Vertex(x.vectors[id], id, x.graph[id]))
  }

  ghost function PlaceMap(place: seq<nat>): map<nat, nat> {
    map id: nat | id < |place| :: place[id]
  }

  function BuiltSpace(x: Input, mem: seq<seq<byte>>): Space {
    Space(mem, x.Size(), x.vecBytes)
  }

  /** The slot of a built vertex decodes, on its own, to the vertex. */
  lemma BuiltSlot(x: Input, place: seq<nat>, mem: seq<seq<byte>>, id: nat)
    requires Placed(x, place) && Sized(x, mem) && Stored(x, place, mem, |place|) && id < |place|
    ensures var sp := BuiltSpace(x, mem);
            && sp.Has(place[id]) && RecordLayout.Holds(sp.Slot(place[id]), 0, x.vecBytes)
            && DecRecord(sp.Slot(place[id]), 0, x.vecBytes) == Record(x.vectors[id], id, RefsTo(place, x.graph[id]))
  {
    hide Offset, IsNumbering, DecRecord, Stored, Sized, RecordLayout.Holds;
    SlotDecodes(x, place, mem, id);
  }

  lemma RefsToItems(place: seq<nat>, neighbors: seq<nat>)
    requires forall i :: 0 <= i < |neighbors| ==> neighbors[i] < |place|
    ensures |ItemsOf(RefsTo(place, neighbors))| == |neighbors|
    ensures forall i :: 0 <= i < |neighbors| ==> ItemsOf(RefsTo(place, neighbors))[i] == place[neighbors[i]]
  {
    forall i | 0 <= i < |neighbors| ensures ItemsOf(RefsTo(place, neighbors))[i] == place[neighbors[i]] {
      UnpackPack(place[neighbors[i]]);
    }
  }

  /** What a built item holds, by vertex id. */
  lemma BuiltVertex(x: Input, place: seq<nat>, mem: seq<seq<byte>>, compare: Vector -> real, id: nat)
    requires Placed(x, place) && Sized(x, mem) && Stored(x, place, mem, |place|) && id < |place|
    ensures var sp := BuiltSpace(x, mem);
            && sp.Has(place[id]) && sp.VectorOf(place[id]) == x.vectors[id]
            && sp.vecBytes + 4 <= sp.size && Dec32(sp.Slot(place[id]), sp.vecBytes) == id
            && |sp.Refs(place[id])| == |x.graph[id]|
            && forall i :: 0 <= i < |x.graph[id]| ==> sp.Refs(place[id])[i] == place[x.graph[id][i]]
  {
    BuiltSlot(x, place, mem, id);
    RefsToItems(place, x.graph[id]);
    var sp := BuiltSpace(x, mem);
    assert sp.Slot(place[id])[0..0 + x.vecBytes] == sp.Slot(place[id])[..x.vecBytes];
  }

  lemma BuiltSpaceIsValid(x: Input, place: seq<nat>, mem: seq<seq<byte>>)
    requires Placed(x, place) && Sized(x, mem) && Stored(x, place, mem, |place|)
    ensures BuiltSpace(x, mem).Valid()
    ensures forall item :: BuiltSpace(x, mem).Has(item) ==> exists id :: 0 <= id < |place| && place[id] == item
  {
    var sp := BuiltSpace(x, mem);
    forall item: nat | sp.Has(item)
      ensures exists id :: 0 <= id < |place| && place[id] == item
      ensures RecordLayout.Holds(sp.Slot(item), 0, x.vecBytes)
      ensures forall i :: 0 <= i < |sp.Refs(item)| ==> sp.Has(sp.Refs(item)[i])
    {
      EverySlotIsAPlace(x, place, mem, item);
      var id :| 0 <= id < |place| && place[id] == item;
      BuiltSlot(x, place, mem, id);
      BuiltVertex(x, place, mem, _ => 0.0, id);
      forall i | 0 <= i < |sp.Refs(item)| ensures sp.Has(sp.Refs(item)[i]) {
        BuiltSlot(x, place, mem, x.graph[id][i]);
      }
    }
  }

  lemma ElementsMapped(place: seq<nat>, a: seq<nat>, b: seq<nat>)
    requires |a| == |b| && forall i :: 0 <= i < |a| ==> a[i] < |place| && b[i] == place[a[i]]
    ensures Elements(a) <= PlaceMap(place).Keys && Elements(b) == Rename(PlaceMap(place), Elements(a))
  {
    forall y | y in Elements(b) ensures y in Rename(PlaceMap(place), Elements(a)) {
      var i :| 0 <= i < |b| && b[i] == y;
      assert a[i] in Elements(a);
    }
  }

  lemma BuiltPlace(x: Input, place: seq<nat>, mem: seq<seq<byte>>, compare: Vector -> real, id: nat)
    requires Placed(x, place) && Sized(x, mem) && Stored(x, place, mem, |place|) && id < |place|
    ensures var w1, w2, p := FlatWorld(FlatIndex(x), compare), BuiltSpace(x, mem).ToWorld(compare), PlaceMap(place);
            && place[id] in w2.dist && place[id] in w2.nbrs && w2.dist[place[id]] == w1.dist[id]
            && Out(w1, id) <= p.Keys && Out(w2, place[id]) == Rename(p, Out(w1, id))
  {
    hide Stored, Members, Space.Slot, Space.Refs, Space.Has;
    var w1, sp := FlatWorld(FlatIndex(x), compare), BuiltSpace(x, mem);
    BuiltVertex(x, place, mem, compare, id);
    InWorld(sp, compare, place[id]);
    ElementsMapped(place, x.graph[id], sp.Refs(place[id]));
    assert Out(w1, id) == Elements(x.graph[id]);
    assert Out(sp.ToWorld(compare), place[id]) == Elements(sp.Refs(place[id]));
  }

  lemma PlacesDiffer(x: Input, place: seq<nat>, i: nat, j: nat)
    requires Placed(x, place) && i < |place| && j < |place| && i != j
    ensures place[i] != place[j]
  {
    NumberingIsBijection(x.bucketOf, place, i);
    NumberingIsBijection(x.bucketOf, place, j);
  }

  /** The graph in memory is the given graph with every vertex renamed to its place. */
  lemma BuiltIsRenamed(x: Input, place: seq<nat>, mem: seq<seq<byte>>, compare: Vector -> real)
    requires Placed(x, place) && Sized(x, mem) && Stored(x, place, mem, |place|)
    ensures Renamed(FlatWorld(FlatIndex(x), compare), BuiltSpace(x, mem).ToWorld(compare), PlaceMap(place))
  {
    hide Stored, Members, Space.ToWorld, Out, Rename;
    var w1, w2, p := FlatWorld(FlatIndex(x), compare), BuiltSpace(x, mem).ToWorld(compare), PlaceMap(place);
    forall i, j | i in p && j in p && i != j ensures p[i] != p[j] {
      PlacesDiffer(x, place, i, j);
    }
    forall id | id in p
      ensures p[id] in w2.dist && p[id] in w2.nbrs && w2.dist[p[id]] == w1.dist[id]
      ensures Out(w1, id) <= p.Keys && Out(w2, p[id]) == Rename(p, Out(w1, id))
    {
      BuiltPlace(x, place, mem, compare, id);
    }
  }

  /** With tie-free distances the search on the built buckets goes through the flat search's queues,
      item by item through the placement, and reports the same labels. */
  lemma BucketSearchIsFlatSearch(x: Input, place: seq<nat>, mem: seq<seq<byte>>, compare: Vector -> real, L: nat,
                                 ep: nat, K: nat,
                                 t1: seq<Snapshot>, labels1: seq<nat>, distances: seq<real>, t2: seq<Snapshot>,
                                 labels2: seq<nat>)
    requires Placed(x, place) && Sized(x, mem) && Stored(x, place, mem, |place|) && ep < |place|
    requires TieFree(FlatWorld(FlatIndex(x), compare))
    requires Run(FlatWorld(FlatIndex(x), compare), L, {ep}, t1)
    requires Reports(FlatIndex(x), t1[|t1| - 1].queue, K, labels1, distances)
    requires Run(BuiltSpace(x, mem).ToWorld(compare), L, {place[ep]}, t2)
    requires Labels(BuiltSpace(x, mem), t2[|t2| - 1].queue, K, labels2)
    ensures |t1| == |t2|
    ensures forall i :: 0 <= i < |t1| ==>
              Named(PlaceMap(place), t1[i]) && t2[i] == RenameSnapshot(PlaceMap(place), t1[i])
    ensures labels1 == labels2
  {
    hide Hop, Space.ToWorld, IsNumbering, Reflects, Stored, RecordAt;
    BuiltIsRenamed(x, place, mem, compare);
    RenamedRun(FlatWorld(FlatIndex(x), compare), BuiltSpace(x, mem).ToWorld(compare), PlaceMap(place), L, ep, t1, t2);
    var c1, c2 := t1[|t1| - 1].queue, t2[|t2| - 1].queue;
    forall i | 0 <= i < |labels1| ensures labels1[i] == labels2[i] {
      assert c1[i].item in Items(c1);
      BuiltVertex(x, place, mem, compare, c1[i].item);
    }
  }
}
