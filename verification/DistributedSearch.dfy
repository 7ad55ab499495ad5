/** The distributed beam search: vertices of other servers are read over the network in batches, and
    with relaxed dependencies up to relax + 1 batches are in flight while the search goes on. */
module DistributedSearch {
  import opened Common
  import opened NeighborQueue
  import opened BeamSearch
  import opened RelaxedSearch
  import opened RecordLayout
  import opened LocalSearch
  import opened BucketBuild
  import opened BucketSearch
  import opened Rdma
  import opened GStore

  // ----- which items are scored when ----------------------------------------------------------

  datatype Part = All | LocalPart | RemotePart

  predicate InPart(part: Part, sid: nat, item: nat) {
    match part
    case All => true
    case LocalPart => Server(item) == sid
    case RemotePart => Server(item) != sid
  }

  ghost function Filter(items: seq<nat>, part: Part, sid: nat): seq<nat> {
    if items == [] then []
    else Filter(items[..|items| - 1], part, sid)
         + if InPart(part, sid, items[|items| - 1]) then [items[|items| - 1]] else []
  }

  lemma {:induction false} FilterParts(items: seq<nat>, sid: nat)
    ensures multiset(Filter(items, LocalPart, sid)) + multiset(Filter(items, RemotePart, sid)) == multiset(items)
  {
    hide InPart, Filter;
    if items == [] {
      FilterNothing(sid);
    } else {
      var k := |items| - 1;
      FilterParts(items[..k], sid);
      FilterLast(items, sid);
      PartsStep(items[..k], items[k], Filter(items[..k], LocalPart, sid), Filter(items[..k], RemotePart, sid));
      assert items == items[..k] + [items[k]];
    }
  }

  lemma FilterNothing(sid: nat)
    ensures Filter([], LocalPart, sid) == Filter([], RemotePart, sid) == []
  {
  }

  /** The last item is in one of the two parts. */
  lemma FilterLast(items: seq<nat>, sid: nat)
    requires items != []
    ensures var last, l, r := items[|items| - 1], Filter(items[..|items| - 1], LocalPart, sid),
                              Filter(items[..|items| - 1], RemotePart, sid);
            || (Filter(items, LocalPart, sid) == l + [last] && Filter(items, RemotePart, sid) == r)
            || (Filter(items, LocalPart, sid) == l && Filter(items, RemotePart, sid) == r + [last])
  {
  }

  lemma PartsStep(items: seq<nat>, x: nat, l: seq<nat>, r: seq<nat>)
    requires multiset(l) + multiset(r) == multiset(items)
    ensures multiset(l + [x]) + multiset(r) == multiset(l) + multiset(r + [x]) == multiset(items + [x])
  {
  }

  lemma {:induction false} FilterAll(items: seq<nat>, sid: nat)
    ensures Filter(items, All, sid) == items
  {
    if items != [] {
      FilterAll(items[..|items| - 1], sid);
    }
  }

  lemma {:induction false} DistinctMultiset(s: seq<nat>)
    requires forall i, j :: 0 <= i < j < |s| ==> s[i] != s[j]
    ensures multiset(s) == multiset(Elements(s))
  {
    if s != [] {
      var k := |s| - 1;
      DistinctMultiset(s[..k]);
      ElementsSnoc(s[..k], s[k]);
      assert s == s[..k] + [s[k]];
      assert s[k] !in Elements(s[..k]);
    }
  }

  /** Every accepted item is either scored, exactly once, or waits, exactly once, in a batch. */
  ghost predicate OnceEach(log: seq<nat>, pend: seq<nat>, accepted: set<nat>) {
    multiset(log) + multiset(pend) == multiset(accepted)
  }

  lemma OnceAccept(log: seq<nat>, pend: seq<nat>, accepted: set<nat>, scratch: seq<nat>, sid: nat)
    requires OnceEach(log, pend, accepted) && Elements(scratch) !! accepted
    requires forall i, j :: 0 <= i < j < |scratch| ==> scratch[i] != scratch[j]
    ensures OnceEach(log + Filter(scratch, LocalPart, sid), pend + Filter(scratch, RemotePart, sid),
              accepted + Elements(scratch))
  {
    FilterParts(scratch, sid);
    DistinctMultiset(scratch);
    assert multiset(accepted + Elements(scratch)) == multiset(accepted) + multiset(Elements(scratch));
  }

  lemma OnceIn(log: seq<nat>, pend: seq<nat>, accepted: set<nat>)
    requires OnceEach(log, pend, accepted)
    ensures Elements(log) <= accepted && Elements(pend) <= accepted
    ensures pend == [] ==> Elements(log) == accepted && forall i, j :: 0 <= i < j < |log| ==> log[i] != log[j]
  {
    forall x | x in Elements(log) || x in Elements(pend) ensures x in accepted {
      assert x in multiset(log) || x in multiset(pend);
      assert x in multiset(accepted);
    }
    if pend == [] {
      assert multiset(log) == multiset(accepted);
      forall x | x in accepted ensures x in Elements(log) {
        assert x in multiset(accepted);
      }
      forall i, j | 0 <= i < j < |log| ensures log[i] != log[j] {
        NoRepeat(log, accepted, i, j);
      }
    }
  }

  lemma NoRepeat(s: seq<nat>, a: set<nat>, i: nat, j: nat)
    requires multiset(s) == multiset(a) && i < j < |s|
    ensures s[i] != s[j]
  {
    assert s == s[..j] + s[j..];
    assert s[i] in s[..j] && s[j] in s[j..];
    assert multiset(s)[s[j]] == multiset(s[..j])[s[j]] + multiset(s[j..])[s[j]];
  }

  /** The remote items of the batches in flight, oldest batch first. */
  ghost function Pending(qi: seq<seq<nat>>, sid: nat): seq<nat> {
    if qi == [] then [] else Filter(qi[0], RemotePart, sid) + Pending(qi[1..], sid)
  }

  lemma {:induction false} PendingSnoc(qi: seq<seq<nat>>, items: seq<nat>, sid: nat)
    ensures Pending(qi + [items], sid) == Pending(qi, sid) + Filter(items, RemotePart, sid)
  {
    hide Filter;
    if qi == [] {
      assert qi + [items] == [items] && [items][1..] == [];
    } else {
      PendingSnoc(qi[1..], items, sid);
      assert (qi + [items])[1..] == qi[1..] + [items];
    }
  }

  // ----- queue and pointer cache --------------------------------------------------------------

  /** Every remote vertex in the queue has an entry in the thread's pointer cache. */
  ghost predicate CacheCovers(q: NeighborPriorityQueue, g: ThreadStore)
    requires q.size <= |q.data|
    reads q, g
  {
    forall x :: x in Items(q.Contents()) && Server(x) != g.sid ==> x in g.thdCache
  }

  lemma InsertedItems(c: seq<Neighbor>, lo: nat, nbr: Neighbor, capacity: nat)
    requires lo <= |c|
    ensures Items(InsertedAt(c, lo, nbr, capacity)) <= Items(c) + {nbr.item}
  {
    var c' := InsertedAt(c, lo, nbr, capacity);
    forall x | x in Items(c') ensures x in Items(c) + {nbr.item} {
      var i :| 0 <= i < |c'| && c'[i].item == x;
      if i < lo {
        assert c[i].item in Items(c);
      } else if i > lo {
        assert c[i - 1].item in Items(c);
      }
    }
  }

  lemma MarkedItems(c: seq<Neighbor>, cur: nat)
    requires cur < |c|
    ensures Items(c[cur := c[cur].(expanded := true)]) == Items(c)
  {
    var c' := c[cur := c[cur].(expanded := true)];
    forall x ensures x in Items(c') <==> x in Items(c) {
      if x in Items(c') {
        var i :| 0 <= i < |c'| && c'[i].item == x;
        assert c[i].item == x;
      }
      if x in Items(c) {
        var i :| 0 <= i < |c| && c[i].item == x;
        assert c'[i].item == x;
      }
    }
  }

  /** The pieces a step of the search works on are separate and in order. */
  ghost predicate Ready(q: NeighborPriorityQueue, g: ThreadStore, w: World, scored: seq<nat>)
    reads q, g, g.dev, g.cache
  {
    && g.Valid() && InStep(w, q, Elements(scored)) && CacheCovers(q, g)
  }

  /** Scores the items of the given part: reads each through its pointer, offers it to the queue, and
      remembers the pointers of remote vertices that the queue took. */
  method ScorePart(q: NeighborPriorityQueue, g: ThreadStore, items: seq<nat>, ptrs: seq<Ptr>, part: Part,
                   compare: Vector -> real, ghost log: seq<nat>) returns (ghost log': seq<nat>)
    requires g.dev.sp.Valid() && Ready(q, g, g.dev.sp.ToWorld(compare), log) && |ptrs| == |items|
    requires forall i :: 0 <= i < |items| ==> g.dev.sp.Has(items[i])
    requires forall i :: 0 <= i < |items| && InPart(part, g.sid, items[i]) ==> g.Readable(ptrs[i], items[i])
    modifies q, g`thdCache, g.dev`sq, g.dev`cq, g.dev`buf
    ensures Ready(q, g, g.dev.sp.ToWorld(compare), log') && log' == log + Filter(items, part, g.sid)
    ensures q.popped == old(q.popped) && |g.dev.buf| == old(|g.dev.buf|)
    ensures forall p, y :: old(g.Readable(p, y)) ==> g.Readable(p, y)
    ensures forall p, y, b :: old(g.FromBatch(p, y, b)) ==> g.FromBatch(p, y, b)
  {
    hide Consistent, NetOk, CacheOk, Pipeline, Landed, Space.Valid, Space.ToWorld, Server, InStep, CacheCovers;
    ghost var w := g.dev.sp.ToWorld(compare);
    log' := log;
    for m := 0 to |items|
      invariant Ready(q, g, w, log') && log' == log + Filter(items[..m], part, g.sid)
      invariant q.popped == old(q.popped) && |g.dev.buf| == old(|g.dev.buf|)
      invariant forall p, y :: old(g.Readable(p, y)) ==> g.Readable(p, y)
      invariant forall p, y, b :: old(g.FromBatch(p, y, b)) ==> g.FromBatch(p, y, b)
    {
      g.NetworkRuns();
      var item, ptr := items[m], ptrs[m];
      assert items[..m + 1][..m] == items[..m];
      if !InPart(part, g.sid, item) {
        continue;
      }
      ScoreOne(q, g, item, ptr, compare, log');
      log' := log' + [item];
    }
    assert items[..|items|] == items;
  }

  /** The distance computed from a vertex's own slot is its distance. */
  lemma SlotDistance(sp: Space, compare: Vector -> real, item: nat)
    requires sp.Valid() && sp.Has(item)
    ensures sp.vecBytes <= |sp.Slot(item)| && item in sp.ToWorld(compare).dist
    ensures compare(sp.Slot(item)[..sp.vecBytes]) == sp.ToWorld(compare).dist[item]
  {
    InWorld(sp, compare, item);
    assert RecordLayout.Holds(sp.Slot(item), 0, sp.vecBytes);
  }

  /** Scores one vertex through its pointer. */
  method ScoreOne(q: NeighborPriorityQueue, g: ThreadStore, item: nat, ptr: Ptr, compare: Vector -> real,
                  ghost log: seq<nat>)
    requires g.dev.sp.Valid() && Ready(q, g, g.dev.sp.ToWorld(compare), log)
    requires g.dev.sp.Has(item) && g.Readable(ptr, item)
    modifies q, g`thdCache
    ensures Ready(q, g, g.dev.sp.ToWorld(compare), log + [item])
    ensures q.popped == old(q.popped)
    ensures forall p, y :: old(g.Readable(p, y)) ==> g.Readable(p, y)
    ensures forall p, y, b :: old(g.FromBatch(p, y, b)) ==> g.FromBatch(p, y, b)
  {
    hide Consistent, NetOk, CacheOk, Pipeline, Landed, Refused, InsertedAt, Server, Less;
    hide Elements, Offers, Space.ToWorld;
    ghost var w, c := g.dev.sp.ToWorld(compare), q.Contents();
    ElementsSnoc(log, item);
    g.DerefIsSlot(ptr, item);
    SlotDistance(g.dev.sp, compare, item);
    OffersGrow(w, Elements(log), item);
    var dist := compare(g.Deref(ptr, item)[..g.dev.sp.vecBytes]);
    var succ, at := q.Insert(Neighbor(item, dist, false));
    if succ {
      InsertedItems(c, at, Neighbor(item, dist, false), q.capacity);
      g.UpdateThdCache(item, ptr);
    }
  }

  // ----- the steps of the search --------------------------------------------------------------

  /** boost::circular_buffer: a full buffer drops its oldest element. */
  function PushBack<T>(buffer: seq<T>, capacity: nat, x: T): seq<T>
    requires 0 < capacity
  {
    if |buffer| == capacity then buffer[1..] + [x] else buffer + [x]
  }

  /** The pointers of one batch belong to its items. */
  ghost predicate LaneOk(g: ThreadStore, items: seq<nat>, ptrs: seq<Ptr>, x: Batch)
    reads g, g.dev, g.cache
  {
    |items| == |ptrs| && forall i :: 0 <= i < |items| ==> g.FromBatch(ptrs[i], items[i], x)
  }

  /** The two queues of batches are aligned with each other and with the batches in flight. */
  ghost predicate Aligned(g: ThreadStore, qi: seq<seq<nat>>, qv: seq<seq<Ptr>>)
    reads g, g.dev, g.cache
  {
    |qi| == |qv| == |g.batches| && forall j :: 0 <= j < |qi| ==> LaneOk(g, qi[j], qv[j], g.batches[j])
  }

  /** So far no more buffer slots were used than items visited. */
  ghost predicate Frugal(g: ThreadStore, w: World, visited: set<nat>)
    reads g
  {
    g.usedSlots <= |visited| && visited <= w.nbrs.Keys
  }

  /** The buffer can hold every vertex once. */
  ghost predicate LargeBuffer(g: ThreadStore, w: World)
    reads g, g.dev
  {
    Offset(g.dev.sp.size, |w.nbrs|) < |g.dev.buf|
  }

  /** What the search used, with the batch it was about to read, does not fit in the buffer. */
  ghost predicate BufferFull(g: ThreadStore)
    reads g, g.dev
  {
    Offset(g.dev.sp.size, g.usedSlots) >= |g.dev.buf|
  }

  /** What every step keeps: accepted are the visited items that were not pruned. */
  ghost predicate SearchOk(q: NeighborPriorityQueue, g: ThreadStore, w: World, visited: set<nat>, accepted: set<nat>,
                           qi: seq<seq<nat>>, qv: seq<seq<Ptr>>, log: seq<nat>)
    reads q, g, g.dev, g.cache
  {
    && Ready(q, g, w, log) && Aligned(g, qi, qv) && Frugal(g, w, visited)
    && OnceEach(log, Pending(qi, g.sid), accepted) && accepted <= visited
  }

  /** What a search of this thread is about. */
  ghost function SettingOf(q: NeighborPriorityQueue, g: ThreadStore, compare: Vector -> real, relax: nat,
                           quantised: nat -> real): Setting {
    Setting(g.dev.sp.ToWorld(compare), q.capacity, g.sid, relax, quantised)
  }

  /** The remote vertices of every batch in flight. */
  ghost function Flights(qi: seq<seq<nat>>, sid: nat): seq<set<nat>> {
    seq(|qi|, j requires 0 <= j < |qi| => Abroad(sid, Elements(qi[j])))
  }

  ghost function StageOf(q: NeighborPriorityQueue, sid: nat, visited: set<nat>, qi: seq<seq<nat>>, log: seq<nat>): Stage
    requires q.size <= |q.data|
    reads q
  {
    Stage(Snap(q, Elements(log)), visited, Flights(qi, sid))
  }

  /** The neighbours that were not visited yet, in order, without the remote ones that, by their quantised
      distance, are too far for a full queue. */
  method GatherAccepted(q: NeighborPriorityQueue, sid: nat, items: seq<nat>, visited: set<nat>, quantised: nat -> real,
                        ghost k: Setting)
    returns (scratch: seq<nat>, visited': set<nat>)
    requires q.Valid() && 0 < q.capacity && k.L == q.capacity && k.sid == sid && k.quantised == quantised
    ensures visited' == visited + Elements(items) && |scratch| <= |items|
    ensures Elements(scratch) == KeptOf(k, q.Contents(), Elements(items), visited)
    ensures forall i, j :: 0 <= i < j < |scratch| ==> scratch[i] != scratch[j]
    ensures forall i :: 0 <= i < |scratch| ==> scratch[i] in items
  {
    hide Consistent;
    scratch, visited' := [], visited;
    for m := 0 to |items|
      invariant visited' == visited + Elements(items[..m]) && |scratch| <= m
      invariant Elements(scratch) == KeptOf(k, q.Contents(), Elements(items[..m]), visited)
      invariant forall i, j :: 0 <= i < j < |scratch| ==> scratch[i] != scratch[j]
      invariant forall i :: 0 <= i < |scratch| ==> scratch[i] in items
    {
      hide Server, Elements, KeptOf;
      var item := items[m];
      ElementsNext(items, m);
      ElementsSnoc(scratch, item);
      KeptNext(k, q.Contents(), Elements(items[..m]), visited, item);
      if item !in visited' {
        visited' := visited' + {item};
        if Server(item) == sid || q.size < q.capacity || quantised(item) < q.data[q.size - 1].distance * 1.1 {
          NewToScratch(scratch, KeptOf(k, q.Contents(), Elements(items[..m]), visited), item);
          scratch := scratch + [item];
        }
      }
    }
    assert items[..|items|] == items;
  }

  lemma KeptNext(k: Setting, c: seq<Neighbor>, reached: set<nat>, seen: set<nat>, x: nat)
    ensures KeptOf(k, c, reached + {x}, seen)
         == KeptOf(k, c, reached, seen) + if x !in seen && Kept(k, c, x) then {x} else {}
    ensures x !in seen + reached ==> x !in KeptOf(k, c, reached, seen)
    ensures x in reached && x !in seen && Kept(k, c, x) ==> x in KeptOf(k, c, reached, seen)
  {
  }

  lemma NewToScratch(scratch: seq<nat>, kept: set<nat>, x: nat)
    requires Elements(scratch) == kept && x !in kept
    ensures forall i :: 0 <= i < |scratch| ==> scratch[i] != x
  {
  }

  /** Pops the closest unexpanded vertex: a scored one, for which a pointer is known. */
  method PopClosest(q: NeighborPriorityQueue, g: ThreadStore, compare: Vector -> real,
                    ghost log: seq<nat>) returns (n: nat)
    requires Ready(q, g, g.dev.sp.ToWorld(compare), log) && q.HasUnexpandedNode()
    modifies q
    ensures Ready(q, g, g.dev.sp.ToWorld(compare), log)
    ensures n == old(q.Contents()[q.cur].item) && q.popped == old(q.popped) + {n} && n !in old(q.popped)
    ensures |q.Contents()| == |old(q.Contents())|
    ensures forall i :: 0 <= i < |q.Contents()| ==> q.Contents()[i].distance == old(q.Contents())[i].distance
    ensures g.dev.sp.Has(n) && n in Elements(log) && (Server(n) == g.sid || n in g.thdCache)
  {
    hide Consistent, NetOk, CacheOk, Pipeline, Landed, Less, Server, Space.ToWorld, Space.Has, IsTop, FlagsAre;
    ghost var c, cur := q.Contents(), q.cur;
    var nbr := q.ClosestUnexpanded();
    n := nbr.item;
    MarkedItems(c, cur);
    assert c[cur].item in Items(c);
    InWorld(g.dev.sp, compare, n);
  }

  /** Reads the neighbour list of a vertex through its pointer; ok is false where the source throws,
      which cannot happen for a local vertex or one with a cached pointer. */
  method ReadNeighbors(g: ThreadStore, n: nat) returns (ok: bool, items: seq<nat>)
    requires g.dev.sp.Valid() && g.Valid() && g.dev.sp.Has(n)
    ensures ok <==> Server(n) == g.sid || n in g.thdCache
    ensures ok ==> items == g.dev.sp.Refs(n)
  {
    hide NetOk, CacheOk, Pipeline, Landed, Server;
    var hit, ptr := g.GetVertex(n);
    if !hit {
      return false, [];
    }
    g.DerefIsSlot(ptr, n);
    items := DecodeNeighbors(g.Deref(ptr, n), g.dev.sp.vecBytes);
    return true, items;
  }

  lemma ScratchFits(visited: set<nat>, visited': set<nat>, scratch: seq<nat>)
    requires visited <= visited' && Elements(scratch) <= visited' - visited
    requires forall i, j :: 0 <= i < j < |scratch| ==> scratch[i] != scratch[j]
    ensures |visited| + |scratch| <= |visited'|
  {
    DistinctMultiset(scratch);
    assert |multiset(scratch)| == |scratch| && |multiset(Elements(scratch))| == |Elements(scratch)|;
    assert visited' == visited + Elements(scratch) + (visited' - visited - Elements(scratch));
  }

  /** A buffer for all vertices has room for the scratch items of a batch. */
  lemma HasRoom(g: ThreadStore, w: World, visited: set<nat>, visited': set<nat>, k: nat, room: nat)
    requires Frugal(g, w, visited) && |visited| + room <= |visited'| && visited' <= w.nbrs.Keys && k <= room
    requires LargeBuffer(g, w)
    ensures g.Room(k)
  {
    hide Offset;
    assert w.nbrs.Keys == visited' + (w.nbrs.Keys - visited') && |w.nbrs.Keys| == |w.nbrs|;
    assert g.usedSlots + k <= |w.nbrs|;
    if g.usedSlots + k < |w.nbrs| {
      OffsetGap(g.dev.sp.size, g.usedSlots + k, |w.nbrs|);
    }
  }

  /** Few items need few reads of any server. */
  lemma FewReads(sid: nat, table: map<nat, nat>, keys: seq<nat>, first: nat, n: nat)
    requires |keys| <= MAX_DOORBELL_SIZE
    ensures DoorbellsFit(Misses(sid, table, keys), first, n)
  {
    var fetched := Misses(sid, table, keys);
    forall s | 0 <= s < n ensures |On(fetched, s, first)| <= MAX_DOORBELL_SIZE {
      OnSlots(fetched, s, first);
    }
  }

  /** Posts the reads of a batch and appends it to both queues. */
  method PostBatch(q: NeighborPriorityQueue, g: ThreadStore, compare: Vector -> real, scratch: seq<nat>,
                   ghost visited: set<nat>, ghost visited': set<nat>, ghost accepted: set<nat>,
                   qi: seq<seq<nat>>, qv: seq<seq<Ptr>>, capacity: nat, ghost log: seq<nat>)
    returns (r: Outcome, ptrs: seq<Ptr>, qi': seq<seq<nat>>, qv': seq<seq<Ptr>>)
    requires SearchOk(q, g, g.dev.sp.ToWorld(compare), visited, accepted, qi, qv, log) && |qi| < capacity
    requires visited <= visited' <= g.dev.sp.ToWorld(compare).nbrs.Keys
    requires Elements(scratch) <= visited' - visited
    requires forall i, j :: 0 <= i < j < |scratch| ==> scratch[i] != scratch[j]
    requires forall i :: 0 <= i < |scratch| ==> g.dev.sp.Has(scratch[i])
    modifies g`usedSlots, g`thdPolls, g`batches, g.dev
    ensures r != CacheMiss && |g.dev.buf| == old(|g.dev.buf|)
    ensures r == NoRoom ==> BufferFull(g)
    ensures LargeBuffer(g, g.dev.sp.ToWorld(compare)) ==> r != NoRoom
    ensures |scratch| <= MAX_DOORBELL_SIZE ==> r != TooManyReads
    ensures r == Done ==> Ready(q, g, g.dev.sp.ToWorld(compare), log) && Aligned(g, qi', qv')
                          && Frugal(g, g.dev.sp.ToWorld(compare), visited')
    ensures r == Done ==> qi' == qi + [scratch] && qv' == qv + [ptrs] && |ptrs| == |scratch|
    ensures r == Done ==> forall i :: 0 <= i < |scratch| && Server(scratch[i]) == g.sid ==>
              g.Readable(ptrs[i], scratch[i])
    ensures g.dev.peak <= Larger(old(g.dev.peak), MAX_DOORBELL_SIZE * (|qi| + 1))
  {
    hide Consistent, NetOk, CacheOk, Pipeline, Landed, Server, Space.ToWorld, Space.Has, Offset, InStep, Pending,
         OnceEach;
    hide Misses, Assigned, DoorbellsFit;
    ghost var w, fetched := g.dev.sp.ToWorld(compare), Misses(g.sid, g.cache.cacheTable, scratch);
    ScratchFits(visited, visited', scratch);
    if LargeBuffer(g, w) { HasRoom(g, w, visited, visited', |fetched|, |scratch|); }
    if |scratch| <= MAX_DOORBELL_SIZE { FewReads(g.sid, g.cache.cacheTable, scratch, g.usedSlots, |g.dev.sp.mem|); }
    ghost var x;
    r, ptrs, x := g.GetVertexBatchAsync(scratch);
    if r != Done {
      return r, ptrs, qi, qv;
    }
    qi', qv' := PushBack(qi, capacity, scratch), PushBack(qv, capacity, ptrs);
    forall j | 0 <= j < |qi'| ensures LaneOk(g, qi'[j], qv'[j], g.batches[j]) {
      if j < |qi| {
        assert old(LaneOk(g, qi[j], qv[j], g.batches[j]));
      }
    }
  }

  /** No vertex has more neighbours than a doorbell takes. */
  ghost predicate SmallDegree(sp: Space) {
    forall item: nat :: sp.Has(item) ==> |sp.Refs(item)| <= 128
  }

  /** The expanding half of an iteration: the closest vertex is popped, its unvisited neighbours are
      visited and, unless pruned, accepted; their reads are posted; the local ones are scored. */
  method Advance(q: NeighborPriorityQueue, g: ThreadStore, compare: Vector -> real, quantised: nat -> real,
                 visited: set<nat>, qi: seq<seq<nat>>, qv: seq<seq<Ptr>>, capacity: nat,
                 ghost accepted: set<nat>, ghost log: seq<nat>, ghost k: Setting)
    returns (r: Outcome, visited': set<nat>, qi': seq<seq<nat>>, qv': seq<seq<Ptr>>,
             ghost n: nat, ghost accepted': set<nat>, ghost log': seq<nat>)
    requires g.dev.sp.Valid() && q.HasUnexpandedNode() && |qi| < capacity
    requires SearchOk(q, g, g.dev.sp.ToWorld(compare), visited, accepted, qi, qv, log)
    requires k == SettingOf(q, g, compare, k.relax, quantised)
    modifies q, g, g.dev
    ensures r != CacheMiss && |g.dev.buf| == old(|g.dev.buf|)
    ensures r == NoRoom ==> BufferFull(g)
    ensures LargeBuffer(g, g.dev.sp.ToWorld(compare)) ==> r != NoRoom
    ensures SmallDegree(g.dev.sp) ==> r != TooManyReads
    ensures r == Done ==> SearchOk(q, g, g.dev.sp.ToWorld(compare), visited', accepted', qi', qv', log')
    ensures r == Done ==> |qi'| == |qi| + 1
    ensures r == Done ==> Departed(k, old(StageOf(q, g.sid, visited, qi, log)), StageOf(q, g.sid, visited', qi', log'))
    ensures r == Done ==> n in g.dev.sp.ToWorld(compare).nbrs && n !in old(q.popped) && q.popped == old(q.popped) + {n}
    ensures g.dev.peak <= Larger(old(g.dev.peak), MAX_DOORBELL_SIZE * (|qi| + 1))
  {
    hide Consistent, NetOk, CacheOk, Pipeline, Landed, Server, Space.ToWorld, Space.Has, Space.Refs, Space.Valid,
         Offset, InStep;
    hide Pending, OnceEach, Out, Elements, KeptOf, Filter, Abroad, AtHome, Departed;
    ReadyQueue(q, g, g.dev.sp.ToWorld(compare), log);
    ghost var z := StageOf(q, g.sid, visited, qi, log);
    OnceIn(log, Pending(qi, g.sid), accepted);
    var item := PopClosest(q, g, compare, log);
    ReadyQueue(q, g, g.dev.sp.ToWorld(compare), log);
    n := item;
    RefsExist(g.dev.sp, compare, n);
    var ok, items := ReadNeighbors(g, item);
    visited', accepted', log', qi', qv' := visited, accepted, log, qi, qv;
    if !ok {
      return CacheMiss, visited', qi', qv', n, accepted', log';
    }
    var scratch;
    scratch, visited' := GatherAccepted(q, g.sid, items, visited, quantised, k);
    KeptWithin(k, q.Contents(), Elements(items), visited);
    KeptSame(k, z.s.queue, q.Contents(), Elements(items), visited);
    var ptrs;
    r, ptrs, qi', qv' := PostBatch(q, g, compare, scratch, visited, visited', accepted, qi, qv, capacity, log);
    if r != Done {
      return;
    }
    log' := ScorePart(q, g, scratch, ptrs, LocalPart, compare, log);
    accepted' := accepted + Elements(scratch);
    OnceAccept(log, Pending(qi, g.sid), accepted, scratch, g.sid);
    PendingSnoc(qi, scratch, g.sid);
    ReadyQueue(q, g, g.dev.sp.ToWorld(compare), log');
    AdvanceSends(k, z, StageOf(q, g.sid, visited', qi', log'), n, scratch, qi, log);
  }

  lemma ReadyQueue(q: NeighborPriorityQueue, g: ThreadStore, w: World, log: seq<nat>)
    requires Ready(q, g, w, log)
    ensures q.Valid() && 0 < q.capacity && q.size <= |q.data|
  {
    hide Consistent;
  }

  lemma KeptWithin(k: Setting, c: seq<Neighbor>, reached: set<nat>, seen: set<nat>)
    ensures KeptOf(k, c, reached, seen) <= reached - seen
  {
  }

  /** Whether a vertex is kept depends on the number of entries and the largest distance alone. */
  lemma KeptSame(k: Setting, c: seq<Neighbor>, c': seq<Neighbor>, reached: set<nat>, seen: set<nat>)
    requires |c| == |c'| && forall i :: 0 <= i < |c| ==> c'[i].distance == c[i].distance
    ensures KeptOf(k, c', reached, seen) == KeptOf(k, c, reached, seen)
  {
  }

  lemma FilterElements(items: seq<nat>, sid: nat)
    ensures Elements(Filter(items, LocalPart, sid)) == AtHome(sid, Elements(items))
    ensures Elements(Filter(items, RemotePart, sid)) == Abroad(sid, Elements(items))
  {
    FilterIn(items, LocalPart, sid);
    FilterIn(items, RemotePart, sid);
  }

  lemma {:induction false} FilterIn(items: seq<nat>, part: Part, sid: nat)
    ensures forall x :: x in Filter(items, part, sid) <==> x in items && InPart(part, sid, x)
  {
    if items != [] {
      FilterIn(items[..|items| - 1], part, sid);
      assert items == items[..|items| - 1] + [items[|items| - 1]];
    }
  }

  lemma ElementsJoin(s: seq<nat>, t: seq<nat>)
    ensures Elements(s + t) == Elements(s) + Elements(t)
  {
  }

  /** What the expanding half leaves is what the two kinds of fresh vertices demand. */
  lemma AdvanceSends(k: Setting, z: Stage, z': Stage, n: nat, scratch: seq<nat>, qi: seq<seq<nat>>, log: seq<nat>)
    requires z.s.cur < |z.s.queue| && z.s.queue[z.s.cur].item == n && n in k.w.nbrs
    requires Elements(scratch) == KeptOf(k, z.s.queue, Out(k.w, n), z.seen)
    requires z.s.visited == Elements(log) && z'.s.visited == Elements(log + Filter(scratch, LocalPart, k.sid))
    requires z.flight == Flights(qi, k.sid) && z'.flight == Flights(qi + [scratch], k.sid)
    requires z'.seen == z.seen + Out(k.w, n) && z'.s.expanded == z.s.expanded + {n}
    ensures Departed(k, z, z')
  {
    hide Filter, Elements, KeptOf, AtHome, Abroad, Out;
    FilterElements(scratch, k.sid);
    ElementsJoin(log, Filter(scratch, LocalPart, k.sid));
    assert Flights(qi + [scratch], k.sid) == Flights(qi, k.sid) + [Abroad(k.sid, Elements(scratch))];
  }

  /** The settling half of an iteration: wait for the oldest batch and score its remote vertices. */
  method Settle(q: NeighborPriorityQueue, g: ThreadStore, compare: Vector -> real,
                qi: seq<seq<nat>>, qv: seq<seq<Ptr>>, ghost visited: set<nat>, ghost accepted: set<nat>,
                ghost log: seq<nat>)
    returns (qi': seq<seq<nat>>, qv': seq<seq<Ptr>>, ghost log': seq<nat>)
    requires g.dev.sp.Valid() && qi != []
    requires SearchOk(q, g, g.dev.sp.ToWorld(compare), visited, accepted, qi, qv, log)
    modifies q, g, g.dev
    ensures SearchOk(q, g, g.dev.sp.ToWorld(compare), visited, accepted, qi', qv', log')
    ensures qi' == qi[1..] && qv' == qv[1..] && q.popped == old(q.popped) && log <= log'
    ensures Arrived(old(StageOf(q, g.sid, visited, qi, log)), StageOf(q, g.sid, visited, qi', log'))
    ensures |g.dev.buf| == old(|g.dev.buf|) && g.dev.peak == old(g.dev.peak)
  {
    hide Consistent, NetOk, CacheOk, Pipeline, Landed, Server, Space.ToWorld, Space.Has, Space.Valid, Offset, InStep,
         Filter, Abroad, Elements;
    ReadyQueue(q, g, g.dev.sp.ToWorld(compare), log);
    ghost var z := StageOf(q, g.sid, visited, qi, log);
    g.GetVertexBatchWait();
    log' := ScorePart(q, g, qi[0], qv[0], RemotePart, compare, log);
    qi', qv' := qi[1..], qv[1..];
    FilterElements(qi[0], g.sid);
    ElementsJoin(log, Filter(qi[0], RemotePart, g.sid));
    assert Flights(qi', g.sid) == Flights(qi, g.sid)[1..];
  }

  // ----- the search ---------------------------------------------------------------------------

  /** Resets the thread, visits the entry points and reads them in one synchronous batch. */
  method ReadEntries(g: ThreadStore, compare: Vector -> real, ids: seq<nat>)
    returns (r: Outcome, visited: set<nat>, scratch: seq<nat>, ptrs: seq<Ptr>)
    requires g.Valid() && g.batches == [] && forall i :: 0 <= i < |ids| ==> g.dev.sp.Has(ids[i])
    modifies g, g.dev
    ensures r in {Done, NoRoom} && |g.dev.buf| == old(|g.dev.buf|)
    ensures r == NoRoom ==> BufferFull(g)
    ensures LargeBuffer(g, g.dev.sp.ToWorld(compare)) ==> r == Done
    ensures visited == Elements(ids) == Elements(scratch)
    ensures forall i, j :: 0 <= i < j < |scratch| ==> scratch[i] != scratch[j]
    ensures forall i :: 0 <= i < |scratch| ==> g.dev.sp.Has(scratch[i])
    ensures g.dev.peak <= |ids|
              && (r == Done ==> g.Valid() && g.batches == [] && Frugal(g, g.dev.sp.ToWorld(compare), visited))
    ensures r == Done ==> |ptrs| == |scratch| && forall i :: 0 <= i < |scratch| ==> g.Readable(ptrs[i], scratch[i])
  {
    hide NetOk, CacheOk, Pipeline, Landed, Server, Space.ToWorld, Space.Has, Offset, Assigned, Misses, Elements;
    g.ResetThdCtx();
    scratch, visited := Gather(ids, {});
    EntriesFit(g, compare, ids, visited, scratch);
    r, ptrs := g.GetVertexBatch(scratch);
  }

  lemma EntriesFit(g: ThreadStore, compare: Vector -> real, ids: seq<nat>, visited: set<nat>, scratch: seq<nat>)
    requires forall i :: 0 <= i < |ids| ==> g.dev.sp.Has(ids[i])
    requires visited == Elements(ids) == Elements(scratch)
    requires forall i, j :: 0 <= i < j < |scratch| ==> scratch[i] != scratch[j]
    ensures visited <= g.dev.sp.ToWorld(compare).nbrs.Keys && |scratch| <= |visited| && |scratch| <= |ids|
    ensures LargeBuffer(g, g.dev.sp.ToWorld(compare)) && g.usedSlots == 0 ==>
              g.Room(|Misses(g.sid, g.cache.cacheTable, scratch)|)
  {
    hide Server, Space.ToWorld, Space.Has, Offset, Misses;
    ghost var w := g.dev.sp.ToWorld(compare);
    ghost var none: set<nat> := {};
    EntriesExist(g.dev.sp, compare, ids);
    ScratchFits(none, visited, scratch);
    ElementsAtMost(ids);
    if LargeBuffer(g, w) && g.usedSlots == 0 {
      HasRoom(g, w, none, visited, |Misses(g.sid, g.cache.cacheTable, scratch)|, |scratch|);
    }
  }

  /** Visits the entry points, reads them and scores them all. */
  method Begin(q: NeighborPriorityQueue, g: ThreadStore, compare: Vector -> real, ids: seq<nat>)
    returns (r: Outcome, visited: set<nat>, ghost log: seq<nat>)
    requires q.Valid() && 0 < q.capacity && g.Valid() && g.batches == [] && g.dev.sp.Valid()
    requires forall i :: 0 <= i < |ids| ==> g.dev.sp.Has(ids[i])
    modifies q, g, g.dev
    ensures r in {Done, NoRoom} && |g.dev.buf| == old(|g.dev.buf|)
    ensures r == NoRoom ==> BufferFull(g)
    ensures LargeBuffer(g, g.dev.sp.ToWorld(compare)) ==> r == Done
    ensures r == Done ==> SearchOk(q, g, g.dev.sp.ToWorld(compare), visited, visited, [], [], log)
    ensures g.dev.peak <= |ids| && (r == Done ==> visited == Elements(ids) && q.popped == {})
  {
    hide Consistent, NetOk, CacheOk, Pipeline, Landed, Server, Space.ToWorld, Space.Has, Space.Valid, Offset, IsTop,
         Elements;
    hide Filter, OnceEach, Pending, Aligned, Ready, InStep, SearchOk, ThreadStore.Readable, ThreadStore.FromBatch,
         ThreadStore.Valid;
    hide BufferFull, LargeBuffer;
    ghost var w := g.dev.sp.ToWorld(compare);
    log := [];
    var scratch, ptrs;
    r, visited, scratch, ptrs := ReadEntries(g, compare, ids);
    if r != Done {
      return;
    }
    q.Clear();
    ReadyToStart(q, g, w);
    log := ScorePart(q, g, scratch, ptrs, All, compare, []);
    BegunOnce(log, scratch, g.sid);
    BegunOk(q, g, w, visited, log);
  }

  lemma ReadyToStart(q: NeighborPriorityQueue, g: ThreadStore, w: World)
    requires q.Valid() && q.coherent && 0 < q.capacity && q.Contents() == [] && q.offered == map[] && g.Valid()
    ensures Ready(q, g, w, [])
  {
    hide Consistent;
    assert Offers(w, {}) == map[];
    assert Items([]) == {};
  }

  lemma BegunOk(q: NeighborPriorityQueue, g: ThreadStore, w: World, visited: set<nat>, log: seq<nat>)
    requires Ready(q, g, w, log) && g.batches == [] && Frugal(g, w, visited)
               && OnceEach(log, Pending([], g.sid), visited)
    ensures SearchOk(q, g, w, visited, visited, [], [], log)
  {
    hide Ready;
  }

  lemma {:induction false} ElementsAtMost(s: seq<nat>)
    ensures |Elements(s)| <= |s|
  {
    if s != [] {
      var m := |s| - 1;
      ElementsAtMost(s[..m]);
      ElementsSnoc(s[..m], s[m]);
      assert s[..m] + [s[m]] == s;
    }
  }

  lemma BegunOnce(log: seq<nat>, scratch: seq<nat>, sid: nat)
    requires log == [] + Filter(scratch, All, sid)
    requires forall i, j :: 0 <= i < j < |scratch| ==> scratch[i] != scratch[j]
    ensures log == scratch && OnceEach(log, Pending([], sid), Elements(scratch))
  {
    FilterAll(scratch, sid);
    DistinctMultiset(scratch);
  }

  lemma EntriesExist(sp: Space, compare: Vector -> real, ids: seq<nat>)
    requires forall i :: 0 <= i < |ids| ==> sp.Has(ids[i])
    ensures Elements(ids) <= sp.ToWorld(compare).nbrs.Keys
  {
    forall x | x in Elements(ids) ensures x in sp.ToWorld(compare).nbrs {
      InWorld(sp, compare, x);
    }
  }

  lemma AllScored(log: seq<nat>, accepted: set<nat>, sid: nat)
    requires OnceEach(log, Pending([], sid), accepted)
    ensures Elements(log) == accepted && forall i, j :: 0 <= i < j < |log| ==> log[i] != log[j]
  {
    OnceIn(log, [], accepted);
  }

  /** The labels of the first k entries; ok is false where the source throws. */
  method CollectLabels(q: NeighborPriorityQueue, g: ThreadStore, k: nat) returns (ok: bool, indices: seq<nat>)
    requires g.dev.sp.Valid() && g.Valid() && k <= q.size <= |q.data| && CacheCoversQueue(q, g)
    requires InMemory(g.dev.sp, q)
    ensures ok && |indices| == k
    ensures forall i :: 0 <= i < k ==> indices[i] == Dec32(g.dev.sp.Slot(q.data[i].item), g.dev.sp.vecBytes)
  {
    hide NetOk, CacheOk, Pipeline, Landed, Server, Dec32, Space.Has, Space.Slot, Space.Valid;
    ok, indices := true, [];
    for i := 0 to k
      invariant ok && |indices| == i
      invariant forall j :: 0 <= j < i ==> indices[j] == Dec32(g.dev.sp.Slot(q.data[j].item), g.dev.sp.vecBytes)
    {
      var item := q.data[i].item;
      var hit, ptr := g.GetVertex(item);
      if !hit {
        return false, indices;
      }
      g.DerefIsSlot(ptr, item);
      indices := indices + [Dec32(g.Deref(ptr, item), g.dev.sp.vecBytes)];
    }
  }

  /** The labels of the first K entries, or of all if there are fewer. */
  method Finish(q: NeighborPriorityQueue, g: ThreadStore, compare: Vector -> real, K: nat, ghost log: seq<nat>)
    returns (ok: bool, indices: seq<nat>)
    requires g.dev.sp.Valid() && Ready(q, g, g.dev.sp.ToWorld(compare), log)
    ensures ok && Labels(g.dev.sp, q.Contents(), K, indices)
  {
    hide Consistent, NetOk, CacheOk, Pipeline, Landed, Server, Space.ToWorld, Space.Slot, Dec32, InMemory;
    CoversQueue(q, g);
    QueueIsInMemory(g.dev.sp, compare, q, Elements(log));
    ok, indices := CollectLabels(q, g, if K <= q.size then K else q.size);
    LabelsHold(g.dev.sp, q, K, indices);
  }

  lemma LabelsHold(sp: Space, q: NeighborPriorityQueue, K: nat, indices: seq<nat>)
    requires q.size <= |q.data| && InMemory(sp, q) && |indices| == if K <= q.size then K else q.size
    requires forall i :: 0 <= i < |indices| ==> indices[i] == Dec32(sp.Slot(q.data[i].item), sp.vecBytes)
    ensures Labels(sp, q.Contents(), K, indices)
  {
    hide Space.Has, Space.Slot, Dec32;
    forall i | 0 <= i < |indices| ensures LabelIs(sp, q.Contents()[i].item, indices[i]) {
      assert q.data[i] == q.Contents()[i];
    }
  }

  ghost predicate CacheCoversQueue(q: NeighborPriorityQueue, g: ThreadStore)
    requires q.size <= |q.data|
    reads q, g
  {
    forall i :: 0 <= i < q.size && Server(q.data[i].item) != g.sid ==> q.data[i].item in g.thdCache
  }

  lemma CoversQueue(q: NeighborPriorityQueue, g: ThreadStore)
    requires q.size <= |q.data| && CacheCovers(q, g)
    ensures CacheCoversQueue(q, g)
  {
    hide Server;
    forall i | 0 <= i < q.size && Server(q.data[i].item) != g.sid ensures q.data[i].item in g.thdCache {
      assert q.Contents()[i] == q.data[i];
      assert q.data[i].item in Items(q.Contents());
    }
  }

  /** Before the first iteration the entry points are scored, and nothing is expanded or in flight. */
  lemma StepsBegin(k: Setting, q: NeighborPriorityQueue, seen: set<nat>, log: seq<nat>)
    requires InStep(k.w, q, Elements(log)) && q.popped == {} && Elements(log) == seen && k.L == q.capacity
    ensures Steps(k, seen, [StageOf(q, k.sid, seen, [], log)])
  {
    InStepReflects(k.w, q, seen);
  }

  lemma FlightsSize(qi: seq<seq<nat>>, sid: nat)
    ensures |Flights(qi, sid)| == |qi|
  {
  }

  /** The loop of the search: it goes through the iterations of the setting, and ends because each of them
      expands one more vertex. */
  method Traverse(q: NeighborPriorityQueue, g: ThreadStore, compare: Vector -> real, ghost eps: set<nat>, relax: nat,
                  quantised: nat -> real, seen: set<nat>, ghost log0: seq<nat>, ghost most: nat)
    returns (r: Outcome, qi: seq<seq<nat>>, qv: seq<seq<Ptr>>, visited: set<nat>,
             ghost accepted: set<nat>, ghost log: seq<nat>, ghost t: seq<Stage>)
    requires g.dev.sp.Valid() && SearchOk(q, g, g.dev.sp.ToWorld(compare), seen, seen, [], [], log0)
    requires Elements(log0) == seen == eps && q.popped == {}
    requires g.dev.peak <= most && MAX_DOORBELL_SIZE * (relax + 1) <= most
    modifies q, g, g.dev
    ensures r != CacheMiss
    ensures r == NoRoom ==> BufferFull(g)
    ensures old(LargeBuffer(g, g.dev.sp.ToWorld(compare))) ==> r != NoRoom
    ensures SmallDegree(g.dev.sp) ==> r != TooManyReads
    ensures r == Done ==> SearchOk(q, g, g.dev.sp.ToWorld(compare), visited, accepted, qi, qv, log)
    ensures r == Done ==> Course(SettingOf(q, g, compare, relax, quantised), eps, t)
                          && t[|t| - 1] == StageOf(q, g.sid, visited, qi, log)
    ensures g.dev.peak <= most && (r == Done ==> !q.HasUnexpandedNode())
  {
    hide Consistent, NetOk, CacheOk, Pipeline, Landed, Server, Space.ToWorld, Space.Has, Space.Valid, Offset,
         Space.Slot, Space.Refs;
    hide Aligned, Filter, Pending, OnceEach, FlagsAre, IsTop, Idle, Elements, BufferFull, SmallDegree, Steps, Step,
         Departed, Arrived, Flights;
    ghost var w, k := g.dev.sp.ToWorld(compare), SettingOf(q, g, compare, relax, quantised);
    r, visited, accepted, log, qi, qv := Done, seen, seen, log0, [], [];
    t := [StageOf(q, g.sid, visited, qi, log)];
    StepsBegin(k, q, seen, log);
    var left: nat := relax;
    while q.HasUnexpandedNode()
      invariant SearchOk(q, g, w, visited, accepted, qi, qv, log) && left <= relax && |qi| == relax - left
      invariant |t| > 0 && Steps(k, eps, t) && t[|t| - 1] == StageOf(q, g.sid, visited, qi, log)
      invariant |g.dev.buf| == old(|g.dev.buf|) && r == Done && g.dev.peak <= most
      decreases w.nbrs.Keys - q.popped
    {
      ghost var z := StageOf(q, g.sid, visited, qi, log);
      InStepReflects(w, q, Elements(log));
      FlightsSize(qi, g.sid);
      ghost var n;
      r, visited, qi, qv, n, accepted, log :=
        Advance(q, g, compare, quantised, visited, qi, qv, relax + 1, accepted, log, k);
      if r != Done {
        return;
      }
      ghost var m := StageOf(q, g.sid, visited, qi, log);
      if left > 0 {
        left := left - 1;
      } else {
        qi, qv, log := Settle(q, g, compare, qi, qv, visited, accepted, log);
      }
      InStepReflects(w, q, Elements(log));
      HalvesStep(k, z, m, StageOf(q, g.sid, visited, qi, log));
      StepsExtend(k, eps, t, StageOf(q, g.sid, visited, qi, log));
      t := t + [StageOf(q, g.sid, visited, qi, log)];
    }
    InStepReflects(w, q, Elements(log));
  }

  /** The batches still in flight are awaited and scored; nothing is expanded any more. */
  method Drain(q: NeighborPriorityQueue, g: ThreadStore, compare: Vector -> real, qi0: seq<seq<nat>>,
               qv0: seq<seq<Ptr>>,
               ghost visited: set<nat>, ghost accepted: set<nat>, ghost log0: seq<nat>) returns (ghost log: seq<nat>)
    requires g.dev.sp.Valid() && SearchOk(q, g, g.dev.sp.ToWorld(compare), visited, accepted, qi0, qv0, log0)
    modifies q, g, g.dev
    ensures SearchOk(q, g, g.dev.sp.ToWorld(compare), visited, accepted, [], [], log)
    ensures q.popped == old(q.popped) && g.dev.peak == old(g.dev.peak) && g.batches == [] && log0 <= log
    ensures qi0 == [] ==> log == log0 && Snap(q, visited) == old(Snap(q, visited)) && q.cur == old(q.cur)
    ensures Elements(log) == accepted == Accepted(old(StageOf(q, g.sid, visited, qi0, log0)))
  {
    hide Consistent, NetOk, CacheOk, Pipeline, Landed, Server, Space.ToWorld, Space.Has, Space.Valid, Offset;
    hide LaneOk, Filter, Pending, OnceEach;
    var qi, qv := qi0, qv0;
    log := log0;
    AcceptedIs(log0, qi0, accepted, g.sid);
    while qi != []
      invariant SearchOk(q, g, g.dev.sp.ToWorld(compare), visited, accepted, qi, qv, log)
      invariant q.popped == old(q.popped) && g.dev.peak == old(g.dev.peak) && log0 <= log
      invariant qi0 == [] ==>
                qi == [] && log == log0 && Snap(q, visited) == old(Snap(q, visited)) && q.cur == old(q.cur)
      decreases |qi|
    {
      qi, qv, log := Settle(q, g, compare, qi, qv, visited, accepted, log);
    }
    AllScored(log, accepted, g.sid);
  }

  /** The accepted items are the scored ones and those of the batches in flight. */
  lemma AcceptedIs(log: seq<nat>, qi: seq<seq<nat>>, accepted: set<nat>, sid: nat)
    requires OnceEach(log, Pending(qi, sid), accepted)
    ensures accepted == Elements(log) + Union(Flights(qi, sid))
  {
    hide Filter, Pending;
    PendingIs(qi, sid);
    forall x ensures x in accepted <==> x in Elements(log) + Elements(Pending(qi, sid)) {
      assert x in multiset(accepted) <==> x in multiset(log) || x in multiset(Pending(qi, sid));
    }
  }

  lemma {:induction false} PendingIs(qi: seq<seq<nat>>, sid: nat)
    ensures Elements(Pending(qi, sid)) == Union(Flights(qi, sid))
  {
    hide Filter, Elements, Abroad, Union;
    var f := Flights(qi, sid);
    if qi == [] {
      NoFlights(sid);
    } else {
      PendingIs(qi[1..], sid);
      FilterElements(qi[0], sid);
      ElementsJoin(Filter(qi[0], RemotePart, sid), Pending(qi[1..], sid));
      assert f[1..] == Flights(qi[1..], sid);
      UnionFront(f);
    }
  }

  lemma NoFlights(sid: nat)
    ensures Union(Flights([], sid)) == {} == Elements([])
  {
  }

  /** The distributed search. Whatever the network does, it goes through the iterations that its setting
      determines, unless an assertion stops it: each accepted vertex is scored exactly once, the queue
      holds the best of them, no batch and no completion is left behind, and every pointer lookup
      succeeds. Of the queue only vertices scored after the loop are unexpanded. Strict, and with
      quantised distances that overestimate by less than 10%, it is a complete run of the beam search
      that leaves nothing out. It stops only if the reads of the query do not fit in the buffer or those
      of one batch not in a doorbell. No queue pair ever has more reads outstanding than relax + 1
      doorbells or the entry points make, so up to a relaxation of 7 the send queues suffice. */
  method SearchBaseIndexDistributed(q: NeighborPriorityQueue, g: ThreadStore, compare: Vector -> real, K: nat,
                                    ids: seq<nat>, relax: nat, quantised: nat -> real)
    returns (r: Outcome, indices: seq<nat>, ghost visited: set<nat>, ghost log: seq<nat>, ghost early: nat,
             ghost t: seq<Stage>)
    requires q.Valid() && 0 < q.capacity && g.Valid() && g.batches == [] && g.dev.sp.Valid()
    requires relax + 1 <= |ids|
    requires forall i :: 0 <= i < |ids| ==> g.dev.sp.Has(ids[i])
    modifies q, g, g.dev
    ensures r != CacheMiss
    ensures r == NoRoom ==> BufferFull(g)
    ensures old(LargeBuffer(g, g.dev.sp.ToWorld(compare))) ==> r != NoRoom
    ensures SmallDegree(g.dev.sp) ==> r != TooManyReads
    ensures r == Done ==> q.Valid() && Labels(g.dev.sp, q.Contents(), K, indices)
    ensures r == Done ==> g.Valid() && g.batches == [] && Idle(g.dev.State())
    ensures r == Done ==> Searched(SettingOf(q, g, compare, relax, quantised), Elements(ids), t, q.Contents(), q.cur,
                                   visited, q.popped, log, early)
    ensures g.dev.peak <= Larger(|ids|, 128 * (relax + 1))
    ensures relax <= 7 && |ids| <= 1024 ==> g.dev.peak <= 1024
  {
    hide Consistent, NetOk, CacheOk, Pipeline, Landed, Server, Space.ToWorld, Space.Has, Space.Valid, Offset,
         Space.Slot, Space.Refs;
    hide Aligned, Filter, Pending, OnceEach, Steps, FlagsAre, Offers, Idle, Explored, Dec32, Elements, Accepted,
         BufferFull, SmallDegree, Run, Lossless, Course, Searched;
    ghost var w, most := g.dev.sp.ToWorld(compare), Larger(|ids|, MAX_DOORBELL_SIZE * (relax + 1));
    ghost var k := SettingOf(q, g, compare, relax, quantised);
    indices, early, t := [], 0, [];
    var seen;
    r, seen, log := Begin(q, g, compare, ids);
    visited := seen;
    if r != Done {
      return;
    }
    AllScored(log, seen, g.sid);
    var qi, qv; ghost var accepted;
    r, qi, qv, seen, accepted, log, t := Traverse(q, g, compare, Elements(ids), relax, quantised, seen, log, most);
    visited := seen;
    if r != Done {
      return;
    }
    ghost var log0 := log;
    early := |log|;
    WorldIsValid(g.dev.sp, compare);
    FlightsSize(qi, g.sid);
    CourseFacts(k, Elements(ids), t);
    log := Drain(q, g, compare, qi, qv, seen, accepted, log);
    AllScored(log, accepted, g.sid);
    InStepReflects(w, q, Elements(log));
    Concludes(k, Elements(ids), t, Snap(q, Elements(log)), seen, log0, log);
    g.NothingQueued();
    var ok;
    ok, indices := Finish(q, g, compare, K, log);
    if !ok {
      r := CacheMiss;
    }
  }

  /** What a search leaves. It went through the iterations t of its setting. The first `early` scored vertices
      were scored by then, and all the accepted ones, each once, in the end; the queue holds the best of
      them, and those of the first that it still holds are expanded. A strict search leaves the queue of
      its last iteration, and if no quantised distance overestimates by 10% or more, its iterations are the
      hops of the beam search that leaves nothing out. */
  ghost predicate Searched(k: Setting, eps: set<nat>, t: seq<Stage>, c: seq<Neighbor>, cur: nat, visited: set<nat>,
                           popped: set<nat>, log: seq<nat>, early: nat) {
    && Course(k, eps, t) && Explored(k, eps, t[|t| - 1])
    && visited == t[|t| - 1].seen && popped == t[|t| - 1].s.expanded && early <= |log|
    && Elements(log[..early]) == t[|t| - 1].s.visited && Elements(log) == Accepted(t[|t| - 1])
    && (forall i, j :: 0 <= i < j < |log| ==> log[i] != log[j])
    && IsTop(c, Offers(k.w, Elements(log)), k.L) && FlagsAre(c, popped) && CursorAt(c, cur)
    && EarlyExpanded(c, log, early)
    && (k.relax == 0 ==> early == |log| && cur == |c| && c == t[|t| - 1].s.queue)
    && (k.relax == 0 && Lossless(k) ==> Run(k.w, k.L, eps, StrictRun(t)))
  }

  lemma CourseFacts(k: Setting, eps: set<nat>, t: seq<Stage>)
    requires Course(k, eps, t)
    ensures |t| > 0 && (k.relax == 0 ==> t[|t| - 1].flight == [])
  {
    hide Step;
    FlightAt(k, eps, t, |t| - 1);
  }

  /** What the course and the queue after the drain come to. */
  lemma Concludes(k: Setting, eps: set<nat>, t: seq<Stage>, s: Snapshot, visited: set<nat>, log0: seq<nat>,
                  log: seq<nat>)
    requires ValidWorld(k.w) && Course(k, eps, t) && Reflects(k.w, k.L, s) && log0 <= log
    requires t[|t| - 1].s.visited == Elements(log0) && Accepted(t[|t| - 1]) == Elements(log) == s.visited
    requires s.expanded == t[|t| - 1].s.expanded && visited == t[|t| - 1].seen
    requires forall i, j :: 0 <= i < j < |log| ==> log[i] != log[j]
    requires k.relax == 0 ==> log == log0 && s.cur == t[|t| - 1].s.cur && s.queue == t[|t| - 1].s.queue
    ensures Searched(k, eps, t, s.queue, s.cur, visited, s.expanded, log, |log0|)
  {
    hide Step, Explored, Run, Lossless, Accepted, IsTop, FlagsAre, CursorAt;
    var z := t[|t| - 1];
    assert log[..|log0|] == log0;
    AlwaysExplored(k, eps, t, |t| - 1);
    StageReflects(k, eps, t);
    EarlierExpanded(k.w, k.L, z.s, s, log0, log);
    if k.relax == 0 && Lossless(k) { LosslessIsStrict(k, eps, t); }
  }

  /** Whatever the network did, two searches of one setting leave the same queue, and report the same labels. */
  lemma SearchIsDetermined(k: Setting, eps: set<nat>, t1: seq<Stage>, c1: seq<Neighbor>, cur1: nat, visited1: set<nat>,
                           popped1: set<nat>, log1: seq<nat>, early1: nat, t2: seq<Stage>, c2: seq<Neighbor>, cur2: nat,
                           visited2: set<nat>, popped2: set<nat>, log2: seq<nat>, early2: nat)
    requires Searched(k, eps, t1, c1, cur1, visited1, popped1, log1, early1)
    requires Searched(k, eps, t2, c2, cur2, visited2, popped2, log2, early2)
    ensures t1 == t2 && c1 == c2 && cur1 == cur2 && visited1 == visited2 && popped1 == popped2
    ensures Elements(log1) == Elements(log2) && forall sp, K, labels1, labels2 ::
              Labels(sp, c1, K, labels1) && Labels(sp, c2, K, labels2) ==> labels1 == labels2
  {
    hide Course, Explored, Run, Lossless, Accepted, IsTop, FlagsAre, EarlyExpanded;
    CoursesAgree(k, eps, t1, t2);
    TopIsUnique(c1, c2, Offers(k.w, Elements(log1)), popped1, k.L);
    CursorIsUnique(c1, cur1, cur2);
  }

  /** Of the first k scored vertices, what the queue still holds is expanded. */
  ghost predicate EarlyExpanded(c: seq<Neighbor>, log: seq<nat>, k: nat) {
    k <= |log| && forall i :: 0 <= i < |c| && c[i].item in log[..k] ==> c[i].expanded
  }

  lemma EarlierExpanded(w: World, L: nat, s0: Snapshot, s1: Snapshot, log0: seq<nat>, log: seq<nat>)
    requires Reflects(w, L, s0) && Reflects(w, L, s1) && s0.cur == |s0.queue| && s0.expanded == s1.expanded
    requires s0.visited == Elements(log0) && s1.visited == Elements(log) && log0 <= log
    ensures EarlyExpanded(s1.queue, log, |log0|)
  {
    assert log[..|log0|] == log0;
    LateOnly(w, L, s0, s1);
  }

  /** Strict and without pruning, the distributed search goes through the hops of the search on
      buckets and reports its labels; on a built index with tie-free distances both are the flat
      search through the placement. */
  lemma DistributedIsBucketSearch(sp: Space, compare: Vector -> real, L: nat, ep: nat, K: nat,
                                  t2: seq<Snapshot>, labels2: seq<nat>, t3: seq<Snapshot>, labels3: seq<nat>)
    requires Run(sp.ToWorld(compare), L, {ep}, t2) && Labels(sp, t2[|t2| - 1].queue, K, labels2)
    requires Run(sp.ToWorld(compare), L, {ep}, t3) && Labels(sp, t3[|t3| - 1].queue, K, labels3)
    ensures t2 == t3 && labels2 == labels3
  {
    RunsAgree(sp.ToWorld(compare), L, {ep}, t2, t3);
  }

  lemma DistributedIsFlatSearch(x: Input, place: seq<nat>, mem: seq<seq<byte>>, compare: Vector -> real, L: nat,
                                ep: nat, K: nat,
                                t1: seq<Snapshot>, labels1: seq<nat>, distances: seq<real>, t3: seq<Snapshot>,
                                labels3: seq<nat>)
    requires Placed(x, place) && Sized(x, mem) && Stored(x, place, mem, |place|) && ep < |place|
    requires TieFree(FlatWorld(FlatIndex(x), compare))
    requires Run(FlatWorld(FlatIndex(x), compare), L, {ep}, t1)
    requires Reports(FlatIndex(x), t1[|t1| - 1].queue, K, labels1, distances)
    requires Run(BuiltSpace(x, mem).ToWorld(compare), L, {place[ep]}, t3)
    requires Labels(BuiltSpace(x, mem), t3[|t3| - 1].queue, K, labels3)
    ensures |t1| == |t3| && labels1 == labels3
    ensures forall i :: 0 <= i < |t1| ==>
              Named(PlaceMap(place), t1[i]) && t3[i] == RenameSnapshot(PlaceMap(place), t1[i])
  {
    hide Hop, Space.ToWorld, IsNumbering, Reflects, Stored, RecordAt;
    BucketSearchIsFlatSearch(x, place, mem, compare, L, ep, K, t1, labels1, distances, t3, labels3);
  }

  // ----- all three searches ---------------------------------------------------------------------

  lemma OnePlaceEach(x: Input, place: seq<nat>)
    requires Placed(x, place)
    ensures |place| == |x.graph|
  {
  }

  /** What a built index offers the distributed search: room for every vertex, and small degrees. */
  lemma BuiltFits(x: Input, place: seq<nat>, mem: seq<seq<byte>>, compare: Vector -> real, bytes: nat)
    requires Placed(x, place) && Sized(x, mem) && Stored(x, place, mem, |place|)
    requires x.maxDegree <= MAX_DOORBELL_SIZE && bytes == Offset(x.Size(), |place|)
    ensures SmallDegree(BuiltSpace(x, mem)) && Offset(x.Size(), |BuiltSpace(x, mem).ToWorld(compare).nbrs|) <= bytes
  {
    hide Space.ToWorld, Space.Has, Space.Refs, Space.Slot, Space.VectorOf, Sized, Stored, Offset, IsNumbering;
    var sp := BuiltSpace(x, mem);
    var w := sp.ToWorld(compare);
    BuiltSpaceIsValid(x, place, mem);
    OnePlaceEach(x, place);
    forall item: nat | sp.Has(item) ensures |sp.Refs(item)| <= MAX_DOORBELL_SIZE {
      var id :| 0 <= id < |place| && place[id] == item;
      BuiltVertex(x, place, mem, compare, id);
    }
    forall item | item in w.nbrs ensures item in Elements(place) {
      InWorld(sp, compare, item);
    }
    ElementsAtMost(place);
    KeysBelow(w.nbrs, Elements(place));
    if |w.nbrs| < |place| { OffsetGap(x.Size(), |w.nbrs|, |place|); }
  }

  lemma KeysBelow(m: map<nat, seq<nat>>, s: set<nat>)
    requires forall k :: k in m ==> k in s
    ensures |m| <= |s|
  {
    assert |m| == |m.Keys|;
    SubsetSize(m.Keys, s);
  }

  /** The vertex at a place. */
  function VertexAt(place: seq<nat>, item: nat): (id: nat)
    ensures item in place ==> id < |place| && place[id] == item
  {
    if place == [] then 0
    else if place[|place| - 1] == item then |place| - 1
    else VertexAt(place[..|place| - 1], item)
  }

  /** No quantised distance of a vertex overestimates by 10% or more. */
  ghost predicate Close(x: Input, compare: Vector -> real, quantised: nat -> real) {
    |x.vectors| == |x.graph| && forall id :: 0 <= id < |x.graph| ==> quantised(id) < compare(x.vectors[id]) * 1.1
  }

  lemma CloseIsLossless(x: Input, place: seq<nat>, mem: seq<seq<byte>>, compare: Vector -> real, L: nat, sid: nat,
                        quantised: nat -> real, byItem: nat -> real)
    requires Placed(x, place) && Sized(x, mem) && Stored(x, place, mem, |place|) && Close(x, compare, quantised)
    requires forall item :: byItem(item) == quantised(VertexAt(place, item))
    ensures Lossless(Setting(BuiltSpace(x, mem).ToWorld(compare), L, sid, 0, byItem))
  {
    hide Space.ToWorld, Space.Has, Space.Refs, Space.Slot, Space.VectorOf, Sized, Stored, Offset, IsNumbering;
    var sp := BuiltSpace(x, mem);
    var w := sp.ToWorld(compare);
    BuiltSpaceIsValid(x, place, mem);
    OnePlaceEach(x, place);
    WorldIsValid(sp, compare);
    forall item | item in w.dist ensures byItem(item) < w.dist[item] * 1.1 {
      InWorld(sp, compare, item);
      var id :| 0 <= id < |place| && place[id] == item;
      BuiltVertex(x, place, mem, compare, id);
      BuiltVertex(x, place, mem, compare, VertexAt(place, item));
    }
  }

  /** Building the buckets and then running all three searches, the distributed one from any server with
      any hot vertices cached. Unless it stops for lack of buffer or doorbell room, and if no quantised
      distance overestimates by 10% or more, the distributed search returns the labels of the search on
      buckets, although it leaves vertices out; with tie-free distances these are also those of the flat
      search. A buffer for all vertices and degrees up to a doorbell suffice. */
  method SearchesAgree(x: Input, ep: nat, compare: Vector -> real, quantised: nat -> real, L: nat, K: nat, sid: nat,
                       hot: seq<nat>, bufferSize: nat)
    returns (r: Outcome, flat: seq<nat>, bucketed: seq<nat>, distributed: seq<nat>)
    requires x.Valid() && ep < |x.graph| && 0 < L && sid < x.bc
    requires (forall i :: 0 <= i < |hot| ==> hot[i] < |x.graph|) && (hot != [] ==> x.Size() < bufferSize)
    ensures TieFree(FlatWorld(FlatIndex(x), compare)) ==> flat == bucketed
    ensures r == Done && Close(x, compare, quantised) ==> bucketed == distributed
    ensures x.maxDegree <= 128 && Offset(x.Size(), |x.graph|) < bufferSize ==> r == Done
  {
    hide Space.ToWorld, Space.Has, Space.Valid, Sized, Stored, IsNumbering, Run, Reports, Labels, Offset, FlatWorld,
         TieFree;
    hide NetOk, CacheOk, Pipeline, Landed, Idle, Consistent, IsTop, Explored, Offers, SmallDegree, Pack;
    var place, dataNum, buckets, epItem := GenerateBaseIndexOnBuckets(x, ep);
    var mem := Memory(buckets);
    var sp := BuiltSpace(x, mem);
    OnePlaceEach(x, place);
    BuiltSpaceIsValid(x, place, mem);
    BuiltVertex(x, place, mem, compare, ep);

    var q1 := new NeighborPriorityQueue(L);
    var distances; ghost var t1;
    flat, distances, t1 := SearchBaseIndex(FlatIndex(x), ep, compare, q1, K);

    var q2 := new NeighborPriorityQueue(L);
    ghost var t2;
    bucketed, t2 := SearchBaseIndexOnBuckets(sp, epItem, compare, q2, K);
    if TieFree(FlatWorld(FlatIndex(x), compare)) {
      BucketSearchIsFlatSearch(x, place, mem, compare, L, ep, K, t1, flat, distances, t2, bucketed);
    }

    ghost var t3;
    var byItem := (item: nat) => quantised(VertexAt(place, item));
    r, distributed, t3 := SearchBuilt(x, place, mem, compare, byItem, L, K, sid, epItem, hot, bufferSize);
    if r == Done && Close(x, compare, quantised) {
      CloseIsLossless(x, place, mem, compare, L, sid, quantised, byItem);
      DistributedIsBucketSearch(sp, compare, L, epItem, K, t2, bucketed, t3, distributed);
    }
  }

  /** The distributed search on a built index, from a fresh thread. */
  method SearchBuilt(x: Input, place: seq<nat>, mem: seq<seq<byte>>, compare: Vector -> real, quantised: nat -> real,
                     L: nat, K: nat, sid: nat, epItem: nat, hot: seq<nat>, bufferSize: nat)
    returns (r: Outcome, labels: seq<nat>, ghost t: seq<Snapshot>)
    requires Placed(x, place) && Sized(x, mem) && Stored(x, place, mem, |place|) && 0 < L && sid < x.bc
    requires BuiltSpace(x, mem).Has(epItem)
    requires (forall i :: 0 <= i < |hot| ==> hot[i] < |place|) && (hot != [] ==> x.Size() < bufferSize)
    ensures r == Done && Lossless(Setting(BuiltSpace(x, mem).ToWorld(compare), L, sid, 0, quantised)) ==>
              Run(BuiltSpace(x, mem).ToWorld(compare), L, {epItem}, t)
              && Labels(BuiltSpace(x, mem), t[|t| - 1].queue, K, labels)
    ensures x.maxDegree <= MAX_DOORBELL_SIZE && Offset(x.Size(), |place|) < bufferSize ==> r == Done
  {
    hide Space.ToWorld, Space.Has, Space.Valid, Stored, IsNumbering, Run, Labels, Offset, Elements;
    hide NetOk, CacheOk, Pipeline, Landed, Idle, Consistent, IsTop, Explored, Offers, SmallDegree;
    var sp := BuiltSpace(x, mem);
    BuiltSpaceIsValid(x, place, mem);
    var keys := seq(|hot|, i requires 0 <= i < |hot| => place[hot[i]]);
    forall i | 0 <= i < |keys| ensures sp.Has(keys[i]) {
      BuiltVertex(x, place, mem, compare, hot[i]);
    }
    var dev := new Device(sp, bufferSize);
    var cache := new RdmaCache(sp);
    cache.SetCache(dev, keys);
    dev.Forget();
    var g := new ThreadStore(sid, dev, cache);
    var q := new NeighborPriorityQueue(L);
    if x.maxDegree <= MAX_DOORBELL_SIZE && Offset(x.Size(), |place|) < bufferSize {
      BuiltFits(x, place, mem, compare, Offset(x.Size(), |place|));
    }
    ghost var visited, log, early, course;
    r, labels, visited, log, early, course := SearchBaseIndexDistributed(q, g, compare, K, [epItem], 0, quantised);
    t := StrictRun(course);
    ElementsOne(epItem);
  }
}
