/** The per-thread vertex store: which vertices are local, cached, or read over the network, and the
    pointers handed out for them. */
module GStore {
  import opened Common
  import opened RecordLayout
  import opened BucketBuild
  import opened BucketSearch
  import opened Rdma

  // ----- the cache of hot remote vertices -----------------------------------------------------

  /** Every table entry points at its owner's bytes. */
  ghost predicate CacheOk(sp: Space, data: seq<byte>, table: map<nat, nat>) {
    forall item :: item in table ==> sp.Has(item) && table[item] + sp.size <= |data|
                                     && data[table[item]..table[item] + sp.size] == sp.Slot(item)
  }

  lemma CacheAppend(sp: Space, data: seq<byte>, table: map<nat, nat>, item: nat, bytes: seq<byte>)
    requires CacheOk(sp, data, table) && sp.Has(item) && bytes == sp.Slot(item)
    ensures CacheOk(sp, data + bytes, table[item := |data|])
  {
    forall x | x in table && x != item
      ensures (data + bytes)[table[x]..table[x] + sp.size] == sp.Slot(x)
    {
      assert (data + bytes)[table[x]..table[x] + sp.size] == data[table[x]..table[x] + sp.size];
    }
    assert (data + bytes)[|data|..|data| + sp.size] == bytes;
  }

  class RdmaCache {
    const sp: Space
    var cacheData: seq<byte>
    var cacheTable: map<nat, nat>   // item -> offset in cacheData

    ghost predicate Valid()
      reads this
    {
      CacheOk(sp, cacheData, cacheTable)
    }

    constructor (sp: Space)
      ensures Valid() && this.sp == sp && cacheTable == map[]
    {
      this.sp := sp;
      cacheData, cacheTable := [], map[];
    }

    /** Fills the cache with the given vertices, each read synchronously into the start of the buffer
        and copied. The entries of these vertices hold their owner's bytes. Older entries stay in the
        table although their bytes are gone, so the cache is in order if all of them are given again. */
    method SetCache(dev: Device, keys: seq<nat>)
      requires dev.Valid() && Idle(dev.State()) && dev.sp == sp && (keys != [] ==> sp.size < |dev.buf|)
      requires forall i :: 0 <= i < |keys| ==> sp.Has(keys[i])
      modifies this, dev
      ensures cacheTable.Keys == old(cacheTable.Keys) + Elements(keys)
      ensures forall item :: item in cacheTable && item !in Elements(keys) ==>
                item in old(cacheTable) && cacheTable[item] == old(cacheTable)[item]
      ensures CacheOk(sp, cacheData, Restricted(cacheTable, Elements(keys)))
      ensures old(cacheTable.Keys) <= Elements(keys) ==> Valid()
      ensures dev.Valid() && Idle(dev.State()) && |dev.buf| == old(|dev.buf|)
    {
      hide NetOk, Landed, Space.Has, Server, Local, CacheOk, Idle, Offset, Elements, Restricted;
      EmptyCache(sp);
      NoKeys(keys);
      cacheData := [];
      ghost var filled: map<nat, nat> := map[];
      for i := 0 to |keys|
        invariant dev.Valid() && Idle(dev.State()) && |dev.buf| == old(|dev.buf|)
        invariant |cacheData| == Offset(sp.size, i)
        invariant filled.Keys == Elements(keys[..i]) && cacheTable == old(cacheTable) + filled
        invariant CacheOk(sp, cacheData, filled)
      {
        var bytes := RdmaRead(dev, keys[i]);
        OffsetNext(sp.size, i);
        CacheAppend(sp, cacheData, filled, keys[i], bytes);
        ElementsNext(keys, i);
        cacheData := cacheData + bytes;
        cacheTable := cacheTable[keys[i] := Offset(sp.size, i)];
        filled := filled[keys[i] := Offset(sp.size, i)];
      }
      assert keys[..|keys|] == keys;
      Refilled(old(cacheTable), filled, Elements(keys));
    }

    /** One synchronous read into the start of the buffer. */
    method RdmaRead(dev: Device, item: nat) returns (bytes: seq<byte>)
      requires dev.Valid() && Idle(dev.State()) && dev.sp == sp && sp.Has(item) && sp.size < |dev.buf|
      modifies dev
      ensures dev.Valid() && Idle(dev.State()) && |dev.buf| == old(|dev.buf|)
      ensures bytes == sp.Slot(item)
    {
      dev.Forget();
      SizesOk(sp, dev.State());
      var s := Server(item);
      OffsetNext(sp.size, 0);
      dev.PostSend(s, 0, Offset(sp.size, Local(item)), true, 0, item);
      dev.PollCompletion(s, 1);
      assert dev.HasLanded(0);
      bytes := dev.buf[0..sp.size];
      assert bytes == Bytes(sp.size, dev.buf, 0);
      AllPolledIsIdle(sp, dev.State());
    }

    /** The place of an item's bytes, or -1 if they are not cached: a hit leads to the owner's record. */
    function Lookup(item: nat): (off: int)
      requires Valid()
      reads this
      ensures off == -1 <==> item !in cacheTable
      ensures off != -1 ==> off == cacheTable[item] && sp.Has(item) && 0 <= off <= off + sp.size <= |cacheData|
                            && cacheData[off..off + sp.size] == sp.Slot(item)
    {
      if item in cacheTable then cacheTable[item] else -1
    }
  }

  ghost function Restricted(table: map<nat, nat>, keys: set<nat>): map<nat, nat> {
    map item | item in table && item in keys :: table[item]
  }

  lemma NoKeys(keys: seq<nat>)
    ensures Elements(keys[..0]) == {}
  {
  }

  lemma Refilled(before: map<nat, nat>, filled: map<nat, nat>, keys: set<nat>)
    requires filled.Keys == keys
    ensures Restricted(before + filled, keys) == filled
    ensures before.Keys <= keys ==> before + filled == filled
  {
  }

  lemma OffsetNext(size: nat, i: nat)
    ensures Offset(size, i + 1) == Offset(size, i) + size && Offset(size, 0) == 0
  {
  }

  lemma EmptyCache(sp: Space)
    ensures CacheOk(sp, [], map[]) && Offset(sp.size, 0) == 0
  {
  }

  // ----- batches in flight --------------------------------------------------------------------

  /** The network reads of one asynchronous batch: the items, in buffer slots first, first + 1, ... */
  datatype Batch = Batch(items: seq<nat>, first: nat)

  /** What the batches have posted to server s, oldest batch first. */
  ghost function Queued(bs: seq<Batch>, s: nat): seq<nat> {
    if bs == [] then [] else On(bs[0].items, s, bs[0].first) + Queued(bs[1..], s)
  }

  lemma {:induction false} QueuedSnoc(bs: seq<Batch>, x: Batch, s: nat)
    ensures Queued(bs + [x], s) == Queued(bs, s) + On(x.items, s, x.first)
  {
    hide On;
    if bs == [] {
      assert bs + [x] == [x];
      assert [x][1..] == [];
    } else {
      QueuedSnoc(bs[1..], x, s);
      assert (bs + [x])[1..] == bs[1..] + [x] && (bs + [x])[0] == bs[0];
      Associates(On(bs[0].items, s, bs[0].first), Queued(bs[1..], s), On(x.items, s, x.first));
    }
  }

  lemma Associates(a: seq<nat>, b: seq<nat>, c: seq<nat>)
    ensures a + (b + c) == a + b + c
  {
  }

  /** polls counts the reads of a batch by server, and the last read on each server is signalled. */
  ghost predicate BatchPosted(b: Ledger, x: Batch, polls: seq<nat>, n: nat) {
    && |polls| == n && (forall i :: 0 <= i < |x.items| ==> Server(x.items[i]) < n)
    && (forall s :: 0 <= s < n ==> polls[s] == |On(x.items, s, x.first)| <= MAX_DOORBELL_SIZE
                                   && LastSignaled(On(x.items, s, x.first), b.signaled))
    && (forall k :: x.first <= k < x.first + |x.items| ==> k in b.issued)
  }

  /** The queue of poll counts is aligned with the batches in flight, and what is unpolled on the queue
      pairs is exactly what these batches posted. */
  ghost predicate Pipeline(b: Ledger, bs: seq<Batch>, polls: seq<seq<nat>>, n: nat) {
    && |bs| == |polls| && |b.unpolled| == n
    && (forall s :: 0 <= s < n ==> b.unpolled[s] == Queued(bs, s))
    && (forall j :: 0 <= j < |bs| ==> BatchPosted(b, bs[j], polls[j], n))
  }

  lemma BatchStaysPosted(b: Ledger, b': Ledger, x: Batch, polls: seq<nat>, n: nat)
    requires BatchPosted(b, x, polls, n)
    requires forall k :: k in b.issued ==> k in b'.issued && (k in b'.signaled <==> k in b.signaled)
    ensures BatchPosted(b', x, polls, n)
  {
    hide Server, OnTo;
    forall s | 0 <= s < n ensures LastSignaled(On(x.items, s, x.first), b'.signaled) {
      OnSlots(x.items, s, x.first);
    }
  }

  lemma PipelinePush(b: Ledger, b': Ledger, bs: seq<Batch>, polls: seq<seq<nat>>, n: nat, x: Batch, p: seq<nat>)
    requires Pipeline(b, bs, polls, n) && SentShape(b, b', x.items, x.first, n)
    requires |p| == n && (forall s :: 0 <= s < n ==> p[s] == |On(x.items, s, x.first)|)
               && DoorbellsFit(x.items, x.first, n)
    requires forall i :: 0 <= i < |x.items| ==> Server(x.items[i]) < n
    ensures Pipeline(b', bs + [x], polls + [p], n)
  {
    hide Server, OnTo, LastSignaled;
    forall s | 0 <= s < n ensures b'.unpolled[s] == Queued(bs + [x], s) {
      QueuedSnoc(bs, x, s);
    }
    forall j | 0 <= j < |bs| ensures BatchPosted(b', bs[j], polls[j], n) {
      BatchStaysPosted(b, b', bs[j], polls[j], n);
    }
    forall k | x.first <= k < x.first + |x.items| ensures k in b'.issued {
      assert SlotBelow(x.items, x.first, n, k);
    }
  }

  lemma PipelinePop(b: Ledger, b': Ledger, bs: seq<Batch>, polls: seq<seq<nat>>, n: nat)
    requires Pipeline(b, bs, polls, n) && bs != [] && |b'.unpolled| == n
    requires b'.issued == b.issued && b'.signaled == b.signaled
    requires forall s :: 0 <= s < n ==> b'.unpolled[s] == b.unpolled[s][|On(bs[0].items, s, bs[0].first)|..]
    ensures Pipeline(b', bs[1..], polls[1..], n)
  {
    hide BatchPosted, OnTo;
    forall j | 0 <= j < |bs| - 1 ensures BatchPosted(b', bs[1..][j], polls[1..][j], n) {
      BatchStaysPosted(b, b', bs[j + 1], polls[j + 1], n);
    }
  }

  /** The front batch heads every queue pair. */
  lemma PipelineFront(b: Ledger, bs: seq<Batch>, polls: seq<seq<nat>>, n: nat)
    requires Pipeline(b, bs, polls, n) && bs != []
    ensures forall s :: 0 <= s < n ==> On(bs[0].items, s, bs[0].first) <= b.unpolled[s]
    ensures BatchPosted(b, bs[0], polls[0], n)
  {
    hide BatchPosted, On;
  }

  /** Every batch in flight has at most a doorbell of reads on each queue pair. */
  lemma OutstandingReads(b: Ledger, bs: seq<Batch>, polls: seq<seq<nat>>, n: nat, s: nat)
    requires Pipeline(b, bs, polls, n) && s < n
    ensures |b.unpolled[s]| <= MAX_DOORBELL_SIZE * |bs|
  {
    hide On;
    forall j | 0 <= j < |bs| ensures |On(bs[j].items, s, bs[j].first)| <= MAX_DOORBELL_SIZE {
      assert BatchPosted(b, bs[j], polls[j], n);
    }
    QueuedBound(bs, s);
  }

  lemma {:induction false} QueuedBound(bs: seq<Batch>, s: nat)
    requires forall j :: 0 <= j < |bs| ==> |On(bs[j].items, s, bs[j].first)| <= MAX_DOORBELL_SIZE
    ensures |Queued(bs, s)| <= MAX_DOORBELL_SIZE * |bs|
  {
    hide On;
    if bs != [] { QueuedBound(bs[1..], s); }
  }

  // ----- pointers -----------------------------------------------------------------------------

  /** A pointer to a vertex: into this server's own memory, into the cache, or to a buffer slot. */
  datatype Ptr = Kv(off: nat) | Cached(off: nat) | Buf(slot: nat)

  /** The items that are neither local nor cached, in order: those a batch reads over the network. */
  ghost function Misses(sid: nat, table: map<nat, nat>, keys: seq<nat>): (fetched: seq<nat>)
    ensures |fetched| <= |keys|
  {
    if keys == [] then []
    else Misses(sid, table, keys[..|keys| - 1])
         + if IsMiss(sid, table, keys[|keys| - 1]) then [keys[|keys| - 1]] else []
  }

  ghost predicate IsMiss(sid: nat, table: map<nat, nat>, item: nat) {
    Server(item) != sid && item !in table
  }

  /** Different misses of a batch get different slots, each the one its item is fetched into. */
  lemma {:induction false} MissSlots(sid: nat, table: map<nat, nat>, keys: seq<nat>, i: nat, j: nat)
    requires i <= j <= |keys|
    ensures |Misses(sid, table, keys[..i])| <= |Misses(sid, table, keys[..j])|
    ensures i < j && IsMiss(sid, table, keys[i]) ==>
              |Misses(sid, table, keys[..i])| < |Misses(sid, table, keys[..j])|
              && Misses(sid, table, keys[..j])[|Misses(sid, table, keys[..i])|] == keys[i]
  {
    hide IsMiss;
    if i < j {
      MissSlots(sid, table, keys, i, j - 1);
      assert keys[..j][..j - 1] == keys[..j - 1];
    }
  }

  lemma MissesFetched(sid: nat, table: map<nat, nat>, keys: seq<nat>)
    ensures forall i :: 0 <= i < |keys| && IsMiss(sid, table, keys[i]) ==>
              |Misses(sid, table, keys[..i])| < |Misses(sid, table, keys)|
              && Misses(sid, table, keys)[|Misses(sid, table, keys[..i])|] == keys[i]
  {
    assert keys[..|keys|] == keys;
    forall i | 0 <= i < |keys| && IsMiss(sid, table, keys[i])
      ensures |Misses(sid, table, keys[..i])| < |Misses(sid, table, keys)|
              && Misses(sid, table, keys)[|Misses(sid, table, keys[..i])|] == keys[i]
    {
      MissSlots(sid, table, keys, i, |keys|);
    }
  }

  /** What a batch assigns to its i-th item: its own address if local, the cache's entry if there is
      one, and otherwise the next buffer slot. */
  ghost predicate Assigned(sp: Space, sid: nat, table: map<nat, nat>, ptr: Ptr, keys: seq<nat>, i: nat, first: nat)
    requires i < |keys|
  {
    match ptr
    case Kv(off) => Server(keys[i]) == sid && off == Offset(sp.size, Local(keys[i]))
    case Cached(off) => Server(keys[i]) != sid && keys[i] in table && off == table[keys[i]]
    case Buf(slot) => IsMiss(sid, table, keys[i]) && slot == first + |Misses(sid, table, keys[..i])|
  }

  /** How an operation ends: as it should, or at the assertion that the buffer has room, at the
      assertion that a doorbell has room, or at the exception for a missing pointer. */
  datatype Outcome = Done | NoRoom | TooManyReads | CacheMiss

  class ThreadStore {
    const sid: nat
    const dev: Device
    const cache: RdmaCache
    var usedSlots: nat              // buffer bytes handed out, in vertices
    var thdCache: map<nat, Ptr>
    var thdPolls: seq<seq<nat>>
    ghost var batches: seq<Batch>

    ghost predicate PtrOk(ptr: Ptr, item: nat)
      reads this, dev, cache
    {
      dev.sp.Has(item) &&
      match ptr
      case Kv(off) => Server(item) == sid && off == Offset(dev.sp.size, Local(item))
      case Cached(off) => item in cache.cacheTable && off == cache.cacheTable[item]
      case Buf(slot) => slot in dev.issued && dev.issued[slot] == item
    }

    /** The bytes behind the pointer are there: they come from a store that does not change, or from a
        read that has landed. */
    ghost predicate Readable(ptr: Ptr, item: nat)
      reads this, dev, cache
    {
      PtrOk(ptr, item) && (ptr.Buf? ==> dev.HasLanded(ptr.slot))
    }

    ghost predicate Valid()
      reads this, dev, cache
    {
      && dev.Valid() && cache.Valid() && cache.sp == dev.sp && sid < |dev.sp.mem|
      && (forall slot :: slot in dev.issued ==> slot < usedSlots)
      && (forall item :: item in thdCache ==> Readable(thdCache[item], item))
      && Pipeline(dev.Book(), batches, thdPolls, |dev.sp.mem|)
    }

    /** The bytes behind a pointer. */
    function Deref(ptr: Ptr, item: nat): seq<byte>
      requires Valid() && Readable(ptr, item)
      reads this, dev, cache
    {
      match ptr
      case Kv(off) => dev.sp.mem[sid][off..off + dev.sp.size]
      case Cached(off) => cache.cacheData[off..off + dev.sp.size]
      case Buf(slot) => dev.buf[Offset(dev.sp.size, slot)..Offset(dev.sp.size, slot) + dev.sp.size]
    }

    /** A readable pointer yields exactly the owner's record, however it was obtained. */
    lemma DerefIsSlot(ptr: Ptr, item: nat)
      requires Valid() && Readable(ptr, item)
      ensures Deref(ptr, item) == dev.sp.Slot(item)
    {
      hide Queues, Offset, Pipeline;
      if ptr.Buf? {
        assert Deref(ptr, item) == Bytes(dev.sp.size, dev.buf, ptr.slot);
      }
    }

    constructor (sid: nat, dev: Device, cache: RdmaCache)
      requires dev.Valid() && Idle(dev.State()) && dev.issued == map[]
      requires cache.Valid() && cache.sp == dev.sp && sid < |dev.sp.mem|
      ensures Valid() && this.sid == sid && this.dev == dev && this.cache == cache
      ensures batches == [] && thdCache == map[] && usedSlots == 0
    {
      this.sid, this.dev, this.cache := sid, dev, cache;
      usedSlots, thdCache, thdPolls, batches := 0, map[], [], [];
      SizesOk(dev.sp, dev.State());
    }

    /** Before each query: the buffer is free again and the pointer cache empty. */
    method ResetThdCtx()
      requires Valid() && batches == []
      modifies this`usedSlots, this`thdCache, dev`issued, dev`signaled, dev`peak
      ensures Valid() && usedSlots == 0 && thdCache == map[] && dev.issued == map[] && batches == [] && dev.peak == 0
      ensures Idle(dev.State())
    {
      hide NetOk, CacheOk;
      NothingQueued();
      usedSlots := 0;
      thdCache := map[];
      dev.Forget();
    }

    /** With no batch in flight nothing is outstanding on any queue pair. */
    lemma NothingQueued()
      requires Valid() && batches == []
      ensures Idle(dev.State())
    {
      AllPolledIsIdle(dev.sp, dev.State());
    }

    /** Remembers where a scored remote vertex was put. */
    method UpdateThdCache(item: nat, ptr: Ptr)
      requires Valid() && Readable(ptr, item)
      modifies this`thdCache
      ensures Valid() && thdCache == if Server(item) != sid then old(thdCache)[item := ptr] else old(thdCache)
      ensures forall p, y :: old(Readable(p, y)) ==> Readable(p, y)
      ensures forall p, y, b :: old(FromBatch(p, y, b)) ==> FromBatch(p, y, b)
    {
      hide NetOk, CacheOk, Pipeline, Landed, Server;
      if Server(item) != sid {
        thdCache := thdCache[item := ptr];
      }
    }

    /** The pointer to a vertex that was scored before; hit is false where the source throws. */
    method GetVertex(item: nat) returns (hit: bool, ptr: Ptr)
      requires Valid() && dev.sp.Has(item)
      ensures hit <==> Server(item) == sid || item in thdCache
      ensures hit ==> Readable(ptr, item)
    {
      hide NetOk, CacheOk, Pipeline, Landed;
      if Server(item) == sid {
        return true, Kv(Offset(dev.sp.size, Local(item)));
      }
      if item in thdCache {
        return true, thdCache[item];
      }
      return false, Kv(0);
    }

    /** The pointers for a batch of items, and the arguments of the reads it needs. */
    method Plan(keys: seq<nat>) returns (res: seq<Ptr>, nid: seq<nat>, local: seq<nat>, off: seq<nat>,
                ghost fetched: seq<nat>)
      requires Valid() && forall i :: 0 <= i < |keys| ==> dev.sp.Has(keys[i])
      modifies this`usedSlots
      ensures Valid() && usedSlots == old(usedSlots) + |fetched| && |res| == |keys|
      ensures fetched == Misses(sid, cache.cacheTable, keys)
      ensures forall i :: 0 <= i < |keys| ==>
                Assigned(dev.sp, sid, cache.cacheTable, res[i], keys, i, old(usedSlots))
      ensures BatchArgs(dev.sp, fetched, old(usedSlots), nid, local, off)
    {
      hide NetOk, CacheOk, Pipeline, Landed, Offset, Local, Server, Space.Has;
      res, nid, local, off, fetched := [], [], [], [], [];
      for i := 0 to |keys|
        invariant Valid() && usedSlots == old(usedSlots) + |fetched| && |res| == i
        invariant fetched == Misses(sid, cache.cacheTable, keys[..i])
        invariant forall j :: 0 <= j < i ==>
                    Assigned(dev.sp, sid, cache.cacheTable, res[j], keys, j, old(usedSlots))
        invariant BatchArgs(dev.sp, fetched, old(usedSlots), nid, local, off)
      {
        assert keys[..i + 1][..i] == keys[..i];
        if Server(keys[i]) == sid {
          res := res + [Kv(Offset(dev.sp.size, Local(keys[i])))];
          continue;
        }
        var cached := cache.Lookup(keys[i]);
        if cached != -1 {
          res := res + [Cached(cached)];
          continue;
        }
        res := res + [Buf(usedSlots)];
        nid := nid + [Server(keys[i])];
        local := local + [Offset(dev.sp.size, usedSlots)];
        off := off + [Offset(dev.sp.size, Local(keys[i]))];
        fetched := fetched + [keys[i]];
        usedSlots := usedSlots + 1;
      }
      assert keys[..|keys|] == keys;
    }

    /** The batch has room in the buffer. */
    ghost predicate Room(k: nat)
      reads this, dev
    {
      Offset(dev.sp.size, usedSlots + k) < |dev.buf|
    }

    /** ptr was handed out for item by the batch, or needs no read. */
    ghost predicate FromBatch(ptr: Ptr, item: nat, x: Batch)
      reads this, dev, cache
    {
      PtrOk(ptr, item) && (ptr.Buf? ==> x.first <= ptr.slot < x.first + |x.items|) && (Server(item) == sid ==> ptr.Kv?)
    }

    /** What a batch assigned comes from the batch once its reads are posted. */
    lemma HandedOut(res: seq<Ptr>, keys: seq<nat>, x: Batch)
      requires |res| == |keys| && forall i :: 0 <= i < |keys| ==> dev.sp.Has(keys[i])
      requires forall i :: 0 <= i < |keys| ==> Assigned(dev.sp, sid, cache.cacheTable, res[i], keys, i, x.first)
      requires x.items == Misses(sid, cache.cacheTable, keys)
      requires forall k :: x.first <= k < x.first + |x.items| ==>
                k in dev.issued && dev.issued[k] == x.items[k - x.first]
      ensures forall i :: 0 <= i < |keys| ==> FromBatch(res[i], keys[i], x)
    {
      hide Offset, Local, Server, Space.Has, Misses;
      MissesFetched(sid, cache.cacheTable, keys);
    }

    /** The network runs for a while on its own. */
    method NetworkRuns()
      requires Valid()
      modifies dev`sq, dev`cq, dev`buf
      ensures Valid() && |dev.buf| == old(|dev.buf|)
      ensures forall p, y :: old(Readable(p, y)) ==> Readable(p, y)
      ensures forall p, y, b :: old(FromBatch(p, y, b)) ==> FromBatch(p, y, b)
    {
      hide NetOk, CacheOk, Landed, Pipeline, Server;
      dev.Progress();
    }

    /** The asynchronous batch: its reads are posted, and its poll counts queued, unless the buffer has
        no room for them or some server gets more than a doorbell takes. */
    method GetVertexBatchAsync(keys: seq<nat>) returns (r: Outcome, res: seq<Ptr>, ghost x: Batch)
      requires Valid() && forall i :: 0 <= i < |keys| ==> dev.sp.Has(keys[i])
      modifies this`usedSlots, this`thdPolls, this`batches, dev
      ensures x == Batch(Misses(sid, cache.cacheTable, keys), old(usedSlots))
      ensures |dev.buf| == old(|dev.buf|) && usedSlots == old(usedSlots) + |x.items|
      ensures r == if !old(Room(|Misses(sid, cache.cacheTable, keys)|)) then NoRoom
                   else if !DoorbellsFit(x.items, x.first, |dev.sp.mem|) then TooManyReads else Done
      ensures r == Done ==> Valid() && batches == old(batches) + [x]
      ensures r == Done ==> |res| == |keys| && forall i :: 0 <= i < |keys| ==>
                Assigned(dev.sp, sid, cache.cacheTable, res[i], keys, i, old(usedSlots))
      ensures r == Done ==> forall i :: 0 <= i < |keys| ==> FromBatch(res[i], keys[i], x)
      ensures r == Done ==> forall p, y :: old(Readable(p, y)) ==> Readable(p, y)
      ensures r == Done ==> forall p, y, b :: old(FromBatch(p, y, b)) ==> FromBatch(p, y, b)
      ensures dev.peak <= Larger(old(dev.peak), MAX_DOORBELL_SIZE * (old(|batches|) + 1))
    {
      hide NetOk, CacheOk, Landed, Local, Server, Space.Has, Offset, BatchPosted, OnTo, Queued, Misses, Assigned,
           Pipeline, SentShape;
      hide DoorbellsFit;
      ghost var n, first := |dev.sp.mem|, usedSlots;
      var nid, local, off; ghost var fetched;
      res, nid, local, off, fetched := Plan(keys);
      x := Batch(fetched, first);
      if !(Offset(dev.sp.size, usedSlots) < |dev.buf|) {
        return NoRoom, res, x;
      }
      SizesOk(dev.sp, dev.State());
      RoomFits(dev.sp, dev.State(), first, |fetched|, |fetched|);
      ghost var b, limit := dev.Book(), Larger(dev.peak, MAX_DOORBELL_SIZE * (|batches| + 1));
      forall s | 0 <= s < |dev.unpolled| ensures |dev.unpolled[s]| + MAX_DOORBELL_SIZE <= limit {
        OutstandingReads(b, batches, thdPolls, n, s);
      }
      var ok, polls := dev.RdmaReadBatchDoorbellUnsignalAsyncSend(nid, local, off, fetched, first, limit);
      if !ok {
        return TooManyReads, res, x;
      }
      SentFacts(b, fetched, first, n);
      ServersExist(dev.sp, fetched, first, nid, local, off);
      PipelinePush(b, dev.Book(), batches, thdPolls, n, x, polls);
      SentIssues(b, dev.Book(), dev.sp, fetched, first);
      HandedOut(res, keys, x);
      thdPolls := thdPolls + [polls];
      batches := batches + [x];
      return Done, res, x;
    }

    /** The synchronous batch, used before anything is in flight. */
    method GetVertexBatch(keys: seq<nat>) returns (r: Outcome, res: seq<Ptr>)
      requires Valid() && batches == []
      requires forall i :: 0 <= i < |keys| ==> dev.sp.Has(keys[i])
      modifies this`usedSlots, dev
      ensures |dev.buf| == old(|dev.buf|)
      ensures usedSlots == old(usedSlots) + |Misses(sid, cache.cacheTable, keys)|
      ensures r == if !old(Room(|Misses(sid, cache.cacheTable, keys)|)) then NoRoom else Done
      ensures dev.peak <= Larger(old(dev.peak), |keys|) && (r == Done ==> Valid())
      ensures r == Done ==> |res| == |keys| && forall i :: 0 <= i < |keys| ==>
                Assigned(dev.sp, sid, cache.cacheTable, res[i], keys, i, old(usedSlots))
      ensures r == Done ==> forall i :: 0 <= i < |keys| ==> Readable(res[i], keys[i])
      ensures r == Done ==> forall p, y :: old(Readable(p, y)) ==> Readable(p, y)
      ensures r == Done ==> forall p, y, b :: old(FromBatch(p, y, b)) ==> FromBatch(p, y, b)
    {
      hide NetOk, CacheOk, Landed, Local, Server, Space.Has, Offset, Misses, Assigned;
      ghost var first := usedSlots;
      NothingQueued();
      var nid, local, off; ghost var fetched;
      res, nid, local, off, fetched := Plan(keys);
      if !(Offset(dev.sp.size, usedSlots) < |dev.buf|) {
        return NoRoom, res;
      }
      SizesOk(dev.sp, dev.State());
      RoomFits(dev.sp, dev.State(), first, |fetched|, |fetched|);
      dev.RdmaReadBatch(nid, local, off, fetched, first);
      HandedOut(res, keys, Batch(fetched, first));
      return Done, res;
    }

    /** Waits for the oldest batch in flight; its reads have landed. */
    method GetVertexBatchWait()
      requires Valid() && batches != []
      modifies this`thdPolls, this`batches, dev
      ensures Valid() && |dev.buf| == old(|dev.buf|) && dev.peak == old(dev.peak)
      ensures batches == old(batches)[1..]
      ensures forall p, y :: old(Readable(p, y)) ==> Readable(p, y)
      ensures forall p, y, b :: old(FromBatch(p, y, b)) ==> FromBatch(p, y, b)
      ensures forall p, y :: old(FromBatch(p, y, batches[0])) ==> Readable(p, y)
    {
      hide NetOk, CacheOk, Landed, Local, Server, Space.Has, Offset, OnTo, Queued;
      ghost var n, x := |dev.sp.mem|, batches[0];
      ghost var b := dev.Book();
      SizesOk(dev.sp, dev.State());
      PipelineFront(b, batches, thdPolls, n);
      dev.RdmaReadBatchUnsignalAsyncWait(thdPolls[0], x.items, x.first);
      PipelinePop(b, dev.Book(), batches, thdPolls, n);
      thdPolls := thdPolls[1..];
      batches := batches[1..];
    }
  }

  lemma RoomFits(sp: Space, n: Net, first: nat, k: nat, room: nat)
    requires k <= room && Offset(sp.size, first + room) < |n.buf|
    requires forall slot :: slot in n.issued ==> slot < first
    ensures FreeSlots(sp, n, first, k)
  {
    if k < room { OffsetGap(sp.size, first + k, first + room); }
  }

  lemma ServersExist(sp: Space, items: seq<nat>, first: nat, nid: seq<nat>, local: seq<nat>, off: seq<nat>)
    requires BatchArgs(sp, items, first, nid, local, off)
    ensures forall i :: 0 <= i < |items| ==> Server(items[i]) < |sp.mem|
  {
  }

  /** After the doorbells every slot of the batch is issued to its item, and older slots are as before. */
  lemma SentIssues(b: Ledger, b': Ledger, sp: Space, items: seq<nat>, first: nat)
    requires SentShape(b, b', items, first, |sp.mem|) && forall k :: k in b.issued ==> k < first
    requires forall i :: 0 <= i < |items| ==> Server(items[i]) < |sp.mem|
    ensures forall k :: first <= k < first + |items| ==> k in b'.issued && b'.issued[k] == items[k - first]
    ensures forall k :: k in b.issued ==> k in b'.issued && b'.issued[k] == b.issued[k]
    ensures forall k :: k in b'.issued ==> k < first + |items|
  {
    forall k | first <= k < first + |items| ensures k in b'.issued && b'.issued[k] == items[k - first] {
      assert SlotBelow(items, first, |sp.mem|, k);
    }
  }
}
