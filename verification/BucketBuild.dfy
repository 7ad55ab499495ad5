/** `generate_base_index_on_buckets`: gives each vertex a place (bucket, local id) and writes its
    record there. */
module BucketBuild {
  import opened Common
  import opened RecordLayout

  type Graph = seq<seq<nat>>

  ghost predicate ValidGraph(graph: Graph, maxDegree: nat) {
    && |graph| < WORD && maxDegree < WORD
    && (forall x :: 0 <= x < |graph| ==> |graph[x]| <= maxDegree)
    && (forall x, i :: 0 <= x < |graph| && 0 <= i < |graph[x]| ==> graph[x][i] < |graph|)
  }

  // ----- places -------------------------------------------------------------------------------

  lemma {:induction false} MembersPrefix(bucketOf: seq<nat>, b: nat, k: nat, n: nat)
    requires k <= n <= |bucketOf|
    ensures Members(bucketOf, b, k) <= Members(bucketOf, b, n)
  {
    if k < n { MembersPrefix(bucketOf, b, k, n - 1); }
  }

  /** place is the numbering that puts the members of each bucket, in order, at local ids 0, 1, ... */
  ghost predicate IsNumbering(bucketOf: seq<nat>, place: seq<nat>, k: nat)
    requires k <= |bucketOf|
  {
    |place| == |bucketOf|
    && forall id :: 0 <= id < k ==> place[id] == Pack(bucketOf[id], |Members(bucketOf, bucketOf[id], id)|)
  }

  /** The numbering is a bijection onto the pairs (b, l) with l below the size of bucket b. */
  lemma NumberingIsBijection(bucketOf: seq<nat>, place: seq<nat>, id: nat)
    requires |bucketOf| < WORD && IsNumbering(bucketOf, place, |bucketOf|) && id < |bucketOf|
    ensures var b, l := Server(place[id]), Local(place[id]);
            && b == bucketOf[id] && l < |Members(bucketOf, b, |bucketOf|)|
            && Members(bucketOf, b, |bucketOf|)[l] == id
  {
    hide Members, Pack, Server, Local;
    var b := bucketOf[id];
    PackUnpack(b, |Members(bucketOf, b, id)|);
    MembersNext(bucketOf, b, id + 1);
    MembersPrefix(bucketOf, b, id + 1, |bucketOf|);
    assert Members(bucketOf, b, |bucketOf|)[|Members(bucketOf, b, id)|]
              == Members(bucketOf, b, id + 1)[|Members(bucketOf, b, id)|];
  }

  lemma NumberingIsOnto(bucketOf: seq<nat>, place: seq<nat>, b: nat, l: nat)
    requires |bucketOf| < WORD && IsNumbering(bucketOf, place, |bucketOf|)
    requires l < |Members(bucketOf, b, |bucketOf|)|
    ensures Members(bucketOf, b, |bucketOf|)[l] < |bucketOf|
    ensures place[Members(bucketOf, b, |bucketOf|)[l]] == Pack(b, l)
  {
    MemberPosition(bucketOf, b, |bucketOf|, l);
  }

  lemma {:induction false} MemberPosition(bucketOf: seq<nat>, b: nat, k: nat, l: nat)
    requires k <= |bucketOf| && l < |Members(bucketOf, b, k)|
    ensures var id := Members(bucketOf, b, k)[l];
            id < k && bucketOf[id] == b && |Members(bucketOf, b, id)| == l
  {
    if bucketOf[k - 1] != b || l < |Members(bucketOf, b, k - 1)| {
      MemberPosition(bucketOf, b, k - 1, l);
    }
  }

  /** The counting loop. */
  method AssignPlaces(bucketOf: seq<nat>, bc: nat) returns (place: seq<nat>, dataNum: seq<nat>)
    requires |bucketOf| < WORD && forall id :: 0 <= id < |bucketOf| ==> bucketOf[id] < bc
    ensures IsNumbering(bucketOf, place, |bucketOf|)
    ensures |dataNum| == bc && forall b :: 0 <= b < bc ==> dataNum[b] == |Members(bucketOf, b, |bucketOf|)|
  {
    place := seq(|bucketOf|, _ => 0);
    dataNum := seq(bc, _ => 0);
    for id := 0 to |bucketOf|
      invariant IsNumbering(bucketOf, place, id)
      invariant |dataNum| == bc && forall b :: 0 <= b < bc ==> dataNum[b] == |Members(bucketOf, b, id)|
    {
      hide Members, Pack;
      var b := bucketOf[id];
      forall c | 0 <= c < bc
        ensures |Members(bucketOf, c, id + 1)| == |Members(bucketOf, c, id)| + if c == b then 1 else 0
      {
        MembersNext(bucketOf, c, id + 1);
      }
      place := place[id := Pack(b, dataNum[b])];
      dataNum := dataNum[b := dataNum[b] + 1];
    }
  }

  // ----- records ------------------------------------------------------------------------------

  function RefTo(place: seq<nat>, x: nat): Ref
    requires x < |place|
  {
    Ref(x, Server(place[x]), Local(place[x]))
  }

  function RefsTo(place: seq<nat>, neighbors: seq<nat>): seq<Ref>
    requires forall i :: 0 <= i < |neighbors| ==> neighbors[i] < |place|
  {
    seq(|neighbors|, i requires 0 <= i < |neighbors| => RefTo(place, neighbors[i]))
  }

  /** The record of vertex id. */
  ghost function RecordOf(vectors: seq<seq<byte>>, graph: Graph, place: seq<nat>, id: nat): Record
    requires id < |vectors| == |graph| == |place|
    requires forall i :: 0 <= i < |graph[id]| ==> graph[id][i] < |place|
  {
    Record(vectors[id], id, RefsTo(place, graph[id]))
  }

  method MemCopy(buf: array<byte>, off: nat, bytes: seq<byte>)
    requires off + |bytes| <= buf.Length
    modifies buf
    ensures buf[..] == Splice(old(buf[..]), off, bytes)
  {
    forall i | 0 <= i < |bytes| {
      buf[off + i] := bytes[i];
    }
  }

  /** Appends one neighbour triple to the `done` bytes already written from off. */
  method WriteRef(buf: array<byte>, destination: nat, r: Ref, ghost s0: seq<byte>, ghost off: nat,
                  ghost done: seq<byte>)
    requires IsRef(r) && off + |done| == destination && destination + REF_BYTES <= buf.Length == |s0|
    requires buf[..] == Splice(s0, off, done)
    modifies buf
    ensures buf[..] == Splice(s0, off, done + EncRef(r))
  {
    hide Splice, Enc32;
    MemCopy(buf, destination, Enc32(r.vid));
    SpliceAppend(s0, off, done, Enc32(r.vid));
    MemCopy(buf, destination + 4, [r.server as byte]);
    SpliceAppend(s0, off, done + Enc32(r.vid), [r.server as byte]);
    MemCopy(buf, destination + 5, Enc32(r.lid));
    SpliceAppend(s0, off, done + Enc32(r.vid) + [r.server as byte], Enc32(r.lid));
    assert done + Enc32(r.vid) + [r.server as byte] + Enc32(r.lid) == done + EncRef(r);
  }

  lemma RefsSnoc(head: seq<byte>, refs: seq<Ref>, m: nat)
    requires m < |refs| && forall i :: 0 <= i < |refs| ==> IsRef(refs[i])
    ensures head + EncRefs(refs[..m]) + EncRef(refs[m]) == head + EncRefs(refs[..m + 1])
  {
    assert refs[..m + 1][..m] == refs[..m];
  }

  /** Appends the neighbour triples. */
  method WriteRefs(buf: array<byte>, start: nat, neighbors: seq<nat>, place: seq<nat>,
                   ghost s0: seq<byte>, ghost off: nat, ghost head: seq<byte>)
    requires |place| <= WORD && forall i :: 0 <= i < |neighbors| ==> neighbors[i] < |place|
    requires forall x :: 0 <= x < |place| ==> Server(place[x]) < 256
    requires off + |head| == start && start + REF_BYTES * |neighbors| <= buf.Length == |s0|
    requires buf[..] == Splice(s0, off, head)
    modifies buf
    ensures forall i :: 0 <= i < |neighbors| ==> IsRef(RefsTo(place, neighbors)[i])
    ensures buf[..] == Splice(s0, off, head + EncRefs(RefsTo(place, neighbors)))
  {
    ghost var refs := RefsTo(place, neighbors);
    var destination := start;
    assert head + EncRefs(refs[..0]) == head;
    for m := 0 to |neighbors|
      invariant destination == start + REF_BYTES * m
      invariant buf[..] == Splice(s0, off, head + EncRefs(refs[..m]))
    {
      hide Splice, EncRef, EncRefs;
      WriteRef(buf, destination, RefTo(place, neighbors[m]), s0, off, head + EncRefs(refs[..m]));
      RefsSnoc(head, refs, m);
      destination := destination + REF_BYTES;
    }
    assert refs[..|neighbors|] == refs;
  }

  /** Writes one record at off with the source's sequence of copies. */
  method WriteRecord(buf: array<byte>, off: nat, vector: seq<byte>, id: nat, neighbors: seq<nat>, place: seq<nat>)
    requires id < WORD && |neighbors| < WORD && |place| <= WORD
    requires forall i :: 0 <= i < |neighbors| ==> neighbors[i] < |place|
    requires forall x :: 0 <= x < |place| ==> Server(place[x]) < 256
    requires off + RecordBytes(|vector|, |neighbors|) <= buf.Length
    modifies buf
    ensures IsRecord(Record(vector, id, RefsTo(place, neighbors)), |vector|, |neighbors|)
    ensures buf[..] == Splice(old(buf[..]), off, EncRecord(Record(vector, id, RefsTo(place, neighbors))))
  {
    hide Splice, Enc32, EncRefs;
    ghost var s0 := buf[..];
    MemCopy(buf, off, vector);
    MemCopy(buf, off + |vector|, Enc32(id));
    SpliceAppend(s0, off, vector, Enc32(id));
    MemCopy(buf, off + |vector| + 4, Enc32(|neighbors|));
    SpliceAppend(s0, off, vector + Enc32(id), Enc32(|neighbors|));
    WriteRefs(buf, off + |vector| + 8, neighbors, place, s0, off, vector + Enc32(id) + Enc32(|neighbors|));
  }

  // ----- buckets ------------------------------------------------------------------------------

  function ElementSize(vecBytes: nat, maxDegree: nat): nat {
    RecordBytes(vecBytes, maxDegree)
  }

  /** The inputs of the build. The bucket of a vertex is the number of its coarse cluster as one byte. */
  datatype Input = Input(vectors: seq<seq<byte>>, graph: Graph, bucketOf: seq<nat>, bc: nat, vecBytes: nat,
      maxDegree: nat) {
    ghost predicate Valid() {
      && ValidGraph(graph, maxDegree) && |vectors| == |graph| == |bucketOf|
      && (forall id :: 0 <= id < |vectors| ==> |vectors[id]| == vecBytes)
      && (forall id :: 0 <= id < |bucketOf| ==> bucketOf[id] < bc && bucketOf[id] < 256)
    }

    function Size(): (bytes: nat)
      ensures bytes == vecBytes + 8 + 9 * maxDegree
    {
      ElementSize(vecBytes, maxDegree)
    }
  }

  ghost predicate Placed(x: Input, place: seq<nat>) {
    x.Valid() && IsNumbering(x.bucketOf, place, |x.bucketOf|)
  }

  lemma PlacedFacts(x: Input, place: seq<nat>, id: nat)
    requires Placed(x, place) && id < |place|
    ensures Server(place[id]) == x.bucketOf[id] < x.bc
    ensures Local(place[id]) < |Members(x.bucketOf, x.bucketOf[id], |place|)|
  {
    NumberingIsBijection(x.bucketOf, place, id);
  }

  /** The offset of slot l in a block of slots of the given size. */
  function Offset(size: nat, l: nat): nat {
    size * l
  }

  lemma OffsetGap(size: nat, l: nat, n: nat)
    requires l < n
    ensures Offset(size, l) + size <= Offset(size, n)
  {
    var k := n - l - 1;
    assert size * (l + 1 + k) == size * l + size + size * k;
  }

  /** The memory blocks have one slot for each vertex of their bucket. */
  ghost predicate Sized(x: Input, mem: seq<seq<byte>>)
    requires x.Valid()
  {
    |mem| == x.bc && forall b :: 0 <= b < x.bc ==> |mem[b]| == Offset(x.Size(), |Members(x.bucketOf, b, |x.bucketOf|)|)
  }

  /** The bytes of the record r are at off. */
  ghost predicate BlockHas(s: seq<byte>, off: nat, r: Record) {
    && IsRecord(r, |r.vector|, |r.refs|)
    && off + |EncRecord(r)| <= |s| && s[off..off + |EncRecord(r)|] == EncRecord(r)
  }

  /** Memory holds the record r at item's slot. */
  ghost predicate RecordAt(mem: seq<seq<byte>>, size: nat, item: nat, r: Record) {
    Server(item) < |mem| && BlockHas(mem[Server(item)], Offset(size, Local(item)), r)
  }

  lemma BlockWrite(s: seq<byte>, off: nat, r: Record)
    requires IsRecord(r, |r.vector|, |r.refs|) && off + |EncRecord(r)| <= |s|
    ensures BlockHas(Splice(s, off, EncRecord(r)), off, r)
  {
    SpliceSlice(s, off, EncRecord(r), off, |EncRecord(r)|);
  }

  lemma BlockKeeps(s: seq<byte>, off: nat, e: seq<byte>, p: nat, r: Record)
    requires off + |e| <= |s| && BlockHas(s, p, r)
    requires p + |EncRecord(r)| <= off || off + |e| <= p
    ensures BlockHas(Splice(s, off, e), p, r)
  {
    SpliceSlice(s, off, e, p, |EncRecord(r)|);
  }

  ghost function RecordFor(x: Input, place: seq<nat>, id: nat): Record
    requires Placed(x, place) && id < |place|
  {
    RecordOf(x.vectors, x.graph, place, id)
  }

  /** The records of the first k vertices are in place. */
  ghost predicate Stored(x: Input, place: seq<nat>, mem: seq<seq<byte>>, k: nat)
    requires Placed(x, place) && k <= |place|
  {
    forall id :: 0 <= id < k ==> RecordAt(mem, x.Size(), place[id], RecordFor(x, place, id))
  }

  lemma RecordIsValid(x: Input, place: seq<nat>, id: nat)
    requires Placed(x, place) && id < |place|
    ensures var r := RecordFor(x, place, id);
            IsRecord(r, |r.vector|, |r.refs|) && |r.vector| == x.vecBytes && |EncRecord(r)| <= x.Size()
  {
    forall i | 0 <= i < |x.graph[id]| ensures IsRef(RefTo(place, x.graph[id][i])) {
      PlacedFacts(x, place, x.graph[id][i]);
    }
  }

  /** The slot of a vertex lies inside its bucket's block. */
  lemma SlotInBlock(x: Input, place: seq<nat>, mem: seq<seq<byte>>, id: nat)
    requires Placed(x, place) && id < |place| && Sized(x, mem)
    ensures Server(place[id]) < |mem|
    ensures Offset(x.Size(), Local(place[id])) + x.Size() <= |mem[Server(place[id])]|
  {
    PlacedFacts(x, place, id);
    OffsetGap(x.Size(), Local(place[id]), |Members(x.bucketOf, x.bucketOf[id], |place|)|);
  }

  /** Slots of different vertices do not overlap. */
  lemma SlotsApart(x: Input, place: seq<nat>, i: nat, k: nat)
    requires Placed(x, place) && i < k < |place| && Server(place[i]) == Server(place[k])
    ensures var p, q := Offset(x.Size(), Local(place[i])), Offset(x.Size(), Local(place[k]));
            p + x.Size() <= q || q + x.Size() <= p
  {
    LocalsDiffer(x.bucketOf, place, i, k);
    OffsetsApart(x.Size(), Local(place[i]), Local(place[k]));
  }

  lemma LocalsDiffer(bucketOf: seq<nat>, place: seq<nat>, i: nat, k: nat)
    requires |bucketOf| < WORD && IsNumbering(bucketOf, place, |bucketOf|) && i < k < |bucketOf|
    requires Server(place[i]) == Server(place[k])
    ensures Local(place[i]) != Local(place[k])
  {
    NumberingIsBijection(bucketOf, place, i);
    NumberingIsBijection(bucketOf, place, k);
  }

  lemma OffsetsApart(size: nat, l: nat, n: nat)
    requires l != n
    ensures Offset(size, l) + size <= Offset(size, n) || Offset(size, n) + size <= Offset(size, l)
  {
    if l < n { OffsetGap(size, l, n); } else { OffsetGap(size, n, l); }
  }

  /** Memory after the record of vertex k is written. */
  ghost function WithRecord(x: Input, place: seq<nat>, mem: seq<seq<byte>>, k: nat): seq<seq<byte>>
    requires Placed(x, place) && k < |place| && Sized(x, mem)
  {
    RecordIsValid(x, place, k);
    SlotInBlock(x, place, mem, k);
    var b := Server(place[k]);
    mem[b := Splice(mem[b], Offset(x.Size(), Local(place[k])), EncRecord(RecordFor(x, place, k)))]
  }

  /** Writing the record of vertex k keeps the earlier ones: no two records overlap. */
  lemma StoreNext(x: Input, place: seq<nat>, mem: seq<seq<byte>>, k: nat)
    requires Placed(x, place) && k < |place| && Sized(x, mem) && Stored(x, place, mem, k)
    ensures Stored(x, place, WithRecord(x, place, mem, k), k + 1)
  {
    hide Splice, EncRecord, Offset, Members, IsNumbering;
    var mem' := WithRecord(x, place, mem, k);
    forall id | 0 <= id < k + 1 ensures RecordAt(mem', x.Size(), place[id], RecordFor(x, place, id)) {
      StoreKeeps(x, place, mem, k, id);
    }
  }

  lemma StoreKeeps(x: Input, place: seq<nat>, mem: seq<seq<byte>>, k: nat, id: nat)
    requires Placed(x, place) && id <= k < |place| && Sized(x, mem)
    requires id < k ==> RecordAt(mem, x.Size(), place[id], RecordFor(x, place, id))
    ensures RecordAt(WithRecord(x, place, mem, k), x.Size(), place[id], RecordFor(x, place, id))
  {
    hide Splice, EncRecord, Offset, Members, IsNumbering;
    RecordIsValid(x, place, k);
    RecordIsValid(x, place, id);
    SlotInBlock(x, place, mem, k);
    var b, off := Server(place[k]), Offset(x.Size(), Local(place[k]));
    if id == k {
      BlockWrite(mem[b], off, RecordFor(x, place, k));
    } else if Server(place[id]) == b {
      SlotsApart(x, place, id, k);
      BlockKeeps(mem[b], off, EncRecord(RecordFor(x, place, k)), Offset(x.Size(), Local(place[id])),
          RecordFor(x, place, id));
    }
  }

  function Memory(buckets: seq<array<byte>>): (mem: seq<seq<byte>>)
    reads buckets
    ensures |mem| == |buckets| && forall b :: 0 <= b < |buckets| ==> mem[b] == buckets[b][..]
  {
    seq(|buckets|, b requires 0 <= b < |buckets| reads buckets => buckets[b][..])
  }

  ghost predicate Separate(buckets: seq<array<byte>>) {
    forall a, b :: 0 <= a < b < |buckets| ==> buckets[a] != buckets[b]
  }

  method Allocate(x: Input, dataNum: seq<nat>) returns (buckets: seq<array<byte>>)
    requires x.Valid() && |dataNum| == x.bc
    requires forall b :: 0 <= b < x.bc ==> dataNum[b] == |Members(x.bucketOf, b, |x.bucketOf|)|
    ensures Separate(buckets) && fresh(buckets) && Sized(x, Memory(buckets))
  {
    buckets := [];
    for b := 0 to x.bc
      invariant |buckets| == b && Separate(buckets) && fresh(buckets)
      invariant forall a :: 0 <= a < b ==> buckets[a].Length == Offset(x.Size(), dataNum[a])
    {
      hide Offset;
      var block := new byte[Offset(x.Size(), dataNum[b])];
      buckets := buckets + [block];
    }
  }

  method WriteVertex(x: Input, place: seq<nat>, buckets: seq<array<byte>>, id: nat)
    requires Placed(x, place) && id < |place| && Separate(buckets)
    requires Sized(x, Memory(buckets)) && Stored(x, place, Memory(buckets), id)
    modifies buckets
    ensures Sized(x, Memory(buckets)) && Stored(x, place, Memory(buckets), id + 1)
  {
    hide Splice, EncRecord, Offset, Members;
    ghost var mem := Memory(buckets);
    StoreNext(x, place, mem, id);
    SlotInBlock(x, place, mem, id);
    RecordIsValid(x, place, id);
    forall y | 0 <= y < |place| ensures Server(place[y]) < 256 {
      PlacedFacts(x, place, y);
    }
    var b := Server(place[id]);
    WriteRecord(buckets[b], Offset(x.Size(), Local(place[id])), x.vectors[id], id, x.graph[id], place);
    assert Memory(buckets) == WithRecord(x, place, mem, id);
  }

  /** The build: every vertex gets a place, and its record is in memory at that place. */
  method GenerateBaseIndexOnBuckets(x: Input, ep: nat) returns (place: seq<nat>, dataNum: seq<nat>,
                                    buckets: seq<array<byte>>, epItem: nat)
    requires x.Valid() && ep < |x.graph|
    ensures Placed(x, place) && Sized(x, Memory(buckets)) && Stored(x, place, Memory(buckets), |place|)
    ensures |dataNum| == x.bc && forall b :: 0 <= b < x.bc ==> dataNum[b] == |Members(x.bucketOf, b, |x.bucketOf|)|
    ensures epItem == place[ep] && fresh(buckets)
  {
    place, dataNum := AssignPlaces(x.bucketOf, x.bc);
    buckets := Allocate(x, dataNum);
    for id := 0 to |x.graph|
      invariant fresh(buckets)
      invariant Sized(x, Memory(buckets)) && Stored(x, place, Memory(buckets), id)
    {
      WriteVertex(x, place, buckets, id);
    }
    epItem := place[ep];
  }

  /** The slot of item is in memory and decodes to r. */
  ghost predicate Decodes(mem: seq<seq<byte>>, size: nat, item: nat, vecBytes: nat, r: Record) {
    && Server(item) < |mem|
    && var s, off := mem[Server(item)], Offset(size, Local(item));
       off + size <= |s| && RecordLayout.Holds(s, off, vecBytes) && DecRecord(s, off, vecBytes) == r
  }

  /** The slot of item is in memory and decodes, on its own, to r. */
  ghost predicate DecodesAlone(mem: seq<seq<byte>>, size: nat, item: nat, vecBytes: nat, r: Record) {
    && Server(item) < |mem|
    && var s, off := mem[Server(item)], Offset(size, Local(item));
       off + size <= |s| && RecordLayout.Holds(s[off..off + size], 0, vecBytes)
           && DecRecord(s[off..off + size], 0, vecBytes) == r
  }

  /** A vertex's slot decodes, on its own, to its vector and label and exactly the triples (vertex id,
      bucket, local id) of its graph neighbours. */
  lemma SlotDecodes(x: Input, place: seq<nat>, mem: seq<seq<byte>>, id: nat)
    requires Placed(x, place) && Sized(x, mem) && Stored(x, place, mem, |place|) && id < |place|
    ensures DecodesAlone(mem, x.Size(), place[id], x.vecBytes, RecordFor(x, place, id))
  {
    hide EncRecord, Offset, Members, IsNumbering, DecRecord;
    var r := RecordFor(x, place, id);
    assert RecordAt(mem, x.Size(), place[id], r);
    RecordIsValid(x, place, id);
    SlotInBlock(x, place, mem, id);
    var s, off, e := mem[Server(place[id])], Offset(x.Size(), Local(place[id])), EncRecord(r);
    var slot := s[off..off + x.Size()];
    assert slot[0..0 + |e|] == s[off..off + |e|];
    RecordRoundTrip(r, slot, 0);
  }

  /** And so it does in memory. */
  lemma StoredDecodes(x: Input, place: seq<nat>, mem: seq<seq<byte>>, id: nat)
    requires Placed(x, place) && Sized(x, mem) && Stored(x, place, mem, |place|) && id < |place|
    ensures Decodes(mem, x.Size(), place[id], x.vecBytes, Record(x.vectors[id], id, RefsTo(place, x.graph[id])))
  {
    hide Offset, IsNumbering, DecRecord, Stored, Sized, RecordLayout.Holds;
    SlotDecodes(x, place, mem, id);
    var s, off := mem[Server(place[id])], Offset(x.Size(), Local(place[id]));
    DecodeLocally(s, off, s[off..off + x.Size()], x.vecBytes);
  }

  /** Every slot of every bucket is the place of a vertex. */
  lemma EverySlotIsAPlace(x: Input, place: seq<nat>, mem: seq<seq<byte>>, item: nat)
    requires Placed(x, place) && Sized(x, mem) && Server(item) < |mem|
    requires Offset(x.Size(), Local(item)) + x.Size() <= |mem[Server(item)]|
    ensures exists id :: 0 <= id < |place| && place[id] == item
  {
    hide Offset, Server, Local, Pack, Members;
    var b, l := Server(item), Local(item);
    UnpackPack(item);
    var n := |Members(x.bucketOf, b, |place|)|;
    if n < l { OffsetGap(x.Size(), n, l); }
    NumberingIsOnto(x.bucketOf, place, b, l);
  }
}
