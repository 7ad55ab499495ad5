/** Product quantisation: the split of the dimensions into chunks, and distances by table look-up. */
module ProductQuantizer {
  import opened Common

  const NUM_PQ_CENTROIDS := 256

  // ----- the chunk partition ------------------------------------------------------------------

  function Low(dim: nat, chunks: nat): nat
    requires chunks > 0
  {
    dim / chunks
  }

  /** dim / chunks, rounded up. */
  function High(dim: nat, chunks: nat): nat
    requires chunks > 0
  {
    if dim % chunks == 0 then dim / chunks else dim / chunks + 1
  }

  /** How many dimensions chunk b gets: the first dim % chunks chunks get one more. */
  function Capacity(dim: nat, chunks: nat, b: nat): nat
    requires chunks > 0
  {
    if b < dim % chunks then Low(dim, chunks) + 1 else Low(dim, chunks)
  }

  /** Where chunk b starts. */
  ghost function Start(dim: nat, chunks: nat, b: nat): nat
    requires chunks > 0
  {
    if b == 0 then 0 else Start(dim, chunks, b - 1) + Capacity(dim, chunks, b - 1)
  }

  lemma {:induction false} StartForm(dim: nat, chunks: nat, b: nat)
    requires chunks > 0
    ensures Start(dim, chunks, b)
         == b * Low(dim, chunks) + if b < dim % chunks then b else dim % chunks
  {
    if b > 0 {
      StartForm(dim, chunks, b - 1);
      assert b * Low(dim, chunks) == (b - 1) * Low(dim, chunks) + Low(dim, chunks);
    }
  }

  /** The chunks are as many as the dimensions. */
  lemma StartEnd(dim: nat, chunks: nat)
    requires chunks > 0
    ensures Start(dim, chunks, chunks) == dim
  {
    StartForm(dim, chunks, chunks);
    assert dim == chunks * (dim / chunks) + dim % chunks;
  }

  function Consecutive(from: nat, count: nat): (s: seq<nat>)
    ensures |s| == count && forall i :: 0 <= i < count ==> s[i] == from + i
  {
    seq(count, i requires 0 <= i < count => from + i)
  }

  /** After the first d dimensions: chunks before k are full, chunk k holds the rest, in order. */
  ghost predicate Filled(bins: seq<seq<nat>>, dim: nat, chunks: nat, d: nat, k: nat) {
    && 0 < chunks == |bins| && k <= chunks
    && Start(dim, chunks, k) <= d && (if k < chunks then d < Start(dim, chunks, k) + Capacity(dim, chunks, k)
        else d == dim)
    && (forall b :: 0 <= b < k ==> bins[b] == Consecutive(Start(dim, chunks, b), Capacity(dim, chunks, b)))
    && (k < chunks ==> bins[k] == Consecutive(Start(dim, chunks, k), d - Start(dim, chunks, k)))
    && (forall b :: k < b < chunks ==> bins[b] == [])
  }

  lemma CapacityIs(dim: nat, chunks: nat, k: nat)
    requires 0 < chunks <= dim
    ensures Capacity(dim, chunks, k)
         == if dim % chunks > 0 && k >= dim % chunks then Low(dim, chunks) else High(dim, chunks)
    ensures Capacity(dim, chunks, k) > 0 && dim - Low(dim, chunks) * chunks == dim % chunks
    ensures Low(dim, chunks) <= High(dim, chunks) && (dim % chunks > 0 ==> Low(dim, chunks) < High(dim, chunks))
  {
    assert dim == chunks * (dim / chunks) + dim % chunks;
    assert dim / chunks == 0 ==> dim < chunks;
  }

  lemma ConsecutiveSnoc(from: nat, count: nat)
    ensures Consecutive(from, count) + [from + count] == Consecutive(from, count + 1)
  {
  }

  lemma StartNext(dim: nat, chunks: nat, k: nat)
    requires chunks > 0
    ensures Start(dim, chunks, k + 1) == Start(dim, chunks, k) + Capacity(dim, chunks, k)
  {
  }

  /** While dimensions are left chunk k has room, and takes the next one. */
  lemma FilledStep(bins: seq<seq<nat>>, dim: nat, chunks: nat, d: nat, k: nat)
    requires 0 < chunks <= dim && Filled(bins, dim, chunks, d, k) && d < dim
    ensures k < chunks && |bins[k]| < Capacity(dim, chunks, k)
    ensures forall b :: 0 <= b < k ==> |bins[b]| == Capacity(dim, chunks, b)
    ensures Filled(bins[k := bins[k] + [d]], dim, chunks, d + 1,
                   if |bins[k]| + 1 == Capacity(dim, chunks, k) then k + 1 else k)
  {
    hide Capacity, Start, Consecutive, Low, High;
    StartEnd(dim, chunks);
    CapacityIs(dim, chunks, k + 1);
    StartNext(dim, chunks, k);
    var start := Start(dim, chunks, k);
    ConsecutiveSnoc(start, d - start);
    NoneTaken(d + 1);
  }

  lemma NoneTaken(from: nat)
    ensures Consecutive(from, 0) == []
  {
  }

  lemma FilledNone(bins: seq<seq<nat>>, dim: nat, chunks: nat)
    requires 0 < chunks <= dim && |bins| == chunks && forall b :: 0 <= b < chunks ==> bins[b] == []
    ensures Filled(bins, dim, chunks, 0, 0)
  {
    CapacityIs(dim, chunks, 0);
  }

  lemma FilledAll(bins: seq<seq<nat>>, dim: nat, chunks: nat, k: nat)
    requires 0 < chunks <= dim && Filled(bins, dim, chunks, dim, k)
    ensures forall b :: 0 <= b < chunks ==> bins[b] == Consecutive(Start(dim, chunks, b), Capacity(dim, chunks, b))
  {
    hide Capacity;
    StartEnd(dim, chunks);
    if k < chunks {
      StartGrows(dim, chunks, k + 1, chunks);
    }
  }

  lemma {:induction false} StartGrows(dim: nat, chunks: nat, a: nat, b: nat)
    requires chunks > 0 && a <= b
    ensures Start(dim, chunks, a) <= Start(dim, chunks, b)
  {
    if a < b {
      StartGrows(dim, chunks, a, b - 1);
    }
  }

  /** The greedy loop: each dimension goes to the first bin of least load below the size threshold. The
      loads are never changed, so this is the first bin with room; the bins come out as consecutive
      runs of dimensions, the longer ones first. */
  method Partition(dim: nat, chunks: nat, maxFloat: real) returns (bins: seq<seq<nat>>)
    requires 0 < chunks <= dim && maxFloat > 0.0
    ensures |bins| == chunks
    ensures forall b :: 0 <= b < chunks ==> bins[b] == Consecutive(Start(dim, chunks, b), Capacity(dim, chunks, b))
  {
    hide Start, Capacity, Filled, Low, High;
    var lowVal, highVal := Low(dim, chunks), High(dim, chunks);
    var maxNumHigh: int := dim - lowVal * chunks;
    var curNumHigh, curBinThreshold := 0, highVal;
    bins := seq(chunks, _ => []);
    var binLoads := seq(chunks, _ => 0.0);
    ghost var k: nat := 0;
    FilledNone(bins, dim, chunks);
    CapacityIs(dim, chunks, 0);
    for d := 0 to dim
      invariant |bins| == chunks && Filled(bins, dim, chunks, d, k)
      invariant curNumHigh == (if maxNumHigh == 0 || k < maxNumHigh then k else maxNumHigh)
      invariant curBinThreshold == if maxNumHigh > 0 && k >= maxNumHigh then lowVal else highVal
    {
      FilledStep(bins, dim, chunks, d, k);
      CapacityIs(dim, chunks, k);
      forall b | 0 <= b < k ensures |bins[b]| >= curBinThreshold {
        CapacityIs(dim, chunks, b);
      }
      var curBest := FirstWithRoom(bins, binLoads, curBinThreshold, maxFloat, k);
      bins := bins[curBest := bins[curBest] + [d]];
      k := if |bins[k]| == Capacity(dim, chunks, k) then k + 1 else k;
      if |bins[curBest]| == highVal {
        curNumHigh := curNumHigh + 1;
        if curNumHigh == maxNumHigh {
          curBinThreshold := lowVal;
        }
      }
    }
    FilledAll(bins, dim, chunks, k);
  }

  /** The inner search. It always finds a bin. */
  method FirstWithRoom(bins: seq<seq<nat>>, binLoads: seq<real>, threshold: nat, maxFloat: real,
                       ghost k: nat) returns (curBest: nat)
    requires |binLoads| == |bins| && k < |bins| && |bins[k]| < threshold && maxFloat > 0.0
    requires forall b :: 0 <= b < |bins| ==> binLoads[b] == 0.0
    requires forall b :: 0 <= b < k ==> |bins[b]| >= threshold
    ensures curBest == k
  {
    curBest := |bins| + 1;
    var curBestLoad := maxFloat;
    for b := 0 to |bins|
      invariant b <= k ==> curBest == |bins| + 1 && curBestLoad == maxFloat
      invariant b > k ==> curBest == k && curBestLoad == 0.0
    {
      if binLoads[b] < curBestLoad && |bins[b]| < threshold {
        curBest := b;
        curBestLoad := binLoads[b];
      }
    }
  }

  lemma StartZero(dim: nat, chunks: nat)
    requires chunks > 0
    ensures Start(dim, chunks, 0) == 0
  {
  }

  /** Where the chunks start, and the end. */
  method ChunkOffsets(bins: seq<seq<nat>>, dim: nat, chunks: nat) returns (offsets: seq<nat>)
    requires 0 < chunks <= dim && |bins| == chunks
    requires forall b :: 0 <= b < chunks ==> bins[b] == Consecutive(Start(dim, chunks, b), Capacity(dim, chunks, b))
    ensures |offsets| == chunks + 1 && offsets[0] == 0 && offsets[chunks] == dim
    ensures forall b :: 0 <= b < chunks ==> Cut(offsets, bins, dim, chunks, b)
  {
    hide Consecutive, Low, High, Start, Capacity, Cut;
    StartZero(dim, chunks);
    offsets := [0];
    for b := 0 to chunks
      invariant |offsets| == (if b == 0 then 1 else b) && offsets[0] == 0
      invariant forall c :: 0 <= c < |offsets| ==> offsets[c] == Start(dim, chunks, c)
    {
      if b > 0 {
        StartNext(dim, chunks, b - 1);
        offsets := offsets + [offsets[b - 1] + |bins[b - 1]|];
      }
    }
    offsets := offsets + [dim];
    StartEnd(dim, chunks);
    forall b | 0 <= b < chunks ensures offsets[b + 1] == offsets[b] + Capacity(dim, chunks, b)
        && Cut(offsets, bins, dim, chunks, b) {
      ChunkIs(offsets, bins, dim, chunks, b);
    }
  }

  /** Chunk b is a consecutive run of dimensions, of one of the two sizes. */
  ghost predicate Cut(offsets: seq<nat>, bins: seq<seq<nat>>, dim: nat, chunks: nat, b: nat)
    requires chunks > 0 && b + 1 < |offsets| && b < |bins|
  {
    && offsets[b] < offsets[b + 1] && bins[b] == Consecutive(offsets[b], offsets[b + 1] - offsets[b])
    && offsets[b + 1] - offsets[b] in {Low(dim, chunks), High(dim, chunks)}
  }

  lemma ChunkIs(offsets: seq<nat>, bins: seq<seq<nat>>, dim: nat, chunks: nat, b: nat)
    requires 0 < chunks <= dim && b + 1 < |offsets| && b < |bins|
    requires offsets[b] == Start(dim, chunks, b) && offsets[b + 1] == Start(dim, chunks, b + 1)
    requires bins[b] == Consecutive(Start(dim, chunks, b), Capacity(dim, chunks, b))
    ensures offsets[b + 1] == offsets[b] + Capacity(dim, chunks, b) && Cut(offsets, bins, dim, chunks, b)
  {
    hide Consecutive, Low, High;
    StartNext(dim, chunks, b);
    CapacityIs(dim, chunks, b);
  }

  // ----- distances ----------------------------------------------------------------------------

  /** The code book: tablesTr[j * 256 + i] is coordinate j of centroid i of j's chunk. */
  datatype PqTable = PqTable(tablesTr: seq<real>, centroid: seq<real>, offsets: seq<nat>, ndims: nat, nChunks: nat) {
    ghost predicate Valid() {
      && |tablesTr| == NUM_PQ_CENTROIDS * ndims && |centroid| == ndims
      && |offsets| == nChunks + 1 && offsets[0] == 0 && offsets[nChunks] == ndims
      && (forall c, d :: 0 <= c <= d <= nChunks ==> offsets[c] <= offsets[d])
    }

    function Entry(j: nat, i: nat): real
      requires Valid() && j < ndims && i < NUM_PQ_CENTROIDS
    {
      tablesTr[j * NUM_PQ_CENTROIDS + i]
    }

    ghost predicate Code(base: seq<nat>) {
      |base| == nChunks && forall c :: 0 <= c < nChunks ==> base[c] < NUM_PQ_CENTROIDS
    }

    /** The squared distance from centroid i over the dimensions from `from` to j. */
    ghost function PartDistance(query: seq<real>, from: nat, j: nat, i: nat): real
      requires Valid() && from <= j <= ndims == |query| && i < NUM_PQ_CENTROIDS
    {
      if j == from then 0.0 else PartDistance(query, from, j - 1, i) + Square(Entry(j - 1, i) - query[j - 1])
    }

    ghost function ChunkDistance(query: seq<real>, chunk: nat, i: nat): real
      requires Valid() && |query| == ndims && chunk < nChunks && i < NUM_PQ_CENTROIDS
    {
      PartDistance(query, offsets[chunk], offsets[chunk + 1], i)
    }

    /** The sum over the first c chunks of the distances from the code's centroids. */
    ghost function CodeDistance(query: seq<real>, base: seq<nat>, c: nat): real
      requires Valid() && |query| == ndims && Code(base) && c <= nChunks
    {
      if c == 0 then 0.0 else CodeDistance(query, base, c - 1) + ChunkDistance(query, c - 1, base[c - 1])
    }

    /** The vector a code stands for. */
    ghost predicate Inflates(base: seq<nat>, out: seq<real>)
      requires Valid() && Code(base)
    {
      && |out| == ndims
      && forall c: nat, j: nat :: c < nChunks && InChunk(c, j) ==> out[j] == Entry(j, base[c]) + centroid[j]
    }

    ghost predicate InChunk(c: nat, j: nat)
      requires Valid() && c < nChunks
      ensures InChunk(c, j) ==> j < ndims
    {
      assert offsets[c + 1] <= offsets[nChunks];
      offsets[c] <= j < offsets[c + 1]
    }

    /** The table of distances: one row of 256 per chunk. */
    ghost predicate Holds(query: seq<real>, dists: seq<real>)
      requires Valid() && |query| == ndims
    {
      && |dists| == NUM_PQ_CENTROIDS * nChunks
      && forall c, i :: 0 <= c < nChunks && 0 <= i < NUM_PQ_CENTROIDS ==>
           dists[NUM_PQ_CENTROIDS * c + i] == ChunkDistance(query, c, i)
    }

    /** Fills the table of distances of a query that has the centroid subtracted. */
    method PopulateChunkDistances(query: seq<real>, distVec: array<real>)
      requires Valid() && |query| == ndims && distVec.Length == NUM_PQ_CENTROIDS * nChunks
      modifies distVec
      ensures Holds(query, distVec[..])
    {
      for k := 0 to distVec.Length
        invariant forall m :: 0 <= m < k ==> distVec[m] == 0.0
      {
        distVec[k] := 0.0;
      }
      for chunk := 0 to nChunks
        invariant forall c, i :: 0 <= c < chunk && 0 <= i < NUM_PQ_CENTROIDS ==>
                    distVec[NUM_PQ_CENTROIDS * c + i] == ChunkDistance(query, c, i)
        invariant forall m :: NUM_PQ_CENTROIDS * chunk <= m < distVec.Length ==> distVec[m] == 0.0
      {
        PopulateChunk(query, distVec, chunk);
      }
    }

    /** One row of the table. */
    method PopulateChunk(query: seq<real>, distVec: array<real>, chunk: nat)
      requires Valid() && |query| == ndims && distVec.Length == NUM_PQ_CENTROIDS * nChunks && chunk < nChunks
      requires forall m :: NUM_PQ_CENTROIDS * chunk <= m < distVec.Length ==> distVec[m] == 0.0
      modifies distVec
      ensures forall m :: 0 <= m < NUM_PQ_CENTROIDS * chunk ==> distVec[m] == old(distVec[m])
      ensures forall i :: 0 <= i < NUM_PQ_CENTROIDS ==>
                distVec[NUM_PQ_CENTROIDS * chunk + i] == ChunkDistance(query, chunk, i)
      ensures forall m :: NUM_PQ_CENTROIDS * (chunk + 1) <= m < distVec.Length ==> distVec[m] == 0.0
    {
      var row := NUM_PQ_CENTROIDS * chunk;
      assert offsets[chunk] <= offsets[chunk + 1] <= offsets[nChunks];
      for j := offsets[chunk] to offsets[chunk + 1]
        invariant forall m :: 0 <= m < row ==> distVec[m] == old(distVec[m])
        invariant forall m :: row <= m < row + NUM_PQ_CENTROIDS ==>
                  distVec[m] == PartDistance(query, offsets[chunk], j, m - row)
        invariant forall m :: row + NUM_PQ_CENTROIDS <= m < distVec.Length ==> distVec[m] == 0.0
      {
        for idx := 0 to NUM_PQ_CENTROIDS
          invariant forall m :: 0 <= m < row ==> distVec[m] == old(distVec[m])
          invariant forall m :: row <= m < row + idx ==>
                    distVec[m] == PartDistance(query, offsets[chunk], j + 1, m - row)
          invariant forall m :: row + idx <= m < row + NUM_PQ_CENTROIDS ==>
                      distVec[m] == PartDistance(query, offsets[chunk], j, m - row)
          invariant forall m :: row + NUM_PQ_CENTROIDS <= m < distVec.Length ==> distVec[m] == 0.0
        {
          var diff := tablesTr[j * NUM_PQ_CENTROIDS + idx] - query[j];
          distVec[row + idx] := distVec[row + idx] + Square(diff);
        }
      }
    }

    /** The distance without a table. */
    method L2Distance(query: seq<real>, base: seq<nat>) returns (res: real)
      requires Valid() && |query| == ndims && Code(base)
      ensures res == CodeDistance(query, base, nChunks)
    {
      res := 0.0;
      for chunk := 0 to nChunks
        invariant res == CodeDistance(query, base, chunk)
      {
        assert offsets[chunk] <= offsets[chunk + 1] <= offsets[nChunks];
        for j := offsets[chunk] to offsets[chunk + 1]
          invariant res == CodeDistance(query, base, chunk) + PartDistance(query, offsets[chunk], j, base[chunk])
        {
          var diff := tablesTr[NUM_PQ_CENTROIDS * j + base[chunk]] - query[j];
          res := res + Square(diff);
        }
      }
    }

    /** Writes out the vector a code stands for. */
    method InflateVector(base: seq<nat>, out: array<real>)
      requires Valid() && Code(base) && out.Length == ndims
      modifies out
      ensures Inflates(base, out[..])
    {
      hide Entry;
      for chunk := 0 to nChunks
        invariant Inflated(base, out[..], offsets[chunk])
      {
        assert offsets[chunk] <= offsets[chunk + 1] <= offsets[nChunks];
        for j := offsets[chunk] to offsets[chunk + 1]
          invariant Inflated(base, out[..], j)
        {
          out[j] := tablesTr[NUM_PQ_CENTROIDS * j + base[chunk]] + centroid[j];
          OneChunk(chunk, j);
          EntryAt(j, base[chunk]);
        }
      }
    }

    /** The first k coordinates are written. */
    ghost predicate Inflated(base: seq<nat>, out: seq<real>, k: nat)
      requires Valid() && Code(base)
    {
      && |out| == ndims
      && forall c: nat, j: nat :: c < nChunks && InChunk(c, j) && j < k ==> out[j] == Entry(j, base[c]) + centroid[j]
    }

    lemma OneChunk(c: nat, j: nat)
      requires Valid() && c < nChunks && InChunk(c, j)
      ensures forall d :: 0 <= d < nChunks && InChunk(d, j) ==> d == c
    {
    }

    lemma EntryAt(j: nat, i: nat)
      requires Valid() && j < ndims && i < NUM_PQ_CENTROIDS
      ensures Entry(j, i) == tablesTr[NUM_PQ_CENTROIDS * j + i]
    {
    }

    /** Subtracts the centroid from a query. */
    method PreprocessQuery(queryVec: array<real>)
      requires Valid() && queryVec.Length == ndims
      modifies queryVec
      ensures forall j :: 0 <= j < ndims ==> queryVec[j] == old(queryVec[j]) - centroid[j]
    {
      for d := 0 to ndims
        invariant forall j :: 0 <= j < d ==> queryVec[j] == old(queryVec[j]) - centroid[j]
        invariant forall j :: d <= j < ndims ==> queryVec[j] == old(queryVec[j])
      {
        queryVec[d] := queryVec[d] - centroid[d];
      }
    }

    /** Looking a code up in the table of distances gives its distance. */
    lemma {:induction false} LookupIsCodeDistance(query: seq<real>, dists: seq<real>, base: seq<nat>, c: nat)
      requires Valid() && |query| == ndims && Holds(query, dists) && Code(base) && c <= nChunks
      ensures Lookup(base, dists, c) == CodeDistance(query, base, c)
    {
      if c > 0 {
        LookupIsCodeDistance(query, dists, base, c - 1);
        assert dists[NUM_PQ_CENTROIDS * (c - 1) + base[c - 1]] == ChunkDistance(query, c - 1, base[c - 1]);
      }
    }

    lemma {:induction false} PartIsDistance(query: seq<real>, base: seq<nat>, out: seq<real>, c: nat, j: nat)
      requires Valid() && |query| == ndims && Code(base) && Inflates(base, out) && c < nChunks
      requires offsets[c] <= j <= offsets[c + 1] <= ndims
      ensures SqDistance(out, centroid, query, j)
           == SqDistance(out, centroid, query, offsets[c]) + PartDistance(query, offsets[c], j, base[c])
    {
      if j > offsets[c] {
        PartIsDistance(query, base, out, c, j - 1);
        assert InChunk(c, j - 1);
      }
    }

    /** The distance of a code is the squared distance of the query from the vector the code stands for,
        minus the centroid. */
    lemma {:induction false} CodeIsDistance(query: seq<real>, base: seq<nat>, out: seq<real>, c: nat)
      requires Valid() && |query| == ndims && Code(base) && Inflates(base, out) && c <= nChunks
      ensures offsets[c] <= ndims && CodeDistance(query, base, c) == SqDistance(out, centroid, query, offsets[c])
    {
      assert offsets[c] <= offsets[nChunks];
      if c > 0 {
        CodeIsDistance(query, base, out, c - 1);
        assert offsets[c - 1] <= offsets[c];
        PartIsDistance(query, base, out, c - 1, offsets[c]);
      }
    }

    /** Table look-up, the direct distance, and the squared distance of the unprocessed query from the
        inflated vector are the same. */
    lemma TableDistance(raw: seq<real>, query: seq<real>, dists: seq<real>, base: seq<nat>, out: seq<real>)
      requires Valid() && |query| == |raw| == ndims && Code(base) && Inflates(base, out) && Holds(query, dists)
      requires forall j :: 0 <= j < ndims ==> query[j] == raw[j] - centroid[j]
      ensures Lookup(base, dists, nChunks) == CodeDistance(query, base, nChunks)
           == SqDistance(out, centroid, query, ndims) == SqDistance(out, seq(ndims, _ => 0.0), raw, ndims)
    {
      LookupIsCodeDistance(query, dists, base, nChunks);
      CodeIsDistance(query, base, out, nChunks);
      Centred(out, centroid, raw, query, ndims);
    }
  }

  /** The squared distance of out - shift from query over the first j coordinates. */
  ghost function SqDistance(out: seq<real>, shift: seq<real>, query: seq<real>, j: nat): real
    requires j <= |out| && j <= |shift| && j <= |query|
  {
    if j == 0 then 0.0 else SqDistance(out, shift, query, j - 1) + Square(out[j - 1] - shift[j - 1] - query[j - 1])
  }

  lemma {:induction false} Centred(out: seq<real>, centroid: seq<real>, raw: seq<real>, query: seq<real>, j: nat)
    requires j <= |out| <= |centroid| && j <= |raw| == |query| && |query| <= |out|
    requires forall i :: 0 <= i < j ==> query[i] == raw[i] - centroid[i]
    ensures SqDistance(out, centroid, query, j) == SqDistance(out, seq(|out|, _ => 0.0), raw, j)
  {
    if j > 0 {
      Centred(out, centroid, raw, query, j - 1);
    }
  }

  /** The sum of the looked-up distances of the first c chunks. */
  ghost function Lookup(ids: seq<nat>, dists: seq<real>, c: nat): real
    requires c <= |ids| && NUM_PQ_CENTROIDS * c <= |dists| && forall k :: 0 <= k < c ==> ids[k] < NUM_PQ_CENTROIDS
  {
    if c == 0 then 0.0 else Lookup(ids, dists, c - 1) + dists[NUM_PQ_CENTROIDS * (c - 1) + ids[c - 1]]
  }

  /** The distance of one code. */
  method PqDistLookupSingle(pqId: seq<nat>, nChunks: nat, pqDists: seq<real>) returns (dist: real)
    requires |pqId| == nChunks && |pqDists| == NUM_PQ_CENTROIDS * nChunks
    requires forall k :: 0 <= k < nChunks ==> pqId[k] < NUM_PQ_CENTROIDS
    ensures dist == Lookup(pqId, pqDists, nChunks)
  {
    dist := 0.0;
    for chunk := 0 to nChunks
      invariant dist == Lookup(pqId, pqDists, chunk)
    {
      dist := dist + pqDists[NUM_PQ_CENTROIDS * chunk + pqId[chunk]];
    }
  }

  ghost predicate Ids(pqIds: seq<nat>) {
    forall k :: 0 <= k < |pqIds| ==> pqIds[k] < NUM_PQ_CENTROIDS
  }

  /** Code i of a flat array of codes. */
  ghost function CodeOf(pqIds: seq<nat>, nPts: nat, nChunks: nat, i: nat): (code: seq<nat>)
    requires |pqIds| == nPts * nChunks && i < nPts && Ids(pqIds)
    ensures |code| == nChunks && Ids(code)
    ensures forall c :: 0 <= c < nChunks ==> 0 <= nChunks * i + c < |pqIds| && code[c] == pqIds[nChunks * i + c]
  {
    Row(nPts, nChunks, i);
    pqIds[nChunks * i..nChunks * i + nChunks]
  }

  lemma Row(n: nat, m: nat, i: nat)
    requires i < n
    ensures 0 <= m * i <= m * i + m <= n * m
  {
    assert n * m == m * i + m + (n - i - 1) * m;
  }

  /** The distances of all codes, chunk by chunk: each is what looking its code up alone gives. */
  method PqDistLookup(pqIds: seq<nat>, nPts: nat, nChunks: nat, pqDists: seq<real>, distsOut: array<real>)
    requires |pqIds| == nPts * nChunks && |pqDists| == NUM_PQ_CENTROIDS * nChunks && distsOut.Length == nPts
               && Ids(pqIds)
    modifies distsOut
    ensures forall i :: 0 <= i < nPts ==> distsOut[i] == Lookup(CodeOf(pqIds, nPts, nChunks, i), pqDists, nChunks)
  {
    hide CodeOf, Lookup;
    for i := 0 to nPts
      invariant forall k :: 0 <= k < i ==> distsOut[k] == 0.0
    {
      distsOut[i] := 0.0;
    }
    forall i | 0 <= i < nPts ensures Lookup(CodeOf(pqIds, nPts, nChunks, i), pqDists, 0) == 0.0 {
      LookupNone(CodeOf(pqIds, nPts, nChunks, i), pqDists);
    }
    for chunk := 0 to nChunks
      invariant forall i :: 0 <= i < nPts ==> distsOut[i] == Lookup(CodeOf(pqIds, nPts, nChunks, i), pqDists, chunk)
    {
      AddChunk(pqIds, nPts, nChunks, pqDists, distsOut, chunk);
    }
  }

  /** Adds what one chunk contributes to every distance. */
  method AddChunk(pqIds: seq<nat>, nPts: nat, nChunks: nat, pqDists: seq<real>, distsOut: array<real>, chunk: nat)
    requires |pqIds| == nPts * nChunks && |pqDists| == NUM_PQ_CENTROIDS * nChunks && distsOut.Length == nPts
               && Ids(pqIds)
    requires chunk < nChunks
    requires forall i :: 0 <= i < nPts ==> distsOut[i] == Lookup(CodeOf(pqIds, nPts, nChunks, i), pqDists, chunk)
    modifies distsOut
    ensures forall i :: 0 <= i < nPts ==> distsOut[i] == Lookup(CodeOf(pqIds, nPts, nChunks, i), pqDists, chunk + 1)
  {
    hide CodeOf, Lookup;
    for idx := 0 to nPts
      invariant forall i :: 0 <= i < idx ==> distsOut[i] == Lookup(CodeOf(pqIds, nPts, nChunks, i), pqDists, chunk + 1)
      invariant forall i :: idx <= i < nPts ==> distsOut[i] == Lookup(CodeOf(pqIds, nPts, nChunks, i), pqDists, chunk)
    {
      CodeEntry(pqIds, nPts, nChunks, idx, chunk);
      LookupNext(CodeOf(pqIds, nPts, nChunks, idx), pqDists, chunk);
      var pqCenterid := pqIds[nChunks * idx + chunk];
      distsOut[idx] := distsOut[idx] + pqDists[NUM_PQ_CENTROIDS * chunk + pqCenterid];
    }
  }

  lemma CodeEntry(pqIds: seq<nat>, nPts: nat, nChunks: nat, i: nat, c: nat)
    requires |pqIds| == nPts * nChunks && i < nPts && Ids(pqIds) && c < nChunks
    ensures 0 <= nChunks * i + c < |pqIds| && CodeOf(pqIds, nPts, nChunks, i)[c]
              == pqIds[nChunks * i + c] < NUM_PQ_CENTROIDS
  {
    Row(nPts, nChunks, i);
    SliceEntry(pqIds, nChunks * i, nChunks, c);
  }

  lemma SliceEntry(s: seq<nat>, lo: nat, len: nat, c: nat)
    requires lo + len <= |s| && c < len && Ids(s)
    ensures s[lo..lo + len][c] == s[lo + c] < NUM_PQ_CENTROIDS
  {
  }

  lemma LookupNone(ids: seq<nat>, dists: seq<real>)
    ensures Lookup(ids, dists, 0) == 0.0
  {
  }

  lemma LookupNext(ids: seq<nat>, dists: seq<real>, c: nat)
    requires c < |ids| && NUM_PQ_CENTROIDS * (c + 1) <= |dists| && Ids(ids)
    ensures Lookup(ids, dists, c + 1) == Lookup(ids, dists, c) + dists[NUM_PQ_CENTROIDS * c + ids[c]]
  {
  }

  // ----- the computed partition and the batched look-up together --------------------------------

  /** The offsets of the computed partition are a layout for a table. */
  lemma LayoutIsValid(tablesTr: seq<real>, centroid: seq<real>, bins: seq<seq<nat>>, offsets: seq<nat>, dim: nat,
                      chunks: nat)
    requires 0 < chunks == |bins| && |offsets| == chunks + 1 && offsets[0] == 0 && offsets[chunks] == dim
    requires forall b :: 0 <= b < chunks ==> Cut(offsets, bins, dim, chunks, b)
    requires |tablesTr| == NUM_PQ_CENTROIDS * dim && |centroid| == dim
    ensures PqTable(tablesTr, centroid, offsets, dim, chunks).Valid()
  {
    forall c, d | 0 <= c <= d <= chunks ensures offsets[c] <= offsets[d] {
      OffsetsGrow(bins, offsets, dim, chunks, c, d);
    }
  }

  lemma {:induction false} OffsetsGrow(bins: seq<seq<nat>>, offsets: seq<nat>, dim: nat, chunks: nat, c: nat, d: nat)
    requires 0 < chunks == |bins| && |offsets| == chunks + 1 && c <= d <= chunks
    requires forall b :: 0 <= b < chunks ==> Cut(offsets, bins, dim, chunks, b)
    ensures offsets[c] <= offsets[d]
  {
    if c < d {
      OffsetsGrow(bins, offsets, dim, chunks, c, d - 1);
      assert Cut(offsets, bins, dim, chunks, d - 1);
    }
  }

  /** vector is what the code stands for, and dist the squared distance of the query from it. */
  ghost predicate Measured(t: PqTable, raw: seq<real>, code: seq<nat>, dist: real, vector: seq<real>) {
    && t.Valid() && t.Code(code) && t.Inflates(code, vector) && |raw| == t.ndims
    && dist == SqDistance(vector, seq(t.ndims, _ => 0.0), raw, t.ndims)
  }

  lemma LookupMeasures(t: PqTable, raw: seq<real>, query: seq<real>, dists: seq<real>, code: seq<nat>,
                       vector: seq<real>)
    requires t.Valid() && |query| == |raw| == t.ndims && t.Code(code) && t.Inflates(code, vector)
               && t.Holds(query, dists)
    requires forall j :: 0 <= j < t.ndims ==> query[j] == raw[j] - t.centroid[j]
    ensures Measured(t, raw, code, Lookup(code, dists, t.nChunks), vector)
  {
    t.TableDistance(raw, query, dists, code, vector);
  }

  /** Splits the dimensions, prepares the query, fills its table of distances, looks all codes up and
      writes out the vectors they stand for: every distance looked up is the squared distance of the
      query from the vector. */
  method LookUpAll(dim: nat, chunks: nat, maxFloat: real, tablesTr: seq<real>, centroid: seq<real>, raw: seq<real>,
                   pqIds: seq<nat>, nPts: nat)
    returns (t: PqTable, dists: seq<real>, vectors: seq<seq<real>>)
    requires 0 < chunks <= dim && maxFloat > 0.0
    requires |tablesTr| == 256 * dim && |centroid| == |raw| == dim
    requires |pqIds| == nPts * chunks && forall c :: 0 <= c < |pqIds| ==> pqIds[c] < 256
    ensures t.ndims == dim && t.nChunks == chunks && t.tablesTr == tablesTr && t.centroid == centroid
    ensures |dists| == |vectors| == nPts
    ensures forall i :: 0 <= i < nPts ==> Measured(t, raw, CodeOf(pqIds, nPts, chunks, i), dists[i], vectors[i])
  {
    hide Cut, CodeOf, Lookup, Consecutive, Measured, PqTable.Holds, PqTable.Inflates;
    var bins := Partition(dim, chunks, maxFloat);
    var offsets := ChunkOffsets(bins, dim, chunks);
    t := PqTable(tablesTr, centroid, offsets, dim, chunks);
    LayoutIsValid(tablesTr, centroid, bins, offsets, dim, chunks);
    var query := new real[dim](i requires 0 <= i < dim => raw[i]);
    var distVec, distsOut := new real[NUM_PQ_CENTROIDS * chunks], new real[nPts];
    t.PreprocessQuery(query);
    t.PopulateChunkDistances(query[..], distVec);
    PqDistLookup(pqIds, nPts, chunks, distVec[..], distsOut);
    dists, vectors := distsOut[..], [];
    ghost var prepared, table := query[..], distVec[..];
    for i := 0 to nPts
      invariant |vectors| == i
      invariant forall k :: 0 <= k < i ==> Measured(t, raw, CodeOf(pqIds, nPts, chunks, k), dists[k], vectors[k])
    {
      var out := new real[dim];
      Row(nPts, chunks, i);
      var code := pqIds[chunks * i..chunks * i + chunks];
      assert code == CodeOf(pqIds, nPts, chunks, i);
      t.InflateVector(code, out);
      LookupMeasures(t, raw, prepared, table, code, out[..]);
      vectors := vectors + [out[..]];
    }
  }
}
