# A verified model of a distributed vector search system

The system answers nearest-neighbour queries over a proximity graph that is spread over several servers. This
project models its algorithms and state in Dafny and proves what they are for. Code that changes state step by
step is modelled by classes, arrays and loops, each method proved against a specification; the laws about those
specifications are lemmas.

* **Matching** (`Assignment`, `Hungary`, `Balance`): the Kuhn-Munkres algorithm with its recursive augmenting
  search, label changes and 32-bit integers, and the balanced assignment of queries to buckets built on it.
  Optimality is linear-programming duality, termination the strictly falling dual objective. Sums are formed in
  unbounded integers, and a ghost field records whether one of them would have left the `int` of the source.
* **Beam search** (`NeighborQueue`, `BeamSearch`, `LocalSearch`, `RecordLayout`, `BucketBuild`, `BucketSearch`,
  `RelaxedSearch`, `Rdma`, `GStore`, `DistributedSearch`): the bounded candidate queue, the byte layout of vertex records, the
  build of the buckets, and three versions of one search: over one index array, over bucket memory, and
  distributed with batched, pipelined one-sided reads. `BeamSearch` states what a search does independently of
  how it reads vertices; each version is proved to be a complete run of it, a large enough queue to report the exact
  nearest reachable vertices (`LocalSearch.ReportsNearest`), and the versions to agree
  (`DistributedSearch.SearchesAgree` builds the buckets and runs all three).
  `RelaxedSearch` states what the distributed search does independently of the network: which remote vertices an
  iteration leaves out by their quantised distances, and that those it keeps are scored `relax` iterations later.
  These iterations are proved to be determined by the setting, and, with strict dependencies and quantised distances
  that overestimate by less than 10%, to lose nothing: the search is then the one that reads every vertex.
  The network is a state machine: every queue pair is a queue of requests with a completion count, and at any
  moment the network may complete the oldest request of any queue pair. Two assumptions are made: a reliable
  connection completes requests in posting order, and every posted read completes eventually, so that a poll that
  spins while a read is outstanding comes to its completion. `core/rdma.hpp` and `core/store/gstore.hpp` wait for only the
  last read of a batch per server; that this suffices is a theorem here.
* **Hash tables** (`GrowthPolicy`, `Probing`, `Popcount`, `SparseArray`, `TableCommon`, `SparseTable`,
  `SparseHash`, `RobinTable`, `RobinHash`): a sparse table with quadratic probing, tombstones and bitmap-rank
  storage, and a Robin Hood table with backward-shift deletion. Every operation agrees with a finite map, every
  probe loop terminates, and all counters are exact.
* **Clustering and quantisation** (`Lloyd`, `ProductQuantizer`): Lloyd iterations never raise the residual; the
  greedy split of dimensions into chunks; look-up distances equal direct distances. Arithmetic is over the reals.
* **Checksum** (`Checksum`): the Internet checksum of RFC 1071, at every alignment and length.

`Common` holds squares, index ranges, member lists, element sets and the lemma on subset sizes that modules share.

Conventions of the model: an item (server, local id) is one number whose order is the order of the pairs; where
the code throws, a method returns a flag or an outcome; the distance function, the hash function, the quantised
distances and the coarse cluster of a vertex are parameters; `ghost` state such as the set of offers of a queue or
the map a table stands for exists only to state what the operations keep.

Where a promise is not kept by the code, the code is modelled as it is and the exact condition is proved:

* The matching forms sums and slacks in 32-bit signed integers, whose overflow is undefined. A call without overflow
  returns an optimal permutation (`Hungary.Matcher.HungaryMatch`). For every interval [lo, hi] of ints it is proved
  exactly whether calls on weights in it can overflow. With top = max(hi, -0x1FFFFFFF), as left labels start at no
  less than -0x1FFFFFFF, the interval is safe if neither top + hi - lo nor top + hi - 2 lo exceeds 0x7FFFFFFF
  (`Assignment.Safe`). Then no call overflows; otherwise every call on certain weights lo and hi does
  (`Hungary.WideRun` is the if-and-only-if). For affinities, which are not negative, this is 2 hi - lo <= 0x7FFFFFFF
  (`Balance.WideMatch`); for an interval around zero, a length of at most 0x3FFFFFFF (`Assignment.SafeForms`).
  The returned total is not counted: it is wrapped, and does not influence the matching.
* The checksum is right exactly when the 64-bit accumulator is not zero and has wrapped around a multiple of
  65535 times (`Checksum.CorrectIff`). Equal bytes have equal checksums at two addresses exactly when both
  accumulators are zero, or neither is and the wrap-arounds, counted 256-fold at an odd address, are congruent
  modulo 65535 (`Checksum.AlignmentIff`). Both hold for all data up to 0x3FFFFFFF0 bytes (`Checksum.NoWrap`), and
  both fail for the data of just over 16 GiB in `Checksum.TooLong` and `Checksum.AlignmentMatters`.
* The comment at `include/neighbor.h:499-503` says that an item already in the queue is dropped. The binary search
  compares items only along its path, and only with entries that are not behind the offer.
  `NeighborQueue.OfferedAgain` says what follows for an item in the queue: at the same distance it is always
  refused; closer it is never refused; farther it is refused exactly if the queue is full and the offer beyond its
  end, or its old entry lies on the search path. When it is not refused it is in the queue twice, unless the old
  entry drops off the end. `NeighborQueue.FartherGetsIn` is an instance of the farther case. When the distance is a
  function of the item, as in all searches here, no item is ever taken twice (`NeighborQueue.TakenIsNew`).
* The load factor of a hash table is kept by every insertion except the first growth of an empty table to one too small
  for it (`TableCommon.GrownIsLight`); `RobinHash.TooSmallAtFirst` and `SparseHash.TooSmallAtFirst` are instances.
* The distributed search asserts that its reads fit in the thread's buffer and in the doorbells. A failing assertion
  is an outcome, and everything else is proved for every buffer size and every degree of searches that finish.
* The comments at `src/pq.cpp:336` speak of the bin of least load, but no load is ever updated, so the loop fills
  the bins in order; `ProductQuantizer.Partition` states what results.

## Model

| member | source | states |
|---|---|---|
| Hungary.Matcher.HungaryMatch | include/hungary.h:54-125 | returns a perfect matching (a permutation); unless an int overflowed in this call its weight is at least, or with `maxsum` false at most, that of every permutation; no int overflows when the weights (with `maxsum` false, the negated weights) lie in a safe interval; the result is the 32-bit wrap of the matched weight, and the weights are restored |
| Hungary.Matcher.MatchAll | include/hungary.h:75-111 | the phase loop over all left vertices ends in a permutation, and without overflow in a heaviest one |
| Hungary.Matcher.Phase | include/hungary.h:76-110 | one phase terminates for all integer weights, matches one more left vertex and keeps the invariant (feasible labels, tight matched edges, free right vertices labelled 0); left labels never rise; unless an int overflows there are at most n relabellings |
| Hungary.Matcher.Dfs | include/hungary.h:35-52 | the recursive search stays inside the alternating closure of its root; on success the matching is augmented inside the unvisited right vertices; on failure nothing changes and every alternating step from a newly visited vertex was followed |
| Hungary.Matcher.Visit | include/hungary.h:41-49 | the body of the search loop for one tight edge keeps what is visited confined, and either augments through it or has followed it |
| Hungary.Matcher.Attempt | include/hungary.h:79-85 | a search from cleared marks either ends the phase or has marked exactly the vertices alternating-reachable from the root, with every marked right vertex matched |
| Hungary.Matcher.ResetMarks | include/hungary.h:80-82 | no vertex is marked visited |
| Hungary.Matcher.MinSlack | include/hungary.h:87-97 | dx is the least slack from a visited left to an unvisited right vertex, or the 0x7FFFFFFF start value when no slack is below it |
| Hungary.Matcher.Relabel | include/hungary.h:98-107 | visited left labels drop by dx, visited right labels rise by dx, all others stay |
| Hungary.Matcher.Adjust | include/hungary.h:87-107 | the label change keeps the phase invariant, strictly lowers the dual objective, never raises a left label, and makes every later search tree larger unless a slack overflowed |
| Hungary.Matcher.Negate | include/hungary.h:57-62 | the weight array holds the negated matrix; the negation of narrow weights does not overflow |
| Hungary.Matcher.InitLabels | include/hungary.h:64-74 | row maxima (but no less than the lowest label) and zeros satisfy the phase invariant, and bound the left labels from then on |
| Hungary.Matcher.SumMatched | include/hungary.h:113-115 | the accumulated sum is the 32-bit wrap of the exact matched weight |
| Hungary.WideRun | include/hungary.h:93-105 | for all ints lo <= hi: the run on the 4 by 4 weights lo and hi of `Assignment.WideWeights` overflows exactly if [lo, hi] is not safe, whatever its searches find; so an interval is free of overflow if and only if it is safe |
| Assignment.WideOverflows | include/hungary.h:35-105 | for every interval of ints that is not safe and these weights: no state that satisfies the invariant lets a run through phases 2 and 3, because the first sum of phase 2 or a slack looked at in phase 3 is no int |
| Assignment.TightIsHeaviest | include/hungary.h:35-125 | optimality certificate: with feasible labels a permutation of tight edges outweighs every permutation |
| Assignment.DualBound | include/hungary.h:35-111 | weak duality: no permutation outweighs the sum of feasible labels, with equality on tight edges |
| Assignment.NegatedHeaviest | include/hungary.h:56-62 | a heaviest matching of the negated weights is a lightest one of the weights |
| Assignment.SettledIsHeaviest | include/hungary.h:75-115 | the phase invariant after n phases gives a heaviest permutation |
| Assignment.SearchStep | include/hungary.h:41-49 | one step of the search keeps its contract in all three cases (free partner, found deeper, failed deeper) |
| Assignment.FailedSearch | include/hungary.h:35-52 | a failed search has visited exactly the least set closed under alternating steps that contains its root |
| Assignment.AugmentThrough | include/hungary.h:44-47 | re-matching a partner and taking its right vertex augments by exactly the root and leaves everything outside the search alone |
| Assignment.PhaseEnds | include/hungary.h:85 | an augmentation keeps the invariant with one more left vertex matched |
| Assignment.RelabelKeeps | include/hungary.h:98-107 | relabelling by at most the minimal slack keeps feasibility, matched edges and all edges inside the tree |
| Assignment.RelabelSettles | include/hungary.h:98-107 | relabelling keeps the whole invariant between phases and lowers the dual objective |
| Assignment.DualDrops | include/hungary.h:98-107 | each relabelling strictly lowers the dual objective: the termination measure of a phase |
| Assignment.TreeGrows | include/hungary.h:98-107 | after relabelling by an attained slack everything reachable stays reachable and a new right vertex joins |
| Assignment.TreesGrow | include/hungary.h:98-107 | so every later closed tree has one more right vertex, and there can be at most n |
| Assignment.PartnersFit | include/hungary.h:76-110 | the visited right vertices of a failed search are fewer than the visited left ones |
| Assignment.FreeRightVertex | include/hungary.h:76-110 | while a left vertex is unmatched, some right vertex is free |
| Assignment.FullCoverIsPermutation | include/hungary.h:113-115 | a matching that covers all left vertices is a permutation |
| Assignment.NarrowFits | include/hungary.h:64-107 | when all weights lie in a safe interval, every label, sum of labels and slack of the run fits in 32 bits; unless all weights are below the lowest label, no slack reaches 0x7FFFFFFF |
| Assignment.LabelBounds | include/hungary.h:64-107 | with weights from lo to hi, left labels stay between lo and the greater of hi and the lowest label, right labels between 0 and hi - lo |
| Assignment.SafeForms | include/hungary.h:64-107 | an interval of non-negative ints is safe if and only if 2 hi - lo is an int; an interval around zero if and only if it is no longer than 0x3FFFFFFF, and then so is its mirror image |
| Assignment.CappedOnlyIfWide | include/hungary.h:87-97 | with such weights, not all below the lowest label, dx is never its start value 0x7FFFFFFF |
| Assignment.LeastSlackAttained | include/hungary.h:87-97 | for weights of any size: as long as the slacks are ints, dx is a slack even when it equals its start value |
| Assignment.AdjustGrows | include/hungary.h:87-107 | so after a relabelling without overflow every search tree of the phase has one more right vertex |
| Assignment.VisitedSoFar | include/hungary.h:35-52 | the search of phase u visits no left vertex of a later phase, whose labels are still row maxima |
| Assignment.PositiveSlack | include/hungary.h:87-97 | after a failed search dx is at least 1 |
| Assignment.WrapOfSum | include/hungary.h:113-116 | wrapping after every addition and negation is wrapping once, and harmless just when the exact value fits in an int |
| Balance.MaximumWeightMatch | include/hungary.h:145-190 | each bucket gets exactly as many queries as it has slots s < n with s % bucket_count = b; when affinities fit ints and the matching did not overflow, as for affinities from lo to hi with 2 hi - lo an int, the total affinity is maximal over all assignments with those bucket sizes; the reported ratios are the affinities; more than 100000 queries are refused, and a mismatch is reported exactly if the affinity of a matched pair does not fit an int |
| Balance.FillWeights | include/hungary.h:159-176 | the weight of query q and slot s is the affinity of q to bucket s % bucket_count |
| Balance.ReadMatching | include/hungary.h:178-190 | both result arrays are read off the matching; the error exit is taken exactly if the affinity of a matched pair does not fit an int |
| Balance.HeaviestIsBest | include/hungary.h:145-190 | an assignment read off a heaviest slot permutation is best among all balanced assignments, not only among slot permutations |
| Balance.ReadOffIsBalanced | include/hungary.h:178-190 | every assignment read off a slot permutation has the prescribed bucket sizes |
| Balance.WeightIsAffinity | include/hungary.h:178-190 | the matched weight is the total affinity of the assignment |
| Balance.Lift | include/hungary.h:169-190 | conversely every balanced assignment is read off some slot permutation |
| Balance.SlotsOfBucket | include/hungary.h:169-176 | the slots of bucket b are b, b + bucket_count, b + 2 bucket_count, ... |
| Balance.SmallIsNarrow | include/hungary.h:169-176 | affinities from lo to hi with 2 hi - lo an int stay in the range in which the matching cannot overflow |
| Balance.WideAffinityOverflows | include/hungary.h:169-176 | for all lo <= hi of which 2 hi - lo is no int there are affinities, lo and hi, with which every matching overflows |
| Balance.WideMatch | include/hungary.h:145-190 | for all ints 0 <= lo <= hi: the call on these affinities is accepted, and overflows exactly if 2 hi - lo is no int |
| NeighborQueue.NeighborPriorityQueue.Insert | include/neighbor.h:504-544 | for any mix of calls: sorted by distance and item, cursor on the first unexpanded entry; refused exactly when the queue is full and the offer beyond its end, or when the binary search looks at an entry with this item at no greater distance; a refused offer changes nothing; an accepted one is put at its place, drops the last entry of a full queue and moves the cursor back when it lands before it; an accepted item is new when each item has one distance |
| NeighborQueue.NeighborPriorityQueue.Locate | include/neighbor.h:511-528 | the binary search ends at the item if it is on its path at no greater distance, and otherwise at the place that splits the queue |
| NeighborQueue.NeighborPriorityQueue.PutAt | include/neighbor.h:530-542 | the shift and write are exactly an insertion at that place |
| NeighborQueue.NeighborPriorityQueue.ClosestUnexpanded | include/neighbor.h:546-555 | returns and marks the entry under the cursor, which was unexpanded and never returned before; only its flag changes |
| NeighborQueue.NeighborPriorityQueue.Clear | include/neighbor.h:591-595 | the queue is empty and has forgotten all offers |
| NeighborQueue.NeighborPriorityQueue.constructor | include/neighbor.h:486-503 | a new queue is empty with the given capacity |
| NeighborQueue.InsertKeepsTop | include/neighbor.h:264-304 | taking an offer keeps the queue equal to the L least of everything offered |
| NeighborQueue.RefusalKeepsTop | include/neighbor.h:264-304 | so does refusing one |
| NeighborQueue.TakenIsNew | include/neighbor.h:504-544 | an item that was offered before with the same distance is never taken again |
| NeighborQueue.OfferedAgain | include/neighbor.h:499-528 | an item in the queue that is offered again is refused at the same distance, taken when closer, and when farther refused exactly if the queue is full and the offer beyond its end or the old entry on the search path; whenever it is taken it is in the queue twice, except when the old entry was the last of a full queue and drops off |
| NeighborQueue.FartherGetsIn | include/neighbor.h:499-528 | item 5 in the queue at 1.0 and offered at 2.5 is put into the queue a second time |
| NeighborQueue.LastIsOnPath | include/neighbor.h:513-527 | a search that ends behind an entry has looked at that entry: why an equal offer is always recognised |
| NeighborQueue.TopIsUnique | include/neighbor.h:486-600 | contents and flags are determined by the set of offers and of returned items, whatever the order of the calls |
| NeighborQueue.TopIsDistinct | include/neighbor.h:486-600 | no item is in the queue twice |
| NeighborQueue.MarkKeepsTop | include/neighbor.h:306-315 | marking the entry under the cursor keeps the contents and adds exactly its item to the expanded ones |
| NeighborQueue.ShiftIsInsertion | include/neighbor.h:530-538 | moving the tail up by one in the array is an insertion that drops what falls off a full queue |
| NeighborQueue.TakenConsistent | include/neighbor.h:504-544 | every invariant of the queue at once, for a taken offer |
| NeighborQueue.RefusedConsistent | include/neighbor.h:504-527 | the same for a refused offer |
| LocalSearch.SearchBaseIndex | src/index.cpp:729-830 | the flat search terminates on every finite graph; its hops are a complete run of the beam search on that graph, and it reports label and distance of the first K entries of the final queue |
| LocalSearch.Expand | src/index.cpp:790-824 | one iteration is one hop: the closest unexpanded vertex is expanded and exactly its neighbours become visited |
| LocalSearch.VisitAll | src/index.cpp:800-823 | visiting a neighbour list adds its elements to the visited set and keeps the queue the top of all visited |
| LocalSearch.Gather | src/index.cpp:800-808 | the scratch list holds each not yet visited neighbour exactly once |
| LocalSearch.Score | src/index.cpp:817-823 | offering the scratch vertices keeps the queue in step with the visited set |
| LocalSearch.ReadVectors | src/index.cpp:810-816 | the vectors read are those of the scratch vertices |
| LocalSearch.Results | src/index.cpp:825-829 | labels and distances of the first K entries |
| BeamSearch.LocallyOptimal | src/index.cpp:760-829 | at exit the queue holds the L least of all visited vertices, every retained vertex is expanded, and all its out-neighbours were visited |
| BeamSearch.ExactWhenLarge | src/index.cpp:760-829 | with L at least the number of reachable vertices the search visits exactly those and the queue holds all of them |
| BeamSearch.PrefixIsNearest | src/index.cpp:825-829 | every reachable vertex outside the first k entries lies behind all of them |
| BeamSearch.ExactNearest | src/index.cpp:760-829 | with L at least the number of reachable vertices the first K entries of the final queue are, in order and with their distances, the exact K nearest reachable vertices, or all if there are fewer |
| BeamSearch.ReachIsReach | src/index.cpp:760-829 | the vertices that every closed set around the entry points contains are themselves such a set |
| BeamSearch.LateOnly | src/index.cpp:1239-1259 | vertices visited after everything in the queue was expanded push nothing back in: what the queue then holds of the earlier ones is expanded |
| LocalSearch.ReportsNearest | src/index.cpp:729-830 | the labels and distances reported are then those of the exact K nearest reachable vertices, nearest first |
| BeamSearch.HopsInvariant | src/index.cpp:790-824 | along every search only reachable vertices are visited, and whatever was expanded has all its neighbours visited |
| BeamSearch.RunsAgree | src/index.cpp:790-824 | two complete searches of one graph go through the same queues, flags and cursors hop by hop |
| BeamSearch.RunsAgreeAt | src/index.cpp:790-824 | so do two unfinished ones, as far as both go |
| BeamSearch.ReflectionIsUnique | src/index.cpp:790-824 | visited and expanded sets determine queue, flags and cursor |
| BeamSearch.RenamedRun | src/index.cpp:834-930 | with tie-free distances a search of a graph with renamed vertices is the renamed search |
| BeamSearch.RenamedHop | src/index.cpp:859-925 | the same for one hop |
| BeamSearch.RenamedTop | src/index.cpp:859-925 | without ties the queue does not depend on the names of the vertices |
| RecordLayout.RecordRoundTrip | src/index.cpp:512-545 | decoding an encoded record at any place in memory yields it back: vector, label and all triples (vertex id, bucket, local id) |
| RecordLayout.RecordBytesAre | src/index.cpp:512-545 | byte by byte: the vector, then label and neighbour count as 32-bit numbers, least significant byte first, then 9 bytes per neighbour: vertex id, bucket, local id |
| RecordLayout.RefsRoundTrip | src/index.cpp:894-906 | the same for the neighbour list |
| RecordLayout.RefRoundTrip | src/index.cpp:894-906 | the same for one triple of 9 bytes |
| RecordLayout.NumberRoundTrip | src/index.cpp:519-543 | the same for a 32-bit little-endian number |
| RecordLayout.DecodeLocally | src/index.cpp:854-857 | decoding looks only at the bytes of the record itself |
| RecordLayout.PackOrder | include/neighbor.h:475-478 | the order of packed items is the (bucket, local id) order that breaks ties in the queue |
| RecordLayout.SpliceSlice | src/index.cpp:518-543 | a copy into memory is read back and changes nothing elsewhere |
| BucketBuild.GenerateBaseIndexOnBuckets | src/index.cpp:444-548 | every vertex gets a place, every bucket as many slots as it has vertices, every record is in memory at its place, and the entry point is the place of the graph's entry point |
| BucketBuild.AssignPlaces | src/index.cpp:484-491 | places number the vertices of each bucket 0, 1, ... in id order; the counts are the bucket sizes |
| BucketBuild.Allocate | src/index.cpp:497-508 | one separate block per bucket with exactly one slot per vertex |
| BucketBuild.WriteVertex | src/index.cpp:512-545 | writing one record keeps all earlier ones intact |
| BucketBuild.WriteRecord | src/index.cpp:518-543 | the sequence of copies writes exactly the encoded record and touches no other byte |
| BucketBuild.WriteRefs | src/index.cpp:525-544 | the neighbour loop appends exactly the encoded triples |
| BucketBuild.WriteRef | src/index.cpp:529-543 | one iteration appends one triple of vertex id, bucket and local id |
| BucketBuild.MemCopy | src/index.cpp:518-519 | a copy changes exactly the destination range |
| BucketBuild.NumberingIsBijection | src/index.cpp:484-491 | a place determines its vertex: bucket and local id lead back to the id |
| BucketBuild.NumberingIsOnto | src/index.cpp:484-491 | every pair of a bucket and a local id below the bucket size is some vertex's place |
| BucketBuild.SlotsApart | src/index.cpp:513-516 | slots of different vertices of a bucket do not overlap |
| BucketBuild.StoreNext | src/index.cpp:512-545 | the records written so far survive the next write, which adds one |
| BucketBuild.StoredDecodes | src/index.cpp:512-545 | with out-degree at most R every slot decodes to the vertex's own vector and label and exactly the triples of its graph neighbours |
| BucketBuild.SlotDecodes | src/index.cpp:512-545 | the bytes of the slot alone, as a reader who copied just them has them, decode to the same record |
| BucketBuild.EverySlotIsAPlace | src/index.cpp:497-508 | every slot of every bucket belongs to a vertex |
| BucketSearch.SearchBaseIndexOnBuckets | src/index.cpp:834-930 | the search over bucket memory is a complete run on the graph stored there and reports the labels of the first K entries |
| BucketSearch.Expand | src/index.cpp:885-925 | one iteration is one hop on the graph stored in memory |
| BucketSearch.DecodeNeighbors | src/index.cpp:894-906 | walking the record byte by byte yields exactly the neighbour items of the decoded record |
| BucketSearch.VisitAll | src/index.cpp:859-884 | visiting a list of items keeps the queue the top of all visited items |
| BucketSearch.ReadSlots | src/index.cpp:854-857 | each vertex read is the slot of its item |
| BucketSearch.Results | src/index.cpp:927-930 | the labels are read from the slots of the first K entries |
| BucketSearch.QueueIsInMemory | src/index.cpp:927-930 | every queue entry is a slot in memory, so reading its label is in bounds |
| BucketSearch.BuiltVertex | src/index.cpp:444-548 | a built slot holds vector, label and the places of the neighbours of its vertex |
| BucketSearch.BuiltSpaceIsValid | src/index.cpp:444-548 | every slot of a built index decodes, and lists only items that exist |
| BucketSearch.BuiltIsRenamed | src/index.cpp:444-548 | the graph in memory is the given graph with every vertex renamed to its place |
| BucketSearch.BucketSearchIsFlatSearch | src/index.cpp:729-930 | with tie-free distances the search on the built buckets goes through the flat search's queues, renamed by the placement, and returns the same labels |
| DistributedSearch.SearchBaseIndexDistributed | src/index.cpp:1075-1268 | for every buffer size, relax value, quantised distances and behaviour of the network: the search stops early only where an assertion fails, because the reads of the query do not fit in the buffer (never with room for all vertices) or a batch has more than 128 reads for one server (never with degrees up to 128); otherwise it goes through exactly the iterations that its setting determines (`RelaxedSearch.Course`): what each expands, which remote neighbours it leaves out, and that its remote vertices are scored relax iterations later; every pointer look-up succeeds, each accepted vertex is scored exactly once, the queue is the top of the scored ones, and no batch, read or completion is left; every queue entry scored before the final drain is expanded, so with relax 0 every entry is; with relax 0 and quantised distances that overestimate by less than 10% it is a complete run of the beam search that leaves nothing out; no queue pair ever has more reads outstanding than the entry points or relax + 1 times 128, so with relax up to 7 the 1024 requests of a send queue suffice |
| DistributedSearch.Begin | src/index.cpp:1109-1154 | the entry points are visited, read in one synchronous batch and all scored, unless they do not fit in the buffer; every remote queue entry has a cached pointer |
| DistributedSearch.ReadEntries | src/index.cpp:1113-1145 | the entry points, each once, are read and readable on return, unless they do not fit in the buffer |
| DistributedSearch.Traverse | src/index.cpp:1156-1236 | the loop terminates, goes through the iterations of the setting, first to last, and ends with every queue entry expanded and the remote vertices of the last relax iterations (or all, if fewer) in flight |
| DistributedSearch.Drain | src/index.cpp:1239-1259 | the batches still in flight are settled, oldest first; the log of scored vertices grows to exactly those scored or in flight before, and nothing is expanded |
| DistributedSearch.Advance | src/index.cpp:1156-1211 | the expanding half of an iteration pops the entry under the cursor and visits exactly its neighbours; those seen for the first time and kept are sent as one batch, the local ones among them are scored at once; it keeps alignment of the two batch queues and the poll counts and never drops a batch from a full ring; it stops only where the batch does not fit in the buffer or in a doorbell |
| DistributedSearch.PopClosest | src/index.cpp:1161 | the popped vertex was scored, never popped before, and has a pointer |
| DistributedSearch.ReadNeighbors | src/index.cpp:1164-1175 | reading through the pointer yields the owner's neighbour list; the throw is taken just for a remote vertex without cached pointer |
| DistributedSearch.GatherAccepted | src/index.cpp:1167-1192 | each new neighbour becomes visited; a remote one is listed if and only if the queue is not full or its quantised distance is below 1.1 times the largest distance in the queue, a local one always, each once |
| DistributedSearch.PostBatch | src/index.cpp:1196-1198 | posting a batch appends it to both queues, and its local vertices are readable at once; it is refused only for lack of buffer or doorbell space |
| DistributedSearch.Settle | src/index.cpp:1218-1235 | waiting for the oldest batch makes all its reads readable, scores exactly its remote vertices and removes it from all queues |
| DistributedSearch.ScorePart | src/index.cpp:1201-1211 | scores each vertex of the part once, through a pointer to its owner's bytes, and caches the pointers of accepted ones |
| DistributedSearch.ScoreOne | src/index.cpp:1204-1210 | one vertex: queue and pointer cache stay in step |
| DistributedSearch.CollectLabels | src/index.cpp:1261-1264 | every label look-up succeeds and yields the owner's label |
| DistributedSearch.Finish | src/index.cpp:1261-1264 | the labels reported are those of the first K queue entries |
| DistributedSearch.SearchesAgree | src/index.cpp:444-1268 | on every valid input, build the buckets and run the flat, the bucketed and (strictly, from any server, with any hot vertices cached and any buffer size) the distributed search: when no quantised distance of a vertex overestimates by 10% or more, the bucketed and the distributed one return the same labels whenever the latter finishes, as it does with degrees up to 128 and room for all vertices, although it leaves remote vertices unread; the flat one returns them too when distances are tie-free |
| DistributedSearch.SearchBuilt | src/index.cpp:1075-1268 | the strict distributed search of a built index, hot vertices cached beforehand, is with such quantised distances a complete run on the index in memory and reports the labels of its queue |
| DistributedSearch.SearchIsDetermined | src/index.cpp:1075-1268 | whatever the network does, two searches of one setting go through the same iterations, leave the same queue and report the same labels |
| DistributedSearch.OnceAccept | src/index.cpp:1196-1211 | accepting new vertices keeps: scored plus waiting items are the accepted ones, each exactly once |
| DistributedSearch.AllScored | src/index.cpp:1239-1259 | with no batch left every accepted vertex was scored exactly once |
| RelaxedSearch.CoursesAgree | src/index.cpp:1156-1236 | the iterations of a search are determined by the graph, the distances, the quantised distances, the queue size, the server and relax: two searches go through the same queues, visited sets and batches in flight |
| RelaxedSearch.ScoredLater | src/index.cpp:1196-1235 | the remote vertices kept by the expansion of iteration i are scored in iteration i + relax, with the local ones of that iteration, and nothing else is |
| RelaxedSearch.FlightAt | src/index.cpp:1196-1235 | after i iterations the last relax batches, or all if there are fewer, are in flight, in order |
| RelaxedSearch.AcceptedIff | src/index.cpp:1163-1192 | a vertex first seen in an iteration is scored or in flight ever after if and only if it was kept there: it is local, or the queue of that iteration was not full, or its quantised distance was below 1.1 times the largest distance in it |
| RelaxedSearch.AlwaysExplored | src/index.cpp:1156-1236 | throughout, the entry points are scored, what was seen but not accepted is remote, and an expanded vertex has all its neighbours seen |
| RelaxedSearch.StepAccepts | src/index.cpp:1163-1235 | an iteration adds exactly the newly seen and kept vertices to those scored or in flight |
| RelaxedSearch.LosslessIsStrict | src/index.cpp:1156-1236 | with relax 0, leaving out remote vertices by quantised distances that overestimate by less than 10% changes nothing: the queues, flags and cursors are those of the search that scores every vertex it sees |
| RelaxedSearch.LeftOutIsBeyond | src/index.cpp:1178-1186 | a vertex left out by such distances lies beyond the end of the full queue |
| RelaxedSearch.BeyondStays | src/index.cpp:1178-1186 | what is beyond the end of a full queue stays so, whatever else is offered |
| DistributedSearch.DistributedIsBucketSearch | src/index.cpp:834-1268 | two complete runs on one index in memory, such as those of the strict distributed search and of the search on buckets, go through the same queues, flags and cursors and return the same labels |
| DistributedSearch.DistributedIsFlatSearch | src/index.cpp:729-1268 | with tie-free distances on a built index, a complete run in memory goes through the queues of the flat search, renamed by the placement, with the same labels |
| GStore.ThreadStore.GetVertexBatch | core/store/gstore.hpp:256-334 | the synchronous batch, exactly when its misses fit in the buffer: local and cached items get their own address, every other item the next buffer slot, and every pointer is readable on return; no pointer stops being readable |
| GStore.ThreadStore.GetVertexBatchAsync | core/store/gstore.hpp:256-321 | the asynchronous batch, exactly when its misses fit in the buffer and no server gets more than 128 of them: the same pointers, exactly the misses are posted into consecutive fresh slots, the poll counts are queued, and no readable pointer stops being readable |
| GStore.ThreadStore.GetVertexBatchWait | core/store/gstore.hpp:440-449 | retires the oldest batch; all its pointers are readable, and none stops being readable |
| GStore.ThreadStore.Plan | core/store/gstore.hpp:265-306 | who is local, who is cached, who is fetched: exactly the items that are neither are fetched, in order, into consecutive slots |
| GStore.MissSlots | core/store/gstore.hpp:297-306 | different fetched items of a batch have different slots |
| GStore.ThreadStore.GetVertex | core/store/gstore.hpp:173-192 | the look-up fails just for a remote item without cached pointer, and otherwise yields a readable pointer |
| GStore.ThreadStore.UpdateThdCache | core/store/gstore.hpp:166-170 | a remote item's pointer is remembered, a local one's is not |
| GStore.ThreadStore.ResetThdCtx | core/store/gstore.hpp:157-164 | buffer and pointer cache start empty; nothing is outstanding on any queue pair |
| GStore.ThreadStore.NothingQueued | core/store/gstore.hpp:440-449 | with no batch in flight no read and no completion is outstanding on any queue pair |
| GStore.ThreadStore.DerefIsSlot | core/store/gstore.hpp:173-192 | the bytes behind a readable pointer are the owner's record, whether local, cached or read |
| GStore.ThreadStore.constructor | core/store/gstore.hpp:157-164 | a new thread context satisfies the invariant |
| GStore.PipelinePush | core/store/gstore.hpp:309-321 | posting a batch keeps the poll counts aligned with the batches and with what is unpolled on every queue pair |
| GStore.PipelinePop | core/store/gstore.hpp:440-449 | so does retiring the oldest batch |
| GStore.PipelineFront | core/store/gstore.hpp:440-449 | the oldest batch is what every queue pair completes first, with only its last read signalled |
| GStore.OutstandingReads | core/store/gstore.hpp:256-321 | no queue pair has more unretired reads than 128 for each batch in flight |
| GStore.RdmaCache.SetCache | core/store/cache.hpp:51-79 | after caching the given vertices every one of them has an entry that points at its owner's bytes; entries from before stay in the table, and the cache is in order if they were all given again |
| GStore.RdmaCache.RdmaRead | core/rdma.hpp:198-208 | a synchronous read yields the owner's bytes and leaves the device idle |
| GStore.RdmaCache.Lookup | core/store/cache.hpp:81-98 | a hit is the offset of a copy of the owner's bytes of the vertex; it is a miss just when the vertex is not cached |
| GStore.CacheAppend | core/store/cache.hpp:60-78 | appending a vertex keeps all earlier entries right |
| Rdma.Device.RdmaReadBatchDoorbellUnsignalAsyncSend | core/rdma.hpp:498-523 | one doorbell per server with only its last read signalled; the poll counts are the numbers of reads per server; it fails exactly if some server has more than 128 |
| Rdma.Device.CollectRequests | core/rdma.hpp:501-516 | the requests of one server are the batch's reads from it, in order, unless they are more than 128 |
| Rdma.Device.RdmaReadBatchUnsignalAsyncWait | core/rdma.hpp:550-560 | one completion per server retires the whole batch: all its reads have landed |
| Rdma.Device.RdmaReadBatch | core/rdma.hpp:298-318 | all reads signalled, all completions taken: every read has landed and the device is idle again |
| Rdma.Device.PostAll | core/rdma.hpp:298-309 | every read of the batch is posted, signalled, into its own slot; the counts are the numbers of reads per server |
| Rdma.Device.DrainAll | core/rdma.hpp:310-317 | taking as many completions as reads per server leaves no read and no completion |
| Rdma.Device.PostSend | rdma_lib/rdmaio.hpp:495-529 | a read into an unused slot is queued on its queue pair and disturbs nothing |
| Rdma.Device.RcPostDoorbell | rdma_lib/rdmaio.hpp:573-609 | the chained requests are queued in order and only the last is signalled; what had landed stays; the most reads ever outstanding on one queue pair rise at most to those outstanding plus the new ones |
| Rdma.Device.PollCompletion | rdma_lib/rdmaio.hpp:777-828 | spinning ends, and one completion of a group signalled on its last read means all reads of the group have landed |
| Rdma.Device.PollCompletions | rdma_lib/rdmaio.hpp:831-873 | k completions of signalled reads mean the first k reads have landed |
| Rdma.Device.CompleteHead | rdma_lib/rdmaio.hpp:220 | the network completes the oldest read of a queue pair: its slot receives the owner's bytes; what had landed stays |
| Rdma.Device.Progress | rdma_lib/rdmaio.hpp:220 | the network may complete any number of reads on every queue pair without losing what had landed |
| Rdma.PostOk | rdma_lib/rdmaio.hpp:495-529 | posting keeps the invariant and the new slot counts as not landed |
| Rdma.CompleteOk | rdma_lib/rdmaio.hpp:220 | a network step keeps the invariant: landed slots hold their owner's bytes |
| Rdma.PollOk | rdma_lib/rdmaio.hpp:777-828 | taking the completion of a group keeps the invariant and proves its reads landed |
| Rdma.PollRetires | rdma_lib/rdmaio.hpp:777-828 | a waiting completion implies that the network has none of the front group's reads left |
| Rdma.OwesRead | rdma_lib/rdmaio.hpp:777-828 | a queue pair with an unretired group and no completion waiting still has a read to complete, so polling cannot spin forever |
| Rdma.RungFacts | rdma_lib/rdmaio.hpp:573-609 | what a doorbell leaves queued, issued and signalled, and that nothing else changes |
| Rdma.SentFacts | core/rdma.hpp:498-523 | what a whole batch leaves queued, issued and signalled on every server |
| Rdma.PostedFacts | core/rdma.hpp:298-309 | the same for a batch posted read by read, all signalled |
| Rdma.AllPolledIsIdle | core/rdma.hpp:550-560 | when every posted read was retired no request and no completion remains |
| GrowthPolicy.CreatePolicy | include/tsl/sparse_growth_policy.h:58-70 | throws exactly above 2^63; 0 stays 0; otherwise the least power of two that is not below the request, with the matching mask |
| GrowthPolicy.LeastPowerIs | include/tsl/sparse_growth_policy.h:101-122 | that power of two is the least one not below the request, and the request itself if it is a power of two |
| GrowthPolicy.RoundUpToPowerOfTwo | include/tsl/sparse_growth_policy.h:107-122 | the bit-smearing loop yields the least power of two not below the value, within the maximum |
| GrowthPolicy.Smear | include/tsl/robin_growth_policy.h:143-158 | one smearing step doubles the run of leading ones |
| GrowthPolicy.PowerTest | include/tsl/robin_growth_policy.h:160-162 | value & (value - 1) is zero for a positive value just when it is a power of two |
| GrowthPolicy.MaskIsMod | include/tsl/sparse_growth_policy.h:76-78 | masking with 2^k - 1 is reduction modulo 2^k |
| GrowthPolicy.BucketInTable | include/tsl/robin_growth_policy.h:111-113 | a hash goes to bucket hash mod n, or to 0 in a table without buckets |
| GrowthPolicy.NextIsLarger | include/tsl/sparse_growth_policy.h:83-90 | growth multiplies the bucket count, at least 1, by the growth factor, and fails if and only if that exceeds 2^63 |
| Probing.ProbesCover | include/tsl/sparse_hash.h:1773-1781 | the first n quadratic probes visit every bucket of a table with n = 2^k buckets |
| Probing.ProbesDiffer | include/tsl/sparse_hash.h:1773-1781 | and are all different |
| Probing.ProbesMirror | include/tsl/sparse_hash.h:1773-1781 | the second n probes are the first n backwards |
| Probing.NoSmallProduct | include/tsl/sparse_hash.h:1773-1781 | a power of two divides no product of an odd and an even factor that are both positive and below it |
| Probing.OddFactor | include/tsl/sparse_hash.h:1773-1781 | a power of two that divides a product with an odd factor divides the other factor |
| Probing.ProbeNext | include/tsl/sparse_hash.h:1773-1781 | one masked step of the loop is the next triangular probe |
| Popcount.PopcountIsOnes | include/tsl/sparse_hash.h:75-91 | the bit-trick popcount equals the number of ones, for every 64-bit word |
| Popcount.GatherAdds | include/tsl/sparse_hash.h:90 | the multiplication by 0x0101...01 and shift by 56 add up the eight byte counts |
| Popcount.ByteHolds | include/tsl/sparse_hash.h:89 | after the third step each byte holds the sum of its two nibble counts |
| Popcount.NibbleHolds | include/tsl/sparse_hash.h:88 | after the second step each nibble holds the count of its four bits |
| Popcount.PairVal | include/tsl/sparse_hash.h:87 | after the first step each pair of bits holds the count of its two bits |
| Popcount.OnesMasked | include/tsl/sparse_hash.h:704-708 | the ones of a bitmap masked below bit i are its ones below i |
| Popcount.OnesChange | include/tsl/sparse_hash.h:531-573 | setting or clearing a bit moves the counts above it by exactly one |
| SparseArrays.SparseArray.Set | include/tsl/sparse_hash.h:531-547 | the addressed bucket holds the value, every other bucket is unchanged, the count rises by one |
| SparseArrays.SparseArray.Erase | include/tsl/sparse_hash.h:549-573 | the addressed bucket becomes a deleted one, every other bucket is unchanged, the count drops by one |
| SparseArrays.SparseArray.IndexToOffset | include/tsl/sparse_hash.h:704-708 | the offset is the number of values in lower buckets |
| SparseArrays.SparseArray.OffsetToIndex | include/tsl/sparse_hash.h:711-732 | the scan finds the bucket whose value is at the offset |
| SparseArrays.ScanBitmap | include/tsl/sparse_hash.h:711-732 | the shifting loop finds the set bit with the given number of ones below it |
| SparseArrays.SparseArray.InsertAtOffset | include/tsl/sparse_hash.h:755-776 | the value is inserted at the offset and the rest moves up, with or without reallocation |
| SparseArrays.SparseArray.InsertAtOffsetNoRealloc | include/tsl/sparse_hash.h:781-800 | the same in place |
| SparseArrays.SparseArray.InsertAtOffsetRealloc | include/tsl/sparse_hash.h:806-835 | the same into a new array of the given capacity |
| SparseArrays.SparseArray.EraseAtOffset | include/tsl/sparse_hash.h:893-943 | the value at the offset is gone and the rest moves down, in place or by copying |
| SparseArrays.SparseArray.ShiftLeft | include/tsl/sparse_hash.h:893-902 | the in-place form |
| SparseArrays.SparseArray.CopyWithout | include/tsl/sparse_hash.h:907-943 | the copying form |
| SparseArrays.SparseArray.Clear | include/tsl/sparse_hash.h:493-501 | no bucket holds a value or a tombstone |
| SparseArrays.SparseArray.Value | include/tsl/sparse_hash.h:517-525 | the value read is the one the bucket holds |
| SparseArrays.SparseArray.Kind | include/tsl/sparse_hash.h:507-515 | the two bitmaps tell full, deleted and empty buckets apart |
| SparseArrays.SparseArray.constructor | include/tsl/sparse_hash.h:304-360 | a new array is empty |
| SparseArrays.PackedSet | include/tsl/sparse_hash.h:531-547 | setting a bit and inserting at its rank is storing in that bucket only |
| SparseArrays.PackedErase | include/tsl/sparse_hash.h:549-573 | clearing a bit and removing at its rank is erasing that bucket only |
| SparseArrays.OffsetIndexInverse | include/tsl/sparse_hash.h:704-732 | two set bits with the same offset are the same bit: the translations are inverse |
| SparseArrays.PackedInOrder | include/tsl/sparse_hash.h:704-732 | values are stored in increasing bucket order |
| SparseHash.SparseHash.Insert | include/tsl/sparse_hash.h:1402-1403 | agrees with a map: inserts the pair just when the key is new; even if it is not, the table grows exactly when one more element would exceed bucket count times load factor, to the least power of two not below the growth factor times max(1, bucket count), fails, unchanged, exactly if that product exceeds 2^63, and otherwise clears all tombstones exactly when one more element or tombstone would exceed the factor halfway between load factor and 1; else the bucket count stays and the tombstone count drops by one exactly if the key's trail has a tombstone; elements stay within the load factor, except in the first growth of an empty table to one too small for it; counts stay exact |
| SparseHash.SparseHash.InsertImpl | include/tsl/sparse_hash.h:1834-1897 | the same, over the shared bounds of both tables: growing or clearing first, then the search, then the bucket it leads to |
| SparseHash.SparseHash.SeekPlace | include/tsl/sparse_hash.h:1849-1892 | the probe loop finds the key just when the map has it, and otherwise the bucket to store in, which is a tombstone exactly if there is one on the trail |
| SparseHash.TooSmallAtFirst | include/tsl/sparse_hash.h:1834-1841 | with load factor 0.1 the first element of an empty table leaves 1 element in 2 buckets, above the load factor |
| SparseHash.LoadInNumbers | include/tsl/sparse_hash.h:1698-1709 | growing and clearing in numbers: elements + 1 above bucket count times load factor; elements + tombstones + 1 above bucket count times the factor halfway between load factor and 1 |
| SparseHash.SparseHash.MakeRoom | include/tsl/sparse_hash.h:1836-1841 | grows exactly when one more element would exceed bucket count times load factor, to the least power of two not below the growth factor times max(1, bucket count), and fails, unchanged, exactly if that product exceeds 2^63; otherwise rebuilds at the same size exactly when one more element or tombstone would exceed the factor halfway to 1; the map is kept, and a bucket without value or tombstone stays free |
| SparseHash.SparseHash.InsertInBucket | include/tsl/sparse_hash.h:1900-1911 | stores a new key on its probe trail; a reused tombstone is no longer counted |
| SparseHash.SparseHash.Locate | include/tsl/sparse_hash.h:1914-1977 | the probe loop terminates, looking at no bucket twice, and finds the key just when the map has it |
| SparseHash.SparseHash.Find | include/tsl/sparse_hash.h:1952-1977 | look-up agrees with the map |
| SparseHash.SparseHash.EraseKey | include/tsl/sparse_hash.h:1914-1943 | removes exactly the key from the map, adds one tombstone, and says whether the key was there |
| SparseHash.SparseHash.RemoveAt | include/tsl/sparse_hash.h:1925-1933 | erasing one value moves one from the element count to the tombstone count |
| SparseHash.SparseHash.InsertOnRehash | include/tsl/sparse_hash.h:2029-2056 | moves a new entry into a table without tombstones; no probe loop runs forever |
| SparseHash.SparseHash.RehashImpl | include/tsl/sparse_hash.h:1989-2006 | the map is kept, all tombstones are gone, and the new bucket count is the least power of two not below the request |
| SparseHash.SparseHash.CopyTo | include/tsl/sparse_hash.h:1992-2001 | every value of every array is moved exactly once |
| SparseHash.SparseHash.MoveRow | include/tsl/sparse_hash.h:1994-1998 | the values of one array are moved, in order |
| SparseHash.SparseHash.Adopt | include/tsl/sparse_hash.h:1545-1563 | after the swap the table is the new one |
| SparseHash.SparseHash.Rehash | include/tsl/sparse_hash.h:1711-1715 | the new bucket count is the least power of two not below the request and what the load factor asks for; fails, unchanged, exactly if these exceed 2^63 |
| SparseHash.SparseHash.Clear | include/tsl/sparse_hash.h:1392-1399 | the map is empty, the bucket count stays, both counts are zero |
| SparseHash.SparseHash.Look | include/tsl/sparse_hash.h:507-525 | what a bucket number holds, through the split into array and index |
| SparseHash.SparseHash.StoreAt | include/tsl/sparse_hash.h:1900-1911 | storing through the split changes exactly that bucket |
| SparseHash.SparseHash.EraseAt | include/tsl/sparse_hash.h:1925-1933 | erasing through the split changes exactly that bucket |
| SparseHash.SparseHash.Create | include/tsl/sparse_hash.h:1151-1189 | a new table is the empty map with the least power of two not below the request as bucket count and a load factor clamped to 0.1..0.8; the constructor throws exactly above 2^63 |
| SparseHash.ThresholdBelow | include/tsl/sparse_hash.h:1698-1709 | both thresholds stay below the bucket count, so a bucket is always free |
| SparseHash.WhereToStore | include/tsl/sparse_hash.h:1874-1892 | where the search stops there is a bucket to store in, on the trail: the first tombstone or the empty bucket |
| SparseHash.NotFound | include/tsl/sparse_hash.h:1914-1943 | stopping at an empty bucket, or at a tombstone after n probes, proves the key absent |
| SparseHash.KeepProbing | include/tsl/sparse_hash.h:1773-1781 | the next masked step continues the same search, below n probes: elements and tombstones together stay below the bucket count, so the limit of the loop on probes is never what stops it |
| SparseHash.StoredConsistent | include/tsl/sparse_hash.h:1900-1911 | storing keeps map agreement, both exact counts and an empty bucket |
| SparseHash.ErasedConsistent | include/tsl/sparse_hash.h:1925-1933 | erasing keeps map agreement, both exact counts and an empty bucket |
| SparseTable.Absent | include/tsl/sparse_hash.h:1952-1977 | the early stop of a search is exact |
| SparseTable.Located | include/tsl/sparse_hash.h:1952-1977 | a key of the map is reached before any empty bucket |
| SparseTable.SearchEnds | include/tsl/sparse_hash.h:1952-1977 | a bucket that is not full ends every search before the 2n-th probe, and an empty one before the n-th |
| SparseTable.EmptyBucket | include/tsl/sparse_hash.h:1836-1841 | fewer elements and tombstones together than buckets leave an empty bucket |
| SparseTable.StoreSound | include/tsl/sparse_hash.h:1900-1911 | storing a new key on its trail keeps the table the map |
| SparseTable.EraseSound | include/tsl/sparse_hash.h:1925-1933 | a tombstone keeps every other key reachable |
| SparseTable.NotFullBucket | include/tsl/sparse_hash.h:1836-1841 | fewer elements than buckets leave a bucket that is not full |
| SparseTable.PackedAll | include/tsl/sparse_hash.h:531-573 | the packed values of an array are the values of its full buckets, in order |
| TableCommon.LoadBelow | include/tsl/sparse_hash.h:1698-1709 | a load factor below one gives a threshold below the bucket count |
| TableCommon.AtThreshold | include/tsl/sparse_hash.h:1698-1709 | the load threshold is reached exactly when one more element than the table has exceeds bucket count times load factor |
| TableCommon.GrownIsLight | include/tsl/sparse_hash.h:1836-1841 | after growing at least twofold one more element is within the load factor, except in the first growth of an empty table to one too small for it |
| TableCommon.EnoughRoom | include/tsl/sparse_hash.h:1711-1715 | what the load factor asks for leaves a bucket free |
| RobinHash.RobinHash.Insert | include/tsl/robin_hash.h:658-659 | agrees with a map: inserts just when the key is new, and returns the bucket that then holds the key; for a new key the table grows exactly when the last insertion asked for it or one more element would exceed bucket count times load factor, to the least power of two not below the growth factor times max(1, bucket count), and fails, without change to the map, exactly if that product exceeds 2^63; else the bucket count stays; elements stay within the load factor, except in the first growth of an empty table to one too small for it |
| RobinHash.RobinHash.InsertImpl | include/tsl/robin_hash.h:1100-1145 | the same, and growth is requested for the next time just when the elements were at least 0.15 times the (perhaps grown) bucket count and some entry that the displacements put into another bucket is 128 or more steps from home |
| RobinHash.TooSmallAtFirst | include/tsl/robin_hash.h:1100-1145 | with load factor 0.1 the first element of an empty table leaves 1 element in 2 buckets, above the load factor |
| RobinHash.RobinHash.FindImpl | include/tsl/robin_hash.h:1055-1071 | the early-exit search finds the key just when the map has it, and otherwise stops where the key would go |
| RobinHash.RobinHash.Find | include/tsl/robin_hash.h:1055-1071 | look-up agrees with the map |
| RobinHash.RobinHash.Seek | include/tsl/robin_hash.h:1117-1125 | the second search after growing stops where the new entry goes |
| RobinHash.RobinHash.Place | include/tsl/robin_hash.h:1128-1143 | the empty bucket or the displacement stores the entry, keeping map, distances and slope |
| RobinHash.RobinHash.InsertValue | include/tsl/robin_hash.h:1154-1181 | displacement terminates, the new entry keeps its bucket, every displaced entry finds one; growth is requested just when the load is high enough and some entry taking over another bucket is 128 or more steps from home |
| RobinHash.RobinHash.SwapWithValueInBucket | include/tsl/robin_hash.h:248-264 | the entry in hand takes the bucket and the displaced one is in hand, one step farther from home |
| RobinHash.RobinHash.GrowOnHighLoad | include/tsl/robin_hash.h:1229-1238 | grows exactly when requested or when one more element would exceed bucket count times load factor, to the least power of two not below the growth factor times max(1, bucket count), and then clears the request; fails, unchanged, exactly if that product exceeds 2^63; the map is kept and a bucket stays free |
| RobinHash.RobinHash.RehashImpl | include/tsl/robin_hash.h:1184-1203 | the map is kept in a table whose bucket count is the least power of two not below the request |
| RobinHash.RobinHash.CopyTo | include/tsl/robin_hash.h:1189-1199 | every entry is moved exactly once |
| RobinHash.RobinHash.InsertValueOnRehash | include/tsl/robin_hash.h:1205-1223 | terminates and adds exactly the entry, displacing on the way |
| RobinHash.RobinHash.Assign | include/tsl/robin_hash.h:889-891 | table[key] = v sets exactly that key of the map; fails exactly where inserting a new key does |
| RobinHash.RobinHash.SetValue | include/tsl/robin_hash.h:889-891 | overwriting a value in place sets exactly that key |
| RobinHash.RobinHash.EraseKey | include/tsl/robin_hash.h:820-836 | removes exactly the key and says whether it was there |
| RobinHash.RobinHash.EraseFromBucket | include/tsl/robin_hash.h:1073-1097 | the backward shift terminates, removes exactly the bucket's key and restores distances and slope around the circle |
| RobinHash.RobinHash.Clear | include/tsl/robin_hash.h:646-653 | the map is empty and no growth is requested |
| RobinHash.RobinHash.Rehash | include/tsl/robin_hash.h:986-989 | the new bucket count is the least power of two not below the request and what the load factor asks for; fails, unchanged, exactly if these exceed 2^63 |
| RobinHash.RobinHash.Create | include/tsl/robin_hash.h:485-517 | a new table is the empty map with the least power of two not below the request as bucket count and a load factor clamped to 0.1..0.95; the constructor throws exactly above 2^63 |
| RobinHash.RobinHash.NextIsNext | include/tsl/robin_hash.h:1033-1037 | masked increment goes once around the circle |
| RobinTable.EarlyExit | include/tsl/robin_hash.h:1055-1071 | the early exit is exact: a search farther from home than the entry it meets proves the key absent |
| RobinTable.SlopeBack | include/tsl/robin_hash.h:1055-1071 | going back from a bucket the distances fall by at most one a step |
| RobinTable.SearchEnds | include/tsl/robin_hash.h:1055-1071 | a free bucket ends every search within one round |
| RobinTable.StartCarrying | include/tsl/robin_hash.h:1100-1126 | where a failed search stops an entry can start to look for its bucket |
| RobinTable.CarrySwap | include/tsl/robin_hash.h:1157-1174 | a displacement keeps the invariant with the displaced entry in hand |
| RobinTable.CarryPass | include/tsl/robin_hash.h:1161-1178 | passing an entry at least as far from home keeps it |
| RobinTable.CarryPlace | include/tsl/robin_hash.h:1180 | an empty bucket completes the table |
| RobinTable.HoleStart | include/tsl/robin_hash.h:1073-1082 | emptying a bucket leaves the table in order except behind the hole |
| RobinTable.HoleMove | include/tsl/robin_hash.h:1085-1096 | moving the next entry back moves the hole on |
| RobinTable.HoleEnd | include/tsl/robin_hash.h:1085 | at an empty bucket or an entry at home the table is in order again |
| RobinTable.ValueSet | include/tsl/robin_hash.h:889-891 | overwriting a value keeps keys, distances and slope |
| Lloyd.ResidualsNeverIncrease | src/math_utils.cpp:300-361 | over any run the residual of a later iteration is at most that of an earlier one, empty clusters and zeroed centres included |
| Lloyd.RunLloyds | src/math_utils.cpp:369-416 | the run is a sequence of iterations from the given centres, at most maxReps, stops at the first one after which `StopsAt` holds, and returns the last one's residual, centres, assignment and index |
| Lloyd.StopsWhen | src/math_utils.cpp:396-397 | in numbers: the drop of the residual, times 100000, is below what is left, or what is left is below epsilon |
| Lloyd.ResidualsDrop | src/math_utils.cpp:391-401 | as long as a run goes on every iteration divides the residual by at least 1.00001 |
| Lloyd.RunIsShort | src/math_utils.cpp:391-401 | so the number of iterations is bounded by the first residual and epsilon, whatever maxReps is: 1.00001^i times epsilon is at most the first residual |
| Lloyd.StepIsUnique | src/math_utils.cpp:300-361 | an iteration is determined by the centres before it: assignment, new centres and residual |
| Lloyd.LloydsIter | src/math_utils.cpp:300-361 | assigns every point to the first nearest centre, moves each centre to its members' mean or to zero, and returns the cost of the new centres, which is at most the cost of any assignment to the old ones |
| Lloyd.UpdateCenters | src/math_utils.cpp:319-342 | every centre with points becomes their mean, every other one zero |
| Lloyd.MeanOf | src/math_utils.cpp:323-341 | the mean, coordinate by coordinate |
| Lloyd.Residual | src/math_utils.cpp:344-360 | the chunked sum is the total squared distance of the points from their centres |
| Lloyd.ComputeClosestCenters | src/math_utils.cpp:147-197 | nearest centres, the first of equally near ones, and for each centre exactly its points in order |
| Lloyd.ComputeClosestCentersInBlock | src/math_utils.cpp:68-116 | the distance matrix by norms yields the first nearest centre of every point (k = 1) |
| Lloyd.DistanceRow | src/math_utils.cpp:75-93 | norms and inner products give the squared distances |
| Lloyd.ClosestInRow | src/math_utils.cpp:95-113 | the first least entry of a row |
| Lloyd.CalcDistance | src/math_utils.cpp:23-29 | the squared distance |
| Lloyd.ComputeVecsL2sq | src/math_utils.cpp:33-39 | the squared norms |
| Lloyd.MembersPartition | src/math_utils.cpp:186-196 | every point is listed exactly once, under its own centre |
| Lloyd.UpdateLowersCost | src/math_utils.cpp:319-342 | replacing centres by means or zeros never raises the cost |
| Lloyd.NearestIsCheapest | src/math_utils.cpp:68-116 | no assignment is cheaper than the nearest centres |
| Lloyd.MeanBeats | src/math_utils.cpp:319-342 | no centre is better for a set of points than their mean |
| Lloyd.DeviationShift | src/math_utils.cpp:319-342 | the cost of a coordinate as a function of the centre is a parabola with its minimum at the mean |
| Lloyd.NormExpansion | src/math_utils.cpp:75-93 | the two squared norms less twice the inner product are the squared distance |
| Lloyd.UpdatedInBox | src/math_utils.cpp:319-342 | means and zeros stay in the box of the data, so distances stay below the largest float |
| Checksum.IpChecksum | rdma_lib/utils.hpp:114-165 | for data up to 0x3FFFFFFF0 bytes at every alignment the result is the byte-swapped complement of the residue in 1..65535 of the sum of big-endian 16-bit words; for all data it is that of the folded wrapped accumulator |
| Checksum.ChecksumIsWordSum | rdma_lib/utils.hpp:114-165 | what is complemented lies in 1..65535 and is congruent mod 65535 to the sum of words, as in sections 1 and 2 of RFC 1071, as long as the accumulator does not wrap |
| Checksum.AlignmentIndependent | rdma_lib/utils.hpp:114-165 | up to 0x3FFFFFFF0 equal bytes have equal checksums at every two addresses |
| Checksum.AlignmentIff | rdma_lib/utils.hpp:114-165 | exactly when equal bytes of any length have equal checksums at two addresses: both accumulators are zero, or neither is and the numbers of their wrap-arounds, each times 256 at an odd address, are congruent mod 65535 |
| Checksum.AlignmentMatters | rdma_lib/utils.hpp:119-162 | 0x400000004 bytes of ones have different checksums at addresses 0 and 1 |
| Checksum.FallsShort | rdma_lib/utils.hpp:119-162 | for data of any length, what is complemented falls short of the sum of words by one, or at an odd address by 256, for every wrap-around, modulo 65535; it is zero just when the accumulator is |
| Checksum.CorrectIff | rdma_lib/utils.hpp:114-165 | exactly when that holds for data of any length: the accumulator is not zero and the number of its wrap-arounds is a multiple of 65535 |
| Checksum.TooLong | rdma_lib/utils.hpp:126-150 | 0x400000004 bytes of ones at an aligned address get a wrong checksum |
| Checksum.NoWrap | rdma_lib/utils.hpp:119-150 | up to 0x3FFFFFFF0 bytes the 64-bit accumulator cannot wrap |
| Checksum.LostCarries | rdma_lib/utils.hpp:119-150 | every wrap-around loses one, modulo 65535 |
| Checksum.Fold | rdma_lib/utils.hpp:152-157 | the three folding steps keep the residue and yield zero only from zero |
| Checksum.FoldedResidue | rdma_lib/utils.hpp:152-164 | folding and, at odd addresses, swapping gives the residue |
| Checksum.TotalCongruent | rdma_lib/utils.hpp:119-150 | the accumulated words are congruent to the sum of words at even addresses and to its byte-swapped form at odd ones |
| Checksum.EvenIsWordSum | rdma_lib/utils.hpp:119-150 | weighting bytes by even address is summing 16-bit words |
| Checksum.OddIsSwapped | rdma_lib/utils.hpp:159-162 | at an odd address 256 times the weighted sum is congruent to the weighted sum at the next address |
| Checksum.WordAdds | rdma_lib/utils.hpp:119-150 | a partial word contributes exactly its bytes, by weight |
| Checksum.SwapIsTimes | rdma_lib/utils.hpp:159-162 | swapping the bytes of a 16-bit number multiplies it by 256 modulo 65535 |
| Checksum.ResidueIsUnique | rdma_lib/utils.hpp:152-157 | there is only one such number in 1..65535 |
| ProductQuantizer.Partition | src/pq.cpp:321-353 | for every 0 < chunks <= dim the greedy loop always finds a bin and fills the bins with consecutive dimensions, the first dim % chunks of them with one more |
| ProductQuantizer.FirstWithRoom | src/pq.cpp:336-344 | the inner search always finds the first bin with room |
| ProductQuantizer.FilledStep | src/pq.cpp:332-353 | while dimensions are left the current bin has room under the current threshold |
| ProductQuantizer.ChunkOffsets | src/pq.cpp:354-363 | the offsets start at 0, end at dim, and cut the dimensions into the bins, each of size floor or ceiling of dim / chunks |
| ProductQuantizer.StartEnd | src/pq.cpp:354-363 | the chunk sizes add up to dim |
| ProductQuantizer.StartForm | src/pq.cpp:354-363 | where chunk b starts, in closed form |
| ProductQuantizer.PqTable.PreprocessQuery | src/pq.cpp:104-108 | the centroid is subtracted from the query |
| ProductQuantizer.PqTable.PopulateChunkDistances | src/pq.cpp:110-127 | the table holds for every chunk and centroid the squared distance over the chunk's dimensions |
| ProductQuantizer.PqTable.PopulateChunk | src/pq.cpp:115-126 | one row is filled and the others are left alone |
| ProductQuantizer.PqTable.L2Distance | src/pq.cpp:151-161 | the sum over the chunks of the distances from the code's centroids |
| ProductQuantizer.PqTable.InflateVector | src/pq.cpp:177-184 | every coordinate is that of its chunk's centroid plus the global centroid |
| ProductQuantizer.PqDistLookupSingle | src/pq.cpp:189-203 | the sum of the looked-up distances of one code |
| ProductQuantizer.PqDistLookup | src/pq.cpp:246-262 | batched look-up yields for every code what looking it up alone yields |
| ProductQuantizer.AddChunk | src/pq.cpp:252-261 | one pass of the outer loop takes every distance from the sum over the first chunks to that over one more |
| ProductQuantizer.PqTable.TableDistance | src/pq.cpp:104-262 | table look-up, direct distance, squared distance of the prepared query from the inflated vector minus the centroid, and squared distance of the raw query from the inflated vector are all equal |
| ProductQuantizer.PqTable.LookupIsCodeDistance | src/pq.cpp:111-203 | table look-up equals the direct distance |
| ProductQuantizer.PqTable.CodeIsDistance | src/pq.cpp:151-184 | the direct distance is the squared distance of the query from the inflated vector minus the centroid |
| ProductQuantizer.LayoutIsValid | src/pq.cpp:354-363 | the offsets of the computed partition are a valid layout of a table |
| ProductQuantizer.LookUpAll | src/pq.cpp:104-363 | partition, query preparation, table and batched look-up together: every distance looked up for a code is the squared distance of the raw query from the vector that the code inflates to |

## Left out

Contracts stated weaker than the source in some respect:

- Hungary.Matcher.HungaryMatch: nothing but termination, the permutation and the returned sum is stated of a call in which an `int` overflows, since the source's behaviour is then undefined; the sum itself is wrapped.
- LocalSearch.SearchBaseIndex: for K above the final queue size the source goes on into slots of the queue's array that hold no entry of this search; the model reports as many results as there are entries.
- LocalSearch.Results: the same, k is at most the queue size.
- BucketSearch.SearchBaseIndexOnBuckets: the same for labels.
- BucketSearch.Results: the same, k is at most the queue size.
- DistributedSearch.Finish: the same for labels.
- DistributedSearch.CollectLabels: the same, k is at most the queue size; beyond it the source looks up whatever vertex the slot names and throws if it is remote and not cached.
- DistributedSearch.SearchBaseIndexDistributed: with relax > 0 the vertices scored in the final drain are not expanded, so no local optimality is claimed then beyond that all earlier entries are expanded; K above the queue size yields as many labels as there are entries; the quantised distance of a vertex is an input; that there are at least relax + 1 entry points is required, as the source asserts before it reads anything (src/index.cpp:1122).
- GStore.ThreadStore.GetVertexBatch: only with no asynchronous batch in flight, as in the search. With one in flight its completions would be counted as those of the synchronous reads.
- Rdma.Device.RdmaReadBatch: only on a device with nothing outstanding, for the same reason.
- Rdma.Device.PostAll: the same; it is the posting half of that batch.
- GStore.RdmaCache.SetCache: which hot vertices are cached (`GStore::set_cache`, core/store/gstore.hpp:117-153) is an input.
- GStore.RdmaCache.RdmaRead: the sweep of a completion left by an earlier unsignalled write is not modelled; nothing posts such writes here, and the counter that triggers the sweep is never raised by the posts modelled.
- Rdma.Device.RcPostDoorbell: the failure of a post beyond the 1024 requests of a send queue is not modelled; how many are outstanding is counted, and DistributedSearch.SearchBaseIndexDistributed bounds it. Work-completion errors are not modelled.
- Balance.MaximumWeightMatch: the ratio array holds the exact affinity, not its float conversion.
- BucketBuild.GenerateBaseIndexOnBuckets: the coarse cluster of every vertex is an input, a byte as in the source.
- RobinHash.RobinHash.Insert: distances are unbounded numbers instead of 16-bit ones; stored and truncated hashes are not modelled.
- SparseHash.SparseHash.RehashImpl: the freeing of each old array right after it was moved is not modelled; the limit of the underlying vector is that of the growth policy.
- Lloyd.ComputeClosestCenters: only k = 1, the only value used by the iterations; all distances are required to lie below the largest float, which Lloyd.BoxIsBounded derives from a bound on the coordinates.
- Lloyd.ComputeClosestCentersInBlock: the same.
- Lloyd.RunLloyds: without points the source divides by zero (src/math_utils.cpp:165); the model runs.

- SparseArrays.SparseArray.InsertAtOffset: the capacity grows by 4, the step of the default (medium) sparsity.

Not modelled:

- Floating-point rounding, vector instructions, matrix libraries and parallel loops: exact sums in index order.
- The profiling overload of the distributed search (src/index.cpp:933-1029): it decodes records without the vertex id that the builder writes.
- Query statistics, resizing of a queue, adaptive choice of entry points (they are a list given to the search).
- One visited set per server: one set of items.
- Prime and modulo growth policies; iterators, moves, copies, exception safety, range erasure and (de)serialisation of the hash tables.
- Inner-product variants, loading and transposition of code books, choice of initial pivots, and the k-means call per chunk.
- Connection set-up, device discovery, memory registration, processes, logging, timers, configuration and files.
