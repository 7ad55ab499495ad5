/** One thread's reliable-connected queue pairs, one per server, and its read buffer.

    A queue pair is a FIFO of posted reads. The network completes reads in posting order, at any
    moment, each by copying one vertex slot from the owner's memory into the thread's buffer; a
    completion is queued only for reads posted with the signalled flag. */
module Rdma {
  import opened Common
  import opened RecordLayout
  import opened BucketBuild
  import opened BucketSearch

  const MAX_DOORBELL_SIZE := 128

  /** A read request: buffer offset, offset in the owner's memory, signalled flag. */
  datatype WorkRequest = WorkRequest(local: nat, remote: nat, signaled: bool)

  /** The request that reads item into a buffer slot. */
  function ReadOf(size: nat, slot: nat, item: nat, signaled: bool): WorkRequest {
    WorkRequest(Offset(size, slot), Offset(size, Local(item)), signaled)
  }

  /** How many of the first k slots in u were posted signalled. */
  ghost function Signals(u: seq<nat>, signaled: set<nat>, k: nat): nat
    requires k <= |u|
  {
    if k == 0 then 0 else Signals(u, signaled, k - 1) + if u[k - 1] in signaled then 1 else 0
  }

  /** The reads of a queue pair that were posted and whose completion was not polled are u, in posting
      order; the last |sq| of them are still with the network; cq completions wait to be polled. */
  ghost predicate QueuePair(sp: Space, s: nat, sq: seq<WorkRequest>, cq: nat, u: seq<nat>,
                            issued: map<nat, nat>, signaled: set<nat>) {
    && |sq| <= |u|
    && (forall i :: 0 <= i < |u| ==> u[i] in issued && Server(issued[u[i]]) == s)
    && Different(u)
    && Requests(sp.size, sq, u[|u| - |sq|..], issued, signaled)
    && cq == Signals(u, signaled, |u| - |sq|)
  }

  ghost predicate Different(u: seq<nat>) {
    forall i, j :: 0 <= i < j < |u| ==> u[i] != u[j]
  }

  /** sq are the requests for the slots in v. */
  ghost predicate Requests(size: nat, sq: seq<WorkRequest>, v: seq<nat>, issued: map<nat, nat>, signaled: set<nat>) {
    |sq| == |v| && forall i :: 0 <= i < |v| ==>
        v[i] in issued && sq[i] == ReadOf(size, v[i], issued[v[i]], v[i] in signaled)
  }

  /** The slots of u that the network has not filled yet. */
  ghost function Waiting(u: seq<nat>, sq: seq<WorkRequest>): seq<nat> {
    if |sq| <= |u| then u[|u| - |sq|..] else []
  }

  lemma HeadCompletes(sp: Space, s: nat, sq: seq<WorkRequest>, cq: nat, u: seq<nat>, issued: map<nat, nat>,
                      signaled: set<nat>)
    requires QueuePair(sp, s, sq, cq, u, issued, signaled) && sq != []
    ensures QueuePair(sp, s, sq[1..], if sq[0].signaled then cq + 1 else cq, u, issued, signaled)
    ensures Waiting(u, sq)[0] in issued && Server(issued[Waiting(u, sq)[0]]) == s
    ensures sq[0].local == Offset(sp.size, Waiting(u, sq)[0])
    ensures sq[0].remote == Offset(sp.size, Local(issued[Waiting(u, sq)[0]]))
    ensures Waiting(u, sq[1..]) == Waiting(u, sq)[1..]
    ensures forall x :: x in Waiting(u, sq) ==> x in Waiting(u, sq[1..]) || x == Waiting(u, sq)[0]
    ensures Waiting(u, sq)[0] !in Waiting(u, sq[1..])
  {
  }

  /** issued' and signaled' extend issued and signaled. */
  ghost predicate Extends(issued: map<nat, nat>, signaled: set<nat>, issued': map<nat, nat>, signaled': set<nat>) {
    forall x :: x in issued ==> x in issued' && issued'[x] == issued[x] && (x in signaled' <==> x in signaled)
  }

  /** Fresh slots for reads on queue pair s. */
  ghost predicate FreshGroup(s: nat, group: seq<nat>, issued: map<nat, nat>, issued': map<nat, nat>) {
    Different(group)
    && forall i :: 0 <= i < |group| ==> group[i] !in issued && group[i] in issued' && Server(issued'[group[i]]) == s
  }

  /** Posting a group of fresh slots. */
  lemma PostGroup(sp: Space, s: nat, sq: seq<WorkRequest>, cq: nat, u: seq<nat>, issued: map<nat, nat>,
                  signaled: set<nat>,
                  group: seq<nat>, reqs: seq<WorkRequest>, issued': map<nat, nat>, signaled': set<nat>)
    requires QueuePair(sp, s, sq, cq, u, issued, signaled) && Extends(issued, signaled, issued', signaled')
    requires FreshGroup(s, group, issued, issued') && Requests(sp.size, reqs, group, issued', signaled')
    ensures QueuePair(sp, s, sq + reqs, cq, u + group, issued', signaled')
    ensures Waiting(u + group, sq + reqs) == Waiting(u, sq) + group
  {
    hide ReadOf, Server;
    SignalsLocal(u, u + group, signaled, signaled', |u| - |sq|);
    assert (u + group)[|u + group| - |sq + reqs|..] == u[|u| - |sq|..] + group;
    OldRequests(sp.size, sq, u[|u| - |sq|..], issued, signaled, issued', signaled');
    DifferentAppend(u, group, issued);
  }

  lemma OldRequests(size: nat, sq: seq<WorkRequest>, v: seq<nat>, issued: map<nat, nat>, signaled: set<nat>,
                    issued': map<nat, nat>, signaled': set<nat>)
    requires Requests(size, sq, v, issued, signaled) && Extends(issued, signaled, issued', signaled')
    ensures Requests(size, sq, v, issued', signaled')
  {
  }

  lemma DifferentAppend(u: seq<nat>, group: seq<nat>, issued: map<nat, nat>)
    requires Different(u) && Different(group)
    requires (forall i :: 0 <= i < |u| ==> u[i] in issued) && forall i :: 0 <= i < |group| ==> group[i] !in issued
    ensures Different(u + group)
  {
  }

  lemma {:induction false} SignalsLocal(u: seq<nat>, v: seq<nat>, signaled: set<nat>, signaled': set<nat>, k: nat)
    requires k <= |u| && k <= |v| && forall i :: 0 <= i < k ==>
              u[i] == v[i] && (u[i] in signaled <==> u[i] in signaled')
    ensures Signals(u, signaled, k) == Signals(v, signaled', k)
  {
    if k > 0 { SignalsLocal(u, v, signaled, signaled', k - 1); }
  }

  /** group is posted with only its last read signalled. */
  ghost predicate LastSignaled(group: seq<nat>, signaled: set<nat>) {
    forall i :: 0 <= i < |group| ==> (group[i] in signaled <==> i == |group| - 1)
  }

  lemma {:induction false} SignalsShift(u: seq<nat>, signaled: set<nat>, g: nat, k: nat)
    requires g <= k <= |u| && 0 < g && LastSignaled(u[..g], signaled)
    ensures Signals(u, signaled, k) == 1 + Signals(u[g..], signaled, k - g)
  {
    if k > g {
      SignalsShift(u, signaled, g, k - 1);
    } else {
      assert u[..g][g - 1] == u[g - 1];
      NoSignals(u, signaled, g, g - 1);
    }
  }

  lemma {:induction false} NoSignals(u: seq<nat>, signaled: set<nat>, g: nat, k: nat)
    requires k < g <= |u| && LastSignaled(u[..g], signaled)
    ensures Signals(u, signaled, k) == 0
  {
    if k > 0 {
      NoSignals(u, signaled, g, k - 1);
      assert u[..g][k - 1] == u[k - 1];
    }
  }

  /** A waiting completion means that the whole front group is filled; polling it retires the group. */
  lemma PollRetires(sp: Space, s: nat, sq: seq<WorkRequest>, cq: nat, u: seq<nat>, issued: map<nat, nat>,
                    signaled: set<nat>, g: nat)
    requires QueuePair(sp, s, sq, cq, u, issued, signaled) && 0 < cq
    requires 0 < g <= |u| && LastSignaled(u[..g], signaled)
    ensures |sq| <= |u| - g && QueuePair(sp, s, sq, cq - 1, u[g..], issued, signaled)
    ensures Waiting(u[g..], sq) == Waiting(u, sq)
  {
    hide ReadOf, Server;
    if |u| - |sq| < g {
      NoSignals(u, signaled, g, |u| - |sq|);
    }
    SignalsShift(u, signaled, g, |u| - |sq|);
    assert u[g..][|u| - g - |sq|..] == u[|u| - |sq|..];
  }

  // ----- the state of a thread's network ------------------------------------------------------

  /** sq, cq: per queue pair, the posted reads the network still has and the completions waiting.
      buf: the read buffer. issued: which item was read into each buffer slot since the last reset;
      signaled: which of these reads were signalled; unpolled: per queue pair, the slots whose
      completion was not polled. */
  datatype Net = Net(sq: seq<seq<WorkRequest>>, cq: seq<nat>, buf: seq<byte>,
                     issued: map<nat, nat>, signaled: set<nat>, unpolled: seq<seq<nat>>)

  ghost predicate Queues(sp: Space, n: Net) {
    && |n.sq| == |n.cq| == |n.unpolled| == |sp.mem|
    && forall s :: 0 <= s < |n.sq| ==> QueuePair(sp, s, n.sq[s], n.cq[s], n.unpolled[s], n.issued, n.signaled)
  }

  /** The network still has the read into slot. */
  ghost predicate InFlight(n: Net, slot: nat) {
    && slot in n.issued
    && var s := Server(n.issued[slot]);
       s < |n.sq| && s < |n.unpolled| && slot in Waiting(n.unpolled[s], n.sq[s])
  }

  ghost predicate Landed(n: Net, slot: nat) {
    slot in n.issued && !InFlight(n, slot)
  }

  /** The bytes of buffer slot `slot`. */
  function Bytes(size: nat, buf: seq<byte>, slot: nat): seq<byte>
    requires Offset(size, slot) + size <= |buf|
  {
    buf[Offset(size, slot)..Offset(size, slot) + size]
  }

  ghost predicate Filled(sp: Space, n: Net) {
    && (forall slot :: slot in n.issued ==> sp.Has(n.issued[slot]) && Offset(sp.size, slot) + sp.size <= |n.buf|)
    && (forall slot :: Landed(n, slot) ==> Bytes(sp.size, n.buf, slot) == sp.Slot(n.issued[slot]))
  }

  /** The invariant: the queue pairs are in order, and every read that landed has its owner's bytes. */
  ghost predicate NetOk(sp: Space, n: Net) {
    Queues(sp, n) && Filled(sp, n)
  }

  ghost predicate Idle(n: Net) {
    |n.sq| == |n.cq| == |n.unpolled|
    && forall s :: 0 <= s < |n.sq| ==> n.sq[s] == [] && n.cq[s] == 0 && n.unpolled[s] == []
  }

  /** The slot of the oldest read of queue pair s that the network has. */
  ghost function HeadSlot(n: Net, s: nat): nat
    requires s < |n.sq| && s < |n.unpolled|
  {
    if Waiting(n.unpolled[s], n.sq[s]) == [] then 0 else Waiting(n.unpolled[s], n.sq[s])[0]
  }

  lemma HeadRead(sp: Space, n: Net, s: nat)
    requires NetOk(sp, n) && s < |n.sq| && n.sq[s] != []
    ensures var slot, wr := HeadSlot(n, s), n.sq[s][0];
            && slot in n.issued && Server(n.issued[slot]) == s && sp.Has(n.issued[slot])
            && wr.local == Offset(sp.size, slot) && Offset(sp.size, slot) + sp.size <= |n.buf|
            && wr.remote == Offset(sp.size, Local(n.issued[slot]))
            && QueuePair(sp, s, n.sq[s][1..], if wr.signaled then n.cq[s] + 1 else n.cq[s], n.unpolled[s], n.issued,
                n.signaled)
            && slot !in Waiting(n.unpolled[s], n.sq[s][1..])
            && forall x :: x in Waiting(n.unpolled[s], n.sq[s])
                           <==> x in Waiting(n.unpolled[s], n.sq[s][1..]) || x == slot
  {
    HeadCompletes(sp, s, n.sq[s], n.cq[s], n.unpolled[s], n.issued, n.signaled);
  }

  /** The network completes the oldest read of queue pair s. */
  ghost function Complete(sp: Space, n: Net, s: nat): Net
    requires NetOk(sp, n) && s < |n.sq| && n.sq[s] != []
  {
    var wr := n.sq[s][0];
    HeadRead(sp, n, s);
    n.(sq := n.sq[s := n.sq[s][1..]],
       cq := n.cq[s := if wr.signaled then n.cq[s] + 1 else n.cq[s]],
       buf := Splice(n.buf, wr.local, sp.mem[s][wr.remote..wr.remote + sp.size]))
  }

  /** The step lands the head of its queue pair and nothing else. */
  lemma CompleteLanded(sp: Space, n: Net, s: nat, slot: nat)
    requires NetOk(sp, n) && s < |n.sq| && n.sq[s] != []
    ensures Landed(Complete(sp, n, s), slot) <==> Landed(n, slot) || slot == HeadSlot(n, s)
  {
    hide QueuePair, Splice, Offset, Filled, Waiting, HeadSlot, Server;
    HeadRead(sp, n, s);
  }

  lemma CompleteFills(sp: Space, n: Net, s: nat, slot: nat)
    requires NetOk(sp, n) && s < |n.sq| && n.sq[s] != [] && Landed(Complete(sp, n, s), slot)
    ensures slot in n.issued && Bytes(sp.size, Complete(sp, n, s).buf, slot) == sp.Slot(n.issued[slot])
  {
    hide QueuePair, Offset, Waiting, HeadSlot, Server, Splice;
    CompleteLanded(sp, n, s, slot);
    HeadRead(sp, n, s);
    var head, wr := HeadSlot(n, s), n.sq[s][0];
    var data := sp.mem[s][wr.remote..wr.remote + sp.size];
    SpliceSlice(n.buf, wr.local, data, Offset(sp.size, slot), sp.size);
    if slot != head { OffsetsApart(sp.size, head, slot); }
  }

  /** A network step keeps the invariant and loses no byte that had landed. */
  lemma CompleteOk(sp: Space, n: Net, s: nat)
    requires NetOk(sp, n) && s < |n.sq| && n.sq[s] != []
    ensures NetOk(sp, Complete(sp, n, s))
    ensures forall slot :: Landed(n, slot) ==> Landed(Complete(sp, n, s), slot)
  {
    hide QueuePair, Offset, Waiting, HeadSlot, Server, Splice, Landed;
    var n' := Complete(sp, n, s);
    HeadRead(sp, n, s);
    forall slot | Landed(n', slot)
      ensures slot in n.issued && Bytes(sp.size, n'.buf, slot) == sp.Slot(n'.issued[slot])
    {
      CompleteLanded(sp, n, s, slot);
      CompleteFills(sp, n, s, slot);
    }
    forall slot | Landed(n, slot) ensures Landed(n', slot) {
      CompleteLanded(sp, n, s, slot);
    }
  }

  // ----- posting and polling ------------------------------------------------------------------

  /** One more read is posted on queue pair s. */
  ghost function Post(sp: Space, n: Net, s: nat, slot: nat, item: nat, signaled: bool): Net
    requires s < |n.sq| && s < |n.unpolled|
  {
    n.(sq := n.sq[s := n.sq[s] + [ReadOf(sp.size, slot, item, signaled)]],
       issued := n.issued[slot := item],
       signaled := if signaled then n.signaled + {slot} else n.signaled - {slot},
       unpolled := n.unpolled[s := n.unpolled[s] + [slot]])
  }

  lemma {:induction false} OtherPair(sp: Space, s: nat, sq: seq<WorkRequest>, cq: nat, u: seq<nat>,
                                     issued: map<nat, nat>, signaled: set<nat>, issued': map<nat, nat>,
                                     signaled': set<nat>)
    requires QueuePair(sp, s, sq, cq, u, issued, signaled) && Extends(issued, signaled, issued', signaled')
    ensures QueuePair(sp, s, sq, cq, u, issued', signaled')
  {
    hide ReadOf, Server;
    SignalsLocal(u, u, signaled, signaled', |u| - |sq|);
  }

  /** Posting a read into a fresh buffer slot keeps the invariant; what landed stays, and the new slot
      has not landed. */
  lemma PostOk(sp: Space, n: Net, s: nat, slot: nat, item: nat, signaled: bool)
    requires NetOk(sp, n) && s < |n.sq| && slot !in n.issued
    requires Server(item) == s && sp.Has(item) && Offset(sp.size, slot) + sp.size <= |n.buf|
    ensures NetOk(sp, Post(sp, n, s, slot, item, signaled))
    ensures forall x :: Landed(Post(sp, n, s, slot, item, signaled), x) <==> Landed(n, x)
  {
    var n' := Post(sp, n, s, slot, item, signaled);
    assert Extends(n.issued, n.signaled, n'.issued, n'.signaled);
    PostQueues(sp, n, s, slot, item, signaled);
    forall x ensures Landed(n', x) <==> Landed(n, x) {
      PostLanded(sp, n, s, slot, item, signaled, x);
    }
  }

  lemma PostQueues(sp: Space, n: Net, s: nat, slot: nat, item: nat, signaled: bool)
    requires Queues(sp, n) && s < |n.sq| && slot !in n.issued && Server(item) == s
    ensures Queues(sp, Post(sp, n, s, slot, item, signaled))
    ensures Waiting(n.unpolled[s] + [slot], n.sq[s] + [ReadOf(sp.size, slot, item, signaled)])
            == Waiting(n.unpolled[s], n.sq[s]) + [slot]
  {
    hide QueuePair, Server, Waiting;
    var n' := Post(sp, n, s, slot, item, signaled);
    PostGroup(sp, s, n.sq[s], n.cq[s], n.unpolled[s], n.issued, n.signaled, [slot],
              [ReadOf(sp.size, slot, item, signaled)], n'.issued, n'.signaled);
    forall t | 0 <= t < |n.sq| && t != s
      ensures QueuePair(sp, t, n.sq[t], n.cq[t], n.unpolled[t], n'.issued, n'.signaled)
    {
      OtherPair(sp, t, n.sq[t], n.cq[t], n.unpolled[t], n.issued, n.signaled, n'.issued, n'.signaled);
    }
  }

  lemma PostLanded(sp: Space, n: Net, s: nat, slot: nat, item: nat, signaled: bool, x: nat)
    requires Queues(sp, n) && s < |n.sq| && slot !in n.issued && Server(item) == s
    ensures Landed(Post(sp, n, s, slot, item, signaled), x) <==> Landed(n, x)
  {
    hide QueuePair, Waiting, Server, ReadOf;
    PostQueues(sp, n, s, slot, item, signaled);
  }

  /** One completion of queue pair s is polled; it retires the first g of its unpolled slots. */
  ghost function Poll(n: Net, s: nat, g: nat): Net
    requires s < |n.cq| && s < |n.unpolled| && 0 < n.cq[s] && g <= |n.unpolled[s]|
  {
    n.(cq := n.cq[s := n.cq[s] - 1], unpolled := n.unpolled[s := n.unpolled[s][g..]])
  }

  /** Polling the completion of a group keeps the invariant, and the reads of the group have landed. */
  lemma PollOk(sp: Space, n: Net, s: nat, g: nat)
    requires NetOk(sp, n) && s < |n.sq| && 0 < n.cq[s]
    requires 0 < g <= |n.unpolled[s]| && LastSignaled(n.unpolled[s][..g], n.signaled)
    ensures NetOk(sp, Poll(n, s, g))
    ensures forall x :: Landed(Poll(n, s, g), x) <==> Landed(n, x)
    ensures forall i :: 0 <= i < g ==> Landed(n, n.unpolled[s][i])
  {
    var n', u := Poll(n, s, g), n.unpolled[s];
    PollRetires(sp, s, n.sq[s], n.cq[s], u, n.issued, n.signaled, g);
    PollKeeps(sp, n, s, g);
    forall i | 0 <= i < g ensures Landed(n, u[i]) {
      assert forall j :: |u| - |n.sq[s]| <= j < |u| ==> u[i] != u[j];
    }
  }

  lemma PollKeeps(sp: Space, n: Net, s: nat, g: nat)
    requires NetOk(sp, n) && s < |n.sq| && 0 < n.cq[s] && g <= |n.unpolled[s]|
    requires QueuePair(sp, s, n.sq[s], n.cq[s] - 1, n.unpolled[s][g..], n.issued, n.signaled)
    requires Waiting(n.unpolled[s][g..], n.sq[s]) == Waiting(n.unpolled[s], n.sq[s])
    ensures NetOk(sp, Poll(n, s, g))
    ensures forall x :: Landed(Poll(n, s, g), x) <==> Landed(n, x)
  {
    hide QueuePair, Waiting, Server, Offset;
    assert forall x :: InFlight(Poll(n, s, g), x) <==> InFlight(n, x);
  }

  /** A queue pair that still owes a signalled completion, and has none waiting, has a read to complete. */
  lemma OwesRead(sp: Space, s: nat, sq: seq<WorkRequest>, cq: nat, u: seq<nat>, issued: map<nat, nat>,
                 signaled: set<nat>, g: nat)
    requires QueuePair(sp, s, sq, cq, u, issued, signaled) && cq == 0
    requires 0 < g <= |u| && LastSignaled(u[..g], signaled)
    ensures sq != []
  {
    hide Requests, Server;
    if |sq| == 0 {
      SignalsShift(u, signaled, g, |u|);
    }
  }

  // ----- batches ------------------------------------------------------------------------------

  /** Of the first k items of a batch in buffer slots first, first + 1, ...: the slots read from
      server s, in order. */
  ghost function OnTo(items: seq<nat>, s: nat, first: nat, k: nat): seq<nat>
    requires k <= |items|
  {
    if k == 0 then []
    else if Server(items[k - 1]) == s then OnTo(items, s, first, k - 1) + [first + k - 1]
    else OnTo(items, s, first, k - 1)
  }

  ghost function On(items: seq<nat>, s: nat, first: nat): seq<nat> {
    OnTo(items, s, first, |items|)
  }

  lemma {:induction false} OnToSlots(items: seq<nat>, s: nat, first: nat, k: nat)
    requires k <= |items|
    ensures |OnTo(items, s, first, k)| <= k
    ensures forall i :: 0 <= i < |OnTo(items, s, first, k)| ==>
              var x := OnTo(items, s, first, k)[i]; first <= x < first + k && Server(items[x - first]) == s
    ensures forall i :: 0 <= i < k && Server(items[i]) == s ==> first + i in OnTo(items, s, first, k)
    ensures Different(OnTo(items, s, first, k))
  {
    if k > 0 { OnToSlots(items, s, first, k - 1); }
  }

  /** The bookkeeping part of the network state; it changes only when this thread posts and polls. */
  datatype Ledger = Ledger(issued: map<nat, nat>, signaled: set<nat>, unpolled: seq<seq<nat>>)

  ghost function Enter(b: Ledger, s: nat, slot: nat, item: nat, signal: bool): Ledger
    requires s < |b.unpolled|
  {
    Ledger(b.issued[slot := item], if signal then b.signaled + {slot} else b.signaled - {slot},
           b.unpolled[s := b.unpolled[s] + [slot]])
  }

  /** The ledger after the first k reads of a doorbell on server s. */
  ghost function Rung(b: Ledger, s: nat, group: seq<nat>, items: seq<nat>, first: nat, k: nat): (b': Ledger)
    requires s < |b.unpolled| && k <= |group|
    requires forall i :: 0 <= i < |group| ==> first <= group[i] < first + |items|
    ensures |b'.unpolled| == |b.unpolled|
  {
    if k == 0 then b
    else Enter(Rung(b, s, group, items, first, k - 1), s, group[k - 1], items[group[k - 1] - first], k == |group|)
  }

  /** What the first k reads of a doorbell leave in the ledger. */
  ghost predicate RungShape(b: Ledger, b': Ledger, s: nat, group: seq<nat>, items: seq<nat>, first: nat, k: nat)
    requires k <= |group|
    requires forall i :: 0 <= i < |group| ==> first <= group[i] < first + |items|
  {
    && |b'.unpolled| == |b.unpolled| && s < |b.unpolled|
    && b'.unpolled[s] == b.unpolled[s] + group[..k]
    && (forall t :: 0 <= t < |b.unpolled| && t != s ==> b'.unpolled[t] == b.unpolled[t])
    && b'.issued.Keys == b.issued.Keys + Elements(group[..k])
    && (forall x :: x in b'.issued ==>
          b'.issued[x] == if x in Elements(group[..k]) && first <= x < first + |items| then items[x - first]
                          else if x in b.issued then b.issued[x] else 0)
    && (forall x :: x !in Elements(group[..k]) ==> (x in b'.signaled <==> x in b.signaled))
    && (forall i :: 0 <= i < k ==> (group[i] in b'.signaled <==> i == |group| - 1))
  }

  lemma {:induction false} RungFacts(b: Ledger, s: nat, group: seq<nat>, items: seq<nat>, first: nat, k: nat)
    requires s < |b.unpolled| && k <= |group| && Different(group)
    requires forall i :: 0 <= i < |group| ==> first <= group[i] < first + |items|
    ensures RungShape(b, Rung(b, s, group, items, first, k), s, group, items, first, k)
  {
    if k > 0 {
      RungFacts(b, s, group, items, first, k - 1);
      RungStep(b, Rung(b, s, group, items, first, k - 1), s, group, items, first, k);
    }
  }

  lemma RungStep(b: Ledger, b1: Ledger, s: nat, group: seq<nat>, items: seq<nat>, first: nat, k: nat)
    requires 0 < k <= |group| && Different(group)
    requires forall i :: 0 <= i < |group| ==> first <= group[i] < first + |items|
    requires RungShape(b, b1, s, group, items, first, k - 1)
    ensures RungShape(b, Enter(b1, s, group[k - 1], items[group[k - 1] - first], k == |group|), s, group, items,
              first, k)
  {
    hide Elements;
    assert group[..k] == group[..k - 1] + [group[k - 1]];
    ElementsNext(group, k - 1);
    NotBefore(group, k - 1);
  }

  lemma NotBefore(group: seq<nat>, k: nat)
    requires k < |group| && Different(group)
    ensures group[k] !in Elements(group[..k])
  {
  }

  lemma RungFresh(b: Ledger, s: nat, group: seq<nat>, items: seq<nat>, first: nat, k: nat)
    requires s < |b.unpolled| && k < |group| && Different(group)
    requires forall i :: 0 <= i < |group| ==> first <= group[i] < first + |items| && group[i] !in b.issued
    ensures group[k] !in Rung(b, s, group, items, first, k).issued
  {
    RungFacts(b, s, group, items, first, k);
    NotBefore(group, k);
  }

  lemma OnSlots(items: seq<nat>, s: nat, first: nat)
    ensures Different(On(items, s, first)) && |On(items, s, first)| <= |items|
    ensures forall i :: 0 <= i < |On(items, s, first)| ==>
              var x := On(items, s, first)[i]; first <= x < first + |items| && Server(items[x - first]) == s
    ensures forall i :: 0 <= i < |items| && Server(items[i]) == s ==> first + i in On(items, s, first)
  {
    OnToSlots(items, s, first, |items|);
  }

  /** The ledger after the doorbells to the first t servers. */
  ghost function Sent(b: Ledger, items: seq<nat>, first: nat, t: nat): (b': Ledger)
    requires t <= |b.unpolled|
    ensures |b'.unpolled| == |b.unpolled|
  {
    if t == 0 then b
    else
      OnSlots(items, t - 1, first);
      Rung(Sent(b, items, first, t - 1), t - 1, On(items, t - 1, first), items, first, |On(items, t - 1, first)|)
  }

  /** The slots of a batch that are read from the first t servers. */
  ghost predicate SlotBelow(items: seq<nat>, first: nat, t: nat, x: nat) {
    first <= x < first + |items| && Server(items[x - first]) < t
  }

  /** What a batch leaves in the ledger once the doorbells to the first t servers have rung. */
  ghost predicate SentShape(b: Ledger, b': Ledger, items: seq<nat>, first: nat, t: nat) {
    && |b'.unpolled| == |b.unpolled|
    && (forall s :: 0 <= s < |b.unpolled| ==> b'.unpolled[s] == b.unpolled[s] + if s < t then On(items, s, first)
        else [])
    && (forall x :: x in b'.issued <==> x in b.issued || SlotBelow(items, first, t, x))
    && (forall x :: x in b'.issued ==> b'.issued[x] == if x in b.issued then b.issued[x]
                                                       else if first <= x < first + |items| then items[x - first]
                                                           else 0)
    && (forall x :: x in b.issued ==> (x in b'.signaled <==> x in b.signaled))
    && (forall s :: 0 <= s < t ==> LastSignaled(On(items, s, first), b'.signaled))
  }

  lemma {:induction false} SentFacts(b: Ledger, items: seq<nat>, first: nat, t: nat)
    requires t <= |b.unpolled| && forall x :: x in b.issued ==> x < first
    ensures SentShape(b, Sent(b, items, first, t), items, first, t)
  {
    if t > 0 {
      hide On, Server, LastSignaled, SlotBelow;
      SentFacts(b, items, first, t - 1);
      OnSlots(items, t - 1, first);
      SentNext(b, Sent(b, items, first, t - 1), items, first, t - 1);
    }
  }

  lemma OnIff(items: seq<nat>, s: nat, first: nat, x: nat)
    ensures x in Elements(On(items, s, first))
            <==> first <= x < first + |items| && Server(items[x - first]) == s
  {
    hide Server;
    OnSlots(items, s, first);
    if first <= x < first + |items| && Server(items[x - first]) == s {
      assert first + (x - first) in On(items, s, first);
    }
  }

  lemma SentStep(b: Ledger, b1: Ledger, b': Ledger, items: seq<nat>, first: nat, s: nat)
    requires s < |b.unpolled| && (forall x :: x in b.issued ==> x < first) && SentShape(b, b1, items, first, s)
    requires forall i :: 0 <= i < |On(items, s, first)| ==> first <= On(items, s, first)[i] < first + |items|
    requires RungShape(b1, b', s, On(items, s, first), items, first, |On(items, s, first)|)
    ensures SentShape(b, b', items, first, s + 1)
  {
    hide On, Server, Elements;
    var group := On(items, s, first);
    assert group[..|group|] == group;
    forall x ensures x in b'.issued <==> x in b.issued || SlotBelow(items, first, s + 1, x) {
      OnIff(items, s, first, x);
    }
    forall x | x in b.issued ensures x !in Elements(group) {
      OnIff(items, s, first, x);
    }
    forall t | 0 <= t < s + 1 ensures LastSignaled(On(items, t, first), b'.signaled) {
      if t < s { OtherGroup(b1, b', items, first, s, t); }
    }
  }

  lemma SentNext(b: Ledger, b1: Ledger, items: seq<nat>, first: nat, s: nat)
    requires s < |b.unpolled| && (forall x :: x in b.issued ==> x < first) && SentShape(b, b1, items, first, s)
    requires forall i :: 0 <= i < |On(items, s, first)| ==> first <= On(items, s, first)[i] < first + |items|
    ensures SentShape(b, Rung(b1, s, On(items, s, first), items, first, |On(items, s, first)|), items, first, s + 1)
  {
    hide On, Server, LastSignaled, SlotBelow;
    OnSlots(items, s, first);
    var group := On(items, s, first);
    RungFacts(b1, s, group, items, first, |group|);
    SentStep(b, b1, Rung(b1, s, group, items, first, |group|), items, first, s);
  }

  lemma OtherGroup(b1: Ledger, b': Ledger, items: seq<nat>, first: nat, s: nat, t: nat)
    requires t < s && LastSignaled(On(items, t, first), b1.signaled)
    requires forall x :: x !in Elements(On(items, s, first)) ==> (x in b'.signaled <==> x in b1.signaled)
    ensures LastSignaled(On(items, t, first), b'.signaled)
  {
    OnSlots(items, t, first);
    var other := On(items, t, first);
    forall i | 0 <= i < |other| ensures other[i] in b'.signaled <==> i == |other| - 1 {
      OnIff(items, s, first, other[i]);
    }
  }

  /** The arguments of a batched read: servers, buffer offsets, memory offsets. */
  ghost predicate BatchArgs(sp: Space, items: seq<nat>, first: nat, nid: seq<nat>, local: seq<nat>, off: seq<nat>) {
    && |nid| == |local| == |off| == |items|
    && forall i :: 0 <= i < |items| ==> nid[i] == Server(items[i]) && local[i] == Offset(sp.size, first + i)
                                        && off[i] == Offset(sp.size, Local(items[i])) && sp.Has(items[i])
  }

  /** The slots from first on are unused and fit in the buffer. */
  ghost predicate FreeSlots(sp: Space, n: Net, first: nat, k: nat) {
    && (forall x :: x in n.issued ==> x < first)
    && Offset(sp.size, first + k) <= |n.buf|
  }

  lemma SentFresh(b: Ledger, items: seq<nat>, first: nat, t: nat, i: nat)
    requires t < |b.unpolled| && (forall x :: x in b.issued ==> x < first) && i < |On(items, t, first)|
    ensures On(items, t, first)[i] !in Sent(b, items, first, t).issued
  {
    SentFacts(b, items, first, t);
    OnSlots(items, t, first);
  }

  lemma SlotFits(sp: Space, n: Net, first: nat, k: nat, x: nat)
    requires FreeSlots(sp, n, first, k) && first <= x < first + k
    ensures Offset(sp.size, x) + sp.size <= |n.buf|
  {
    if x + 1 < first + k { OffsetGap(sp.size, x + 1, first + k); }
    OffsetGap(sp.size, x, x + 1);
  }

  /** The ledger after the first k reads of a batch were posted one by one, all signalled. */
  ghost function Posted(b: Ledger, items: seq<nat>, first: nat, k: nat): (b': Ledger)
    requires k <= |items| && forall i :: 0 <= i < |items| ==> Server(items[i]) < |b.unpolled|
    ensures |b'.unpolled| == |b.unpolled|
  {
    if k == 0 then b
    else Enter(Posted(b, items, first, k - 1), Server(items[k - 1]), first + k - 1, items[k - 1], true)
  }

  lemma {:induction false} PostedFacts(b: Ledger, items: seq<nat>, first: nat, k: nat)
    requires k <= |items| && (forall i :: 0 <= i < |items| ==> Server(items[i]) < |b.unpolled|)
    requires forall x :: x in b.issued ==> x < first
    ensures var b' := Posted(b, items, first, k);
            && (forall s :: 0 <= s < |b.unpolled| ==> b'.unpolled[s] == b.unpolled[s] + OnTo(items, s, first, k))
            && (forall x :: x in b'.issued <==> x in b.issued || first <= x < first + k)
            && (forall x :: x in b'.issued ==>
                  b'.issued[x] == if x in b.issued then b.issued[x]
                                  else if first <= x < first + |items| then items[x - first] else 0)
            && (forall x :: first <= x < first + k ==> x in b'.signaled)
  {
    hide Server;
    if k > 0 {
      PostedFacts(b, items, first, k - 1);
      assert Posted(b, items, first, k).signaled == Posted(b, items, first, k - 1).signaled + {first + k - 1};
    }
  }

  // ----- the device ---------------------------------------------------------------------------

  class Device {
    const sp: Space
    var sq: seq<seq<WorkRequest>>
    var cq: seq<nat>
    var buf: seq<byte>
    ghost var issued: map<nat, nat>
    ghost var signaled: set<nat>
    ghost var unpolled: seq<seq<nat>>
    ghost var peak: nat               // most reads that were outstanding on one queue pair

    ghost function State(): Net
      reads this
    {
      Net(sq, cq, buf, issued, signaled, unpolled)
    }

    ghost predicate Valid()
      reads this
    {
      NetOk(sp, State())
    }

    ghost predicate HasLanded(slot: nat)
      reads this
    {
      Landed(State(), slot)
    }

    constructor (sp: Space, bufferSize: nat)
      ensures Valid() && Idle(State()) && issued == map[] && this.sp == sp && |buf| == bufferSize && peak == 0
    {
      this.sp := sp;
      sq := seq(|sp.mem|, _ => []);
      cq := seq(|sp.mem|, _ => 0);
      buf := seq(bufferSize, _ => 0);
      issued, signaled, unpolled, peak := map[], {}, seq(|sp.mem|, _ => []), 0;
      new;
      NothingPosted(sp, State());
    }

    /** Forgets the reads of the previous query; the buffer may be reused. */
    ghost method Forget()
      requires Valid() && Idle(State())
      modifies `issued, `signaled, `peak
      ensures Valid() && Idle(State()) && issued == map[] && peak == 0
    {
      hide NetOk, Idle;
      ForgetOk(sp, State());
      issued, signaled, peak := map[], {}, 0;
    }

    /** The network completes the oldest read of queue pair s. */
    method CompleteHead(s: nat)
      requires Valid() && s < |sq| && sq[s] != []
      modifies `sq, `cq, `buf
      ensures Valid() && State() == Complete(sp, old(State()), s)
      ensures forall slot :: old(HasLanded(slot)) ==> HasLanded(slot)
    {
      hide NetOk, Landed, Splice, Offset;
      ghost var n := State();
      SizesOk(sp, n);
      CompleteOk(sp, n, s);
      HeadRead(sp, n, s);
      var wr := sq[s][0];
      buf := Splice(buf, wr.local, sp.mem[s][wr.remote..wr.remote + sp.size]);
      cq := cq[s := if wr.signaled then cq[s] + 1 else cq[s]];
      sq := sq[s := sq[s][1..]];
      assert State() == Complete(sp, n, s);
    }

    /** The network does as much as it likes: on each queue pair it completes any number of reads. */
    method Progress()
      requires Valid()
      modifies `sq, `cq, `buf
      ensures Valid() && |buf| == old(|buf|) && |sq| == old(|sq|)
      ensures forall s :: 0 <= s < |sq| ==> |sq[s]| <= old(|sq[s]|)
      ensures forall slot :: old(HasLanded(slot)) ==> HasLanded(slot)
    {
      hide NetOk, Landed, Splice;
      SizesOk(sp, State());
      for s := 0 to |sp.mem|
        invariant Valid() && |buf| == old(|buf|) && |sq| == old(|sq|) == |sp.mem|
        invariant forall s :: 0 <= s < |sq| ==> |sq[s]| <= old(|sq[s]|)
        invariant forall slot :: old(HasLanded(slot)) ==> HasLanded(slot)
      {
        var k: nat :| k <= |sq[s]|;
        for j := 0 to k
          invariant Valid() && |buf| == old(|buf|) && |sq| == old(|sq|) == |sp.mem| && k - j <= |sq[s]|
          invariant forall s :: 0 <= s < |sq| ==> |sq[s]| <= old(|sq[s]|)
          invariant forall slot :: old(HasLanded(slot)) ==> HasLanded(slot)
        {
          CompleteHead(s);
        }
      }
    }

    /** Posts one read on queue pair s, into a buffer slot that no read of this query used. */
    method PostSend(s: nat, local: nat, remote: nat, signal: bool, ghost slot: nat, ghost item: nat)
      requires Valid() && s < |sq| && s < |unpolled| && slot !in issued
      requires Server(item) == s && sp.Has(item) && Offset(sp.size, slot) + sp.size <= |buf|
      requires local == Offset(sp.size, slot) && remote == Offset(sp.size, Local(item))
      modifies `sq, `issued, `signaled, `unpolled, `peak
      ensures Valid() && State() == Post(sp, old(State()), s, slot, item, signal)
      ensures peak == Larger(old(peak), old(|unpolled[s]|) + 1)
      ensures forall x :: HasLanded(x) <==> old(HasLanded(x))
    {
      hide NetOk, Landed, Offset;
      ghost var n := State();
      SizesOk(sp, n);
      PostOk(sp, n, s, slot, item, signal);
      sq := sq[s := sq[s] + [WorkRequest(local, remote, signal)]];
      issued := issued[slot := item];
      signaled := if signal then signaled + {slot} else signaled - {slot};
      unpolled := unpolled[s := unpolled[s] + [slot]];
      peak := Larger(peak, |unpolled[s]|);
      assert State() == Post(sp, n, s, slot, item, signal);
    }

    /** Spins until queue pair s has a completion, and takes it. That of a group posted with only its
        last read signalled retires the group, all of whose reads have landed. */
    method PollCompletion(s: nat, ghost g: nat)
      requires Valid() && s < |sq| && s < |unpolled|
      requires 0 < g <= |unpolled[s]| && LastSignaled(unpolled[s][..g], signaled)
      modifies `sq, `cq, `buf, `unpolled
      ensures Valid() && |buf| == old(|buf|) && |sq| == old(|sq|)
      ensures unpolled == old(unpolled)[s := old(unpolled[s])[g..]]
      ensures forall slot :: old(HasLanded(slot)) ==> HasLanded(slot)
      ensures forall i :: 0 <= i < g ==> HasLanded(old(unpolled[s])[i])
    {
      hide NetOk, Landed, LastSignaled;
      SizesOk(sp, State());
      while cq[s] == 0
        invariant Valid() && |buf| == old(|buf|) && |sq| == old(|sq|) == |cq| == |unpolled| && unpolled == old(unpolled)
        invariant forall slot :: old(HasLanded(slot)) ==> HasLanded(slot)
        decreases if cq[s] == 0 then |sq[s]| + 1 else 0
      {
        Progress();
        SizesOk(sp, State());
        if cq[s] == 0 {
          QueuePairOk(sp, State(), s);
          OwesRead(sp, s, sq[s], cq[s], unpolled[s], issued, signaled, g);
          CompleteHead(s);
        }
      }
      ghost var n := State();
      PollOk(sp, n, s, g);
      cq := cq[s := cq[s] - 1];
      unpolled := unpolled[s := unpolled[s][g..]];
      assert State() == Poll(n, s, g);
    }

    ghost function Book(): Ledger
      reads this
    {
      Ledger(issued, signaled, unpolled)
    }

    /** Posts, with only the last one signalled, the reads of a batch that go to server s. */
    method RcPostDoorbell(s: nat, reqs: seq<(nat, nat)>, ghost items: seq<nat>, ghost first: nat)
      requires Valid() && s < |sq| && s < |unpolled| && |reqs| <= MAX_DOORBELL_SIZE
      requires forall i :: 0 <= i < |items| ==> sp.Has(items[i])
      requires |reqs| == |On(items, s, first)| && forall i :: 0 <= i < |reqs| ==>
                 var x := On(items, s, first)[i];
                 first <= x < first + |items| && x !in issued && Offset(sp.size, x) + sp.size <= |buf|
                 && reqs[i] == (Offset(sp.size, x), Offset(sp.size, Local(items[x - first])))
      modifies `sq, `cq, `buf, `issued, `signaled, `unpolled, `peak
      ensures Valid() && |buf| == old(|buf|) && |sq| == old(|sq|)
      ensures Book() == Rung(old(Book()), s, On(items, s, first), items, first, |reqs|)
      ensures peak <= Larger(old(peak), old(|unpolled[s]|) + |reqs|)
      ensures forall slot :: old(HasLanded(slot)) ==> HasLanded(slot)
    {
      hide NetOk, Landed, Offset, OnTo, Different, Server, Local, Space.Has;
      OnSlots(items, s, first);
      ghost var group, b := On(items, s, first), Book();
      for i := 0 to |reqs|
        invariant Valid() && |buf| == old(|buf|) && |sq| == old(|sq|)
        invariant Book() == Rung(b, s, group, items, first, i) && |unpolled| == old(|unpolled|)
        invariant |unpolled[s]| == old(|unpolled[s]|) + i && peak <= Larger(old(peak), old(|unpolled[s]|) + i)
        invariant forall slot :: old(HasLanded(slot)) ==> HasLanded(slot)
      {
        Progress();
        SizesOk(sp, State());
        RungFresh(b, s, group, items, first, i);
        PostSend(s, reqs[i].0, reqs[i].1, i == |reqs| - 1, group[i], items[group[i] - first]);
      }
    }

    /** Posts a batch of reads asynchronously: one doorbell per server, only its last read signalled.
        polls tells how many reads each server got. ok is false where the source's assertion fails,
        just if some server got more reads than a doorbell takes. */
    method RdmaReadBatchDoorbellUnsignalAsyncSend(nid: seq<nat>, local: seq<nat>, off: seq<nat>,
                                                  ghost items: seq<nat>, ghost first: nat, ghost limit: nat)
      returns (ok: bool, polls: seq<nat>)
      requires Valid() && BatchArgs(sp, items, first, nid, local, off)
      requires FreeSlots(sp, State(), first, |items|)
      requires peak <= limit && forall s :: 0 <= s < |unpolled| ==> |unpolled[s]| + MAX_DOORBELL_SIZE <= limit
      modifies `sq, `cq, `buf, `issued, `signaled, `unpolled, `peak
      ensures |buf| == old(|buf|) && |sq| == old(|sq|) == |old(unpolled)|
      ensures ok <==> DoorbellsFit(items, first, |sq|)
      ensures peak <= limit && (ok ==> Valid() && Book() == Sent(old(Book()), items, first, |sq|))
      ensures ok ==> |polls| == |sq| && forall s :: 0 <= s < |sq| ==> polls[s] == |On(items, s, first)|
      ensures ok ==> forall slot :: old(HasLanded(slot)) ==> HasLanded(slot)
    {
      hide NetOk, Landed, Offset, OnTo, Server, Local, SentShape;
      SizesOk(sp, State());
      ghost var b := Book();
      polls := seq(|sq|, _ => 0);
      for s := 0 to |sp.mem|
        invariant Valid() && |buf| == old(|buf|) && |sq| == old(|sq|) == |sp.mem| == |polls|
        invariant Book() == Sent(b, items, first, s) && peak <= limit
        invariant forall t :: 0 <= t < s ==> polls[t] == |On(items, t, first)| <= MAX_DOORBELL_SIZE
        invariant forall slot :: old(HasLanded(slot)) ==> HasLanded(slot)
      {
        var reqs;
        ok, reqs := CollectRequests(s, nid, local, off, items, first);
        if !ok {
          return false, polls;
        }
        OnSlots(items, s, first);
        SentBefore(b, items, first, s);
        forall i | 0 <= i < |reqs|
          ensures On(items, s, first)[i] !in issued && Offset(sp.size, On(items, s, first)[i]) + sp.size <= |buf|
        {
          SentFresh(b, items, first, s, i);
          SlotFits(sp, old(State()), first, |items|, On(items, s, first)[i]);
        }
        polls := polls[s := |reqs|];
        if polls[s] > 0 {
          RcPostDoorbell(s, reqs, items, first);
        }
      }
      return true, polls;
    }

    /** The requests of a batch that go to server s; ok is false just if they are too many. */
    method CollectRequests(s: nat, nid: seq<nat>, local: seq<nat>, off: seq<nat>, ghost items: seq<nat>,
                           ghost first: nat)
      returns (ok: bool, reqs: seq<(nat, nat)>)
      requires BatchArgs(sp, items, first, nid, local, off)
      ensures ok <==> |On(items, s, first)| <= 128
      ensures ok ==> |reqs| == |On(items, s, first)|
      ensures ok ==> forall i :: 0 <= i < |reqs| ==>
                var x := On(items, s, first)[i];
                first <= x < first + |items|
                    && reqs[i] == (Offset(sp.size, x), Offset(sp.size, Local(items[x - first])))
    {
      reqs := [];
      CountNone(items, first);
      for i := 0 to |nid|
        invariant |reqs| == |OnTo(items, s, first, i)| <= MAX_DOORBELL_SIZE
        invariant forall j :: 0 <= j < |reqs| ==>
                    var x := OnTo(items, s, first, i)[j];
                    first <= x < first + |items|
                        && reqs[j] == (Offset(sp.size, x), Offset(sp.size, Local(items[x - first])))
      {
        hide Offset, Local, OnTo, Server, Space.Has;
        OnToNext(items, s, first, i);
        if nid[i] == s {
          if |reqs| == MAX_DOORBELL_SIZE {
            OnToGrows(items, s, first, i + 1, |items|);
            return false, reqs;
          }
          reqs := reqs + [(local[i], off[i])];
        }
      }
      return true, reqs;
    }

    /** Waits for an asynchronous batch: takes one completion from each server that got reads. The
        batch is the oldest whose completions were not polled; afterwards all its reads have landed. */
    method RdmaReadBatchUnsignalAsyncWait(polls: seq<nat>, ghost items: seq<nat>, ghost first: nat)
      requires Valid() && |polls| == |sq| && forall i :: 0 <= i < |items| ==> Server(items[i]) < |sq|
      requires |unpolled| == |sq|
      requires forall s :: 0 <= s < |sq| ==> polls[s] == |On(items, s, first)| && On(items, s, first) <= unpolled[s]
                                             && LastSignaled(On(items, s, first), signaled)
      modifies `sq, `cq, `buf, `unpolled
      ensures Valid() && |buf| == old(|buf|) && |sq| == old(|sq|) == |unpolled|
      ensures forall s :: 0 <= s < |sq| ==> unpolled[s] == old(unpolled[s])[|On(items, s, first)|..]
      ensures forall slot :: old(HasLanded(slot)) ==> HasLanded(slot)
      ensures forall x :: first <= x < first + |items| ==> HasLanded(x)
    {
      hide NetOk, Landed, OnTo, Server, LastSignaled;
      for s := 0 to |polls|
        invariant Valid() && |buf| == old(|buf|) && |sq| == old(|sq|) == |unpolled|
        invariant forall t :: 0 <= t < s ==> unpolled[t] == old(unpolled[t])[|On(items, t, first)|..]
        invariant forall t :: s <= t < |sq| ==> unpolled[t] == old(unpolled[t])
        invariant forall slot :: old(HasLanded(slot)) ==> HasLanded(slot)
        invariant forall x :: first <= x < first + |items| && Server(items[x - first]) < s ==> HasLanded(x)
      {
        ghost var group := On(items, s, first);
        OnSlots(items, s, first);
        if polls[s] > 0 {
          assert unpolled[s][..|group|] == group;
          PollCompletion(s, |group|);
        }
        forall x | first <= x < first + |items| && Server(items[x - first]) == s ensures HasLanded(x) {
          assert first + (x - first) in group;
        }
      }
    }

    /** Reads a batch synchronously on an idle device: every read is signalled, and every completion is
        waited for. The device is idle again and the reads have landed. */
    method RdmaReadBatch(nid: seq<nat>, local: seq<nat>, off: seq<nat>, ghost items: seq<nat>, ghost first: nat)
      requires Valid() && Idle(State()) && BatchArgs(sp, items, first, nid, local, off)
      requires FreeSlots(sp, State(), first, |items|)
      modifies `sq, `cq, `buf, `issued, `signaled, `unpolled, `peak
      ensures Valid() && Idle(State()) && |buf| == old(|buf|) && |sq| == old(|sq|) && peak <= Larger(old(peak), |items|)
      ensures forall x :: x in issued <==> x in old(issued) || first <= x < first + |items|
      ensures forall x :: x in issued ==> issued[x] == if x in old(issued) then old(issued[x])
                                                       else if first <= x < first + |items| then items[x - first] else 0
      ensures forall slot :: old(HasLanded(slot)) ==> HasLanded(slot)
      ensures forall x :: first <= x < first + |items| ==> HasLanded(x)
    {
      hide NetOk, Landed, OnTo, Server, Local, Offset, Posted;
      SizesOk(sp, State());
      ghost var b := Book();
      var count := PostAll(nid, local, off, items, first);
      PostedFacts(b, items, first, |items|);
      DrainAll(count, items, first);
    }

    /** Posts every read of a batch, signalled, and counts them by server. */
    method PostAll(nid: seq<nat>, local: seq<nat>, off: seq<nat>, ghost items: seq<nat>,
                   ghost first: nat) returns (count: seq<nat>)
      requires Valid() && Idle(State()) && BatchArgs(sp, items, first, nid, local, off)
      requires FreeSlots(sp, State(), first, |items|)
      modifies `sq, `cq, `buf, `issued, `signaled, `unpolled, `peak
      ensures Valid() && |buf| == old(|buf|) && |sq| == old(|sq|) == |count| && peak <= Larger(old(peak), |items|)
      ensures |old(unpolled)| == |sq| && forall i :: 0 <= i < |items| ==> Server(items[i]) < |sq|
      ensures Book() == Posted(old(Book()), items, first, |items|)
      ensures forall s :: 0 <= s < |sq| ==> count[s] == |On(items, s, first)|
      ensures forall slot :: old(HasLanded(slot)) ==> HasLanded(slot)
    {
      hide NetOk, Landed, OnTo, Server, Local, Offset;
      SizesOk(sp, State());
      ghost var b := Book();
      count := seq(|sq|, _ => 0);
      CountNone(items, first);
      for i := 0 to |nid|
        invariant Valid() && |buf| == old(|buf|) && |sq| == old(|sq|) == |sp.mem| == |count|
        invariant Book() == Posted(b, items, first, i) && peak <= Larger(old(peak), i)
        invariant forall s :: 0 <= s < |sq| ==> count[s] == |OnTo(items, s, first, i)|
        invariant forall slot :: old(HasLanded(slot)) ==> HasLanded(slot)
      {
        Progress();
        SizesOk(sp, State());
        PostedFresh(b, items, first, i);
        SlotFits(sp, old(State()), first, |items|, first + i);
        OutstandingBound(b, items, first, i, nid[i]);
        PostSend(nid[i], local[i], off[i], true, first + i, items[i]);
        CountNext(items, first, i);
        count := count[nid[i] := count[nid[i]] + 1];
      }
    }

    /** Takes as many completions from each server as were asked for. */
    method DrainAll(count: seq<nat>, ghost items: seq<nat>, ghost first: nat)
      requires Valid() && |count| == |sq| == |unpolled| && forall i :: 0 <= i < |items| ==> Server(items[i]) < |sq|
      requires forall s :: 0 <= s < |sq| ==> count[s] == |On(items, s, first)| && unpolled[s] == On(items, s, first)
      requires forall x :: first <= x < first + |items| ==> x in signaled
      modifies `sq, `cq, `buf, `unpolled
      ensures Valid() && Idle(State()) && |buf| == old(|buf|) && |sq| == old(|sq|)
      ensures forall slot :: old(HasLanded(slot)) ==> HasLanded(slot)
      ensures forall x :: first <= x < first + |items| ==> HasLanded(x)
    {
      hide NetOk, Landed, OnTo, Server;
      for s := 0 to |count|
        invariant Valid() && |buf| == old(|buf|) && |sq| == old(|sq|) == |unpolled|
        invariant forall t :: 0 <= t < s ==> unpolled[t] == []
        invariant forall t :: s <= t < |sq| ==> unpolled[t] == old(unpolled[t])
        invariant forall slot :: old(HasLanded(slot)) ==> HasLanded(slot)
        invariant forall x :: first <= x < first + |items| && Server(items[x - first]) < s ==> HasLanded(x)
      {
        ghost var group := On(items, s, first);
        OnSlots(items, s, first);
        PollCompletions(s, count[s]);
        forall x | first <= x < first + |items| && Server(items[x - first]) == s ensures HasLanded(x) {
          assert first + (x - first) in group;
        }
      }
      AllPolledIsIdle(sp, State());
    }

    /** Takes k completions from queue pair s, whose first k unpolled reads were all signalled. */
    method PollCompletions(s: nat, k: nat)
      requires Valid() && s < |sq| == |unpolled| && k <= |unpolled[s]| && forall i :: 0 <= i < k ==>
                 unpolled[s][i] in signaled
      modifies `sq, `cq, `buf, `unpolled
      ensures Valid() && |buf| == old(|buf|) && |sq| == old(|sq|) == |unpolled|
      ensures unpolled == old(unpolled)[s := old(unpolled[s])[k..]]
      ensures forall slot :: old(HasLanded(slot)) ==> HasLanded(slot)
      ensures forall i :: 0 <= i < k ==> HasLanded(old(unpolled[s])[i])
    {
      hide NetOk, Landed;
      ghost var u := unpolled[s];
      for i := 0 to k
        invariant Valid() && |buf| == old(|buf|) && |sq| == old(|sq|) == |unpolled|
        invariant unpolled == old(unpolled)[s := u[i..]]
        invariant forall slot :: old(HasLanded(slot)) ==> HasLanded(slot)
        invariant forall j :: 0 <= j < i ==> HasLanded(u[j])
      {
        assert u[i..][0] == u[i];
        PollCompletion(s, 1);
        assert u[i..][1..] == u[i + 1..];
      }
    }
  }

  lemma NothingPosted(sp: Space, n: Net)
    requires |n.sq| == |n.cq| == |n.unpolled| == |sp.mem| && n.issued == map[] && n.signaled == {}
    requires forall s :: 0 <= s < |n.sq| ==> n.sq[s] == [] && n.cq[s] == 0 && n.unpolled[s] == []
    ensures NetOk(sp, n) && Idle(n)
  {
    hide QueuePair;
    forall s | 0 <= s < |n.sq| ensures QueuePair(sp, s, n.sq[s], n.cq[s], n.unpolled[s], n.issued, n.signaled) {
      EmptyPair(sp, s);
    }
  }

  lemma EmptyPair(sp: Space, s: nat)
    ensures QueuePair(sp, s, [], 0, [], map[], {})
  {
  }

  lemma PostedFresh(b: Ledger, items: seq<nat>, first: nat, k: nat)
    requires k <= |items| && (forall i :: 0 <= i < |items| ==> Server(items[i]) < |b.unpolled|)
    requires forall x :: x in b.issued ==> x < first
    ensures first + k !in Posted(b, items, first, k).issued
  {
    hide Posted, OnTo, Server;
    PostedFacts(b, items, first, k);
  }

  lemma OutstandingBound(b: Ledger, items: seq<nat>, first: nat, k: nat, s: nat)
    requires k <= |items| && (forall i :: 0 <= i < |items| ==> Server(items[i]) < |b.unpolled|) && s < |b.unpolled|
    requires (forall x :: x in b.issued ==> x < first) && b.unpolled[s] == []
    ensures |Posted(b, items, first, k).unpolled[s]| <= k
  {
    hide Posted, OnTo, Server;
    PostedFacts(b, items, first, k);
    OnToSlots(items, s, first, k);
  }

  lemma OnToNext(items: seq<nat>, s: nat, first: nat, k: nat)
    requires k < |items|
    ensures OnTo(items, s, first, k + 1) == OnTo(items, s, first, k) + if Server(items[k]) == s then [first + k] else []
  {
  }

  function Larger(a: nat, b: nat): nat {
    if a < b then b else a
  }

  /** No server gets more reads of the batch than a doorbell takes. */
  ghost predicate DoorbellsFit(items: seq<nat>, first: nat, n: nat) {
    forall s :: 0 <= s < n ==> |On(items, s, first)| <= 128
  }

  lemma {:induction false} OnToGrows(items: seq<nat>, s: nat, first: nat, k: nat, l: nat)
    requires k <= l <= |items|
    ensures |OnTo(items, s, first, k)| <= |OnTo(items, s, first, l)|
  {
    if k < l { OnToGrows(items, s, first, k, l - 1); }
  }

  /** The doorbells to the servers before s post nothing on s. */
  lemma SentBefore(b: Ledger, items: seq<nat>, first: nat, s: nat)
    requires s < |b.unpolled| && forall x :: x in b.issued ==> x < first
    ensures Sent(b, items, first, s).unpolled[s] == b.unpolled[s]
  {
    hide Sent, OnTo, LastSignaled;
    SentFacts(b, items, first, s);
  }

  lemma CountNone(items: seq<nat>, first: nat)
    ensures forall s :: OnTo(items, s, first, 0) == []
  {
  }

  lemma CountNext(items: seq<nat>, first: nat, k: nat)
    requires k < |items|
    ensures forall s :: |OnTo(items, s, first, k + 1)| == |OnTo(items, s, first, k)| + if Server(items[k]) == s then 1
              else 0
  {
  }

  lemma AllPolledIsIdle(sp: Space, n: Net)
    requires NetOk(sp, n) && forall s :: 0 <= s < |n.unpolled| ==> n.unpolled[s] == []
    ensures Idle(n)
  {
    forall s | 0 <= s < |n.sq| ensures n.sq[s] == [] && n.cq[s] == 0 {
      QueuePairOk(sp, n, s);
    }
  }

  lemma QueuePairOk(sp: Space, n: Net, s: nat)
    requires NetOk(sp, n) && s < |n.sq|
    ensures QueuePair(sp, s, n.sq[s], n.cq[s], n.unpolled[s], n.issued, n.signaled)
  {
  }

  lemma ForgetOk(sp: Space, n: Net)
    requires NetOk(sp, n) && Idle(n)
    ensures NetOk(sp, n.(issued := map[], signaled := {})) && Idle(n.(issued := map[], signaled := {}))
  {
    forall s | 0 <= s < |n.sq| ensures QueuePair(sp, s, n.sq[s], n.cq[s], n.unpolled[s], map[], {}) {
      assert n.sq[s] == [] && n.unpolled[s] == [];
    }
  }

  lemma SizesOk(sp: Space, n: Net)
    requires NetOk(sp, n)
    ensures |n.sq| == |n.cq| == |n.unpolled| == |sp.mem|
  {
  }
}
