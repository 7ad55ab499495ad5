/** The bounded candidate queue of the graph searches: sorted by (distance, item), with an expanded
    flag per entry and a cursor on the first unexpanded entry.

    Items are naturals with their usual order: vertex ids in the single-machine search, and packed
    (server, local id) pairs elsewhere, where packing turns the lexicographic order of pairs into the
    order of numbers. Distances are reals. */
module NeighborQueue {
  import opened Common

  datatype Neighbor = Neighbor(item: nat, distance: real, expanded: bool)

  predicate Less(a: Neighbor, b: Neighbor) {
    a.distance < b.distance || (a.distance == b.distance && a.item < b.item)
  }

  ghost predicate Sorted(c: seq<Neighbor>) {
    forall i, j :: 0 <= i < j < |c| ==> Less(c[i], c[j])
  }

  ghost predicate Has(c: seq<Neighbor>, x: nat) {
    exists i :: 0 <= i < |c| && c[i].item == x
  }

  ghost function ItemsTo(c: seq<Neighbor>, k: nat): set<nat>
    requires k <= |c|
  {
    set i | 0 <= i < k :: c[i].item
  }

  ghost function Items(c: seq<Neighbor>): set<nat> {
    ItemsTo(c, |c|)
  }

  /** The cursor is on the first unexpanded entry, or past the end. */
  ghost predicate CursorAt(c: seq<Neighbor>, cur: nat) {
    cur <= |c| && (forall i :: 0 <= i < cur ==> c[i].expanded) && (cur < |c| ==> !c[cur].expanded)
  }

  ghost function Take(c: seq<Neighbor>, k: nat): seq<Neighbor> {
    if |c| <= k then c else c[..k]
  }

  /** What an insertion at index lo makes of the contents. */
  ghost function InsertedAt(c: seq<Neighbor>, lo: nat, nbr: Neighbor, capacity: nat): seq<Neighbor>
    requires lo <= |c|
  {
    Take(c[..lo] + [nbr.(expanded := false)] + c[lo..], capacity)
  }

  /** lo splits c into what is before and what is after nbr. */
  ghost predicate Splits(c: seq<Neighbor>, lo: nat, nbr: Neighbor) {
    && lo <= |c|
    && (forall i :: 0 <= i < lo ==> Less(c[i], nbr))
    && (forall i :: lo <= i < |c| ==> Less(nbr, c[i]))
  }

  // ----- the queue against everything that was ever offered ------------------------------------

  /** c is sorted and consists of the (at most capacity) least of the offered items: whatever was
      offered and is not in c is beyond the last entry of a full c. */
  ghost predicate IsTop(c: seq<Neighbor>, offered: map<nat, real>, capacity: nat) {
    && Sorted(c) && |c| <= capacity
    && (forall i :: 0 <= i < |c| ==> c[i].item in offered && c[i].distance == offered[c[i].item])
    && (forall x :: x in offered ==> x in Items(c) || (|c| == capacity && Beyond(c, x, offered[x])))
  }

  ghost predicate Beyond(c: seq<Neighbor>, x: nat, d: real) {
    forall i :: 0 <= i < |c| ==> Less(c[i], Neighbor(x, d, false))
  }

  ghost predicate FlagsAre(c: seq<Neighbor>, popped: set<nat>) {
    forall i :: 0 <= i < |c| ==> (c[i].expanded <==> c[i].item in popped)
  }

  lemma InsertedEntries(c: seq<Neighbor>, lo: nat, nbr: Neighbor, capacity: nat)
    requires lo <= |c| <= capacity && lo < capacity
    ensures var c' := InsertedAt(c, lo, nbr, capacity);
            && |c'| == (if |c| < capacity then |c| + 1 else |c|)
            && (forall i :: 0 <= i < lo ==> c'[i] == c[i])
            && c'[lo] == nbr.(expanded := false)
            && (forall i :: lo < i < |c'| ==> c'[i] == c[i - 1])
  {
  }

  lemma InsertedSorted(c: seq<Neighbor>, lo: nat, nbr: Neighbor, capacity: nat)
    requires Sorted(c) && Splits(c, lo, nbr) && |c| <= capacity && lo < capacity
    ensures Sorted(InsertedAt(c, lo, nbr, capacity))
  {
    InsertedEntries(c, lo, nbr, capacity);
  }

  /** The insertion keeps the cursor on the first unexpanded entry. */
  lemma InsertedCursor(c: seq<Neighbor>, lo: nat, nbr: Neighbor, capacity: nat, cur: nat)
    requires lo <= |c| <= capacity && lo < capacity && CursorAt(c, cur)
    ensures CursorAt(InsertedAt(c, lo, nbr, capacity), if lo < cur then lo else cur)
  {
    InsertedEntries(c, lo, nbr, capacity);
  }

  lemma TakenIsNew(c: seq<Neighbor>, lo: nat, nbr: Neighbor, offered: map<nat, real>, capacity: nat)
    requires IsTop(c, offered, capacity) && Splits(c, lo, nbr) && (|c| == capacity ==> lo < |c|)
    requires nbr.item in offered ==> offered[nbr.item] == nbr.distance
    ensures nbr.item !in offered
  {
    assert nbr.item !in Items(c);
    if |c| == capacity { assert Less(nbr, c[lo]); }
  }

  /** An offer that the queue took. */
  lemma InsertKeepsTop(c: seq<Neighbor>, lo: nat, nbr: Neighbor, offered: map<nat, real>, capacity: nat)
    requires IsTop(c, offered, capacity) && nbr.item !in offered
    requires Splits(c, lo, nbr) && lo < capacity && (|c| == capacity ==> lo < |c|)
    ensures IsTop(InsertedAt(c, lo, nbr, capacity), offered[nbr.item := nbr.distance], capacity)
  {
    var c' := InsertedAt(c, lo, nbr, capacity);
    InsertedEntries(c, lo, nbr, capacity);
    InsertedSorted(c, lo, nbr, capacity);
    forall x | x in offered ensures x in Items(c') || (|c'| == capacity && Beyond(c', x, offered[x])) {
      LeftOut(c, lo, nbr, offered, capacity, x);
    }
    assert c'[lo].item in Items(c');
  }

  /** What the insertion pushes out, and what was out before, is beyond the new last entry. */
  lemma LeftOut(c: seq<Neighbor>, lo: nat, nbr: Neighbor, offered: map<nat, real>, capacity: nat, x: nat)
    requires IsTop(c, offered, capacity) && x in offered
    requires Splits(c, lo, nbr) && lo < capacity && (|c| == capacity ==> lo < |c|)
    ensures var c' := InsertedAt(c, lo, nbr, capacity);
            x in Items(c') || (|c'| == capacity && Beyond(c', x, offered[x]))
  {
    var c' := InsertedAt(c, lo, nbr, capacity);
    InsertedEntries(c, lo, nbr, capacity);
    if x in Items(c) {
      KeptOrLast(c, lo, nbr, capacity, x);
      if x !in Items(c') {
        forall i | 0 <= i < |c'| ensures Less(c'[i], Neighbor(x, offered[x], false)) {
          assert Less(nbr, c[|c| - 1]);
        }
      }
    } else {
      forall i | 0 <= i < |c'| ensures Less(c'[i], Neighbor(x, offered[x], false)) {
        assert Less(nbr, c[lo]) && Less(c[lo], Neighbor(x, offered[x], false));
      }
    }
  }

  lemma InsertKeepsFlags(c: seq<Neighbor>, lo: nat, nbr: Neighbor, popped: set<nat>, capacity: nat)
    requires FlagsAre(c, popped) && nbr.item !in popped && lo <= |c| <= capacity && lo < capacity
    ensures FlagsAre(InsertedAt(c, lo, nbr, capacity), popped)
  {
    InsertedEntries(c, lo, nbr, capacity);
  }

  lemma KeptOrLast(c: seq<Neighbor>, lo: nat, nbr: Neighbor, capacity: nat, x: nat)
    requires lo <= |c| <= capacity && lo < capacity && x in Items(c)
    ensures x in Items(InsertedAt(c, lo, nbr, capacity)) || (|c| == capacity && c[|c| - 1].item == x)
  {
    var c' := InsertedAt(c, lo, nbr, capacity);
    InsertedEntries(c, lo, nbr, capacity);
    var i :| 0 <= i < |c| && c[i].item == x;
    if i < lo {
      assert c'[i].item in Items(c');
    } else if i + 1 < |c'| {
      assert c'[i + 1].item in Items(c');
    }
  }

  /** An offer that the queue refused: it was full and the offer beyond its end, or had the item. */
  lemma RefusalKeepsTop(c: seq<Neighbor>, nbr: Neighbor, offered: map<nat, real>, capacity: nat)
    requires IsTop(c, offered, capacity)
    requires nbr.item in offered ==> offered[nbr.item] == nbr.distance
    requires (0 < |c| == capacity && Less(c[|c| - 1], nbr)) || Has(c, nbr.item)
    ensures IsTop(c, offered[nbr.item := nbr.distance], capacity)
  {
    if Has(c, nbr.item) {
      assert offered[nbr.item := nbr.distance] == offered;
    }
  }

  /** The contents are determined by what was offered, whatever the order of the offers. */
  lemma TopIsUnique(c1: seq<Neighbor>, c2: seq<Neighbor>, offered: map<nat, real>, popped: set<nat>, capacity: nat)
    requires IsTop(c1, offered, capacity) && FlagsAre(c1, popped)
    requires IsTop(c2, offered, capacity) && FlagsAre(c2, popped)
    ensures c1 == c2
  {
    TopItems(c1, c2, offered, capacity);
    TopItems(c2, c1, offered, capacity);
    TopIsDistinct(c1, offered, capacity);
    TopIsDistinct(c2, offered, capacity);
    SortedIsUnique(c1, c2, offered, popped);
  }

  /** An item of c1 that c2 lacks is beyond c2; so c1 has everything that c2 has. */
  lemma Covered(c1: seq<Neighbor>, c2: seq<Neighbor>, offered: map<nat, real>, capacity: nat, x: nat, y: nat)
    requires IsTop(c1, offered, capacity) && IsTop(c2, offered, capacity)
    requires x in Items(c1) && x !in Items(c2) && y in Items(c2)
    ensures y in Items(c1)
  {
    var i :| 0 <= i < |c1| && c1[i].item == x;
    var j :| 0 <= j < |c2| && c2[j].item == y;
    OutIsBeyond(c2, offered, capacity, x, j);
    OutIsBeyond(c1, offered, capacity, y, i);
  }

  lemma OutIsBeyond(c: seq<Neighbor>, offered: map<nat, real>, capacity: nat, x: nat, i: nat)
    requires IsTop(c, offered, capacity) && x in offered && i < |c|
    ensures x in Items(c) || Less(c[i], Neighbor(x, offered[x], false))
  {
  }

  lemma TopItems(c1: seq<Neighbor>, c2: seq<Neighbor>, offered: map<nat, real>, capacity: nat)
    requires IsTop(c1, offered, capacity) && IsTop(c2, offered, capacity)
    ensures Items(c1) <= Items(c2)
  {
    TopIsDistinct(c1, offered, capacity);
    TopIsDistinct(c2, offered, capacity);
    forall x | x in Items(c1) ensures x in Items(c2) {
      if x !in Items(c2) {
        forall y | y in Items(c2) ensures y in Items(c1) {
          Covered(c1, c2, offered, capacity, x, y);
        }
        SubsetSize(Items(c2), Items(c1));
      }
    }
  }

  ghost predicate Distinct(c: seq<Neighbor>) {
    forall i, j :: 0 <= i < j < |c| ==> c[i].item != c[j].item
  }

  lemma TopIsDistinct(c: seq<Neighbor>, offered: map<nat, real>, capacity: nat)
    requires IsTop(c, offered, capacity)
    ensures Distinct(c) && |Items(c)| == |c|
  {
    ItemsSize(c, |c|);
  }

  lemma {:induction false} ItemsSize(c: seq<Neighbor>, k: nat)
    requires Distinct(c) && k <= |c|
    ensures |ItemsTo(c, k)| == k
  {
    hide Distinct;
    if k > 0 {
      ItemsSize(c, k - 1);
      ItemsNext(c, k);
    }
  }

  lemma ItemsNext(c: seq<Neighbor>, k: nat)
    requires Distinct(c) && 0 < k <= |c|
    ensures ItemsTo(c, k) == ItemsTo(c, k - 1) + {c[k - 1].item} && c[k - 1].item !in ItemsTo(c, k - 1)
  {
  }

  /** The keys of c are those that offered gives its items. */
  ghost predicate KeyedBy(c: seq<Neighbor>, offered: map<nat, real>) {
    forall i :: 0 <= i < |c| ==> c[i].item in offered && c[i].distance == offered[c[i].item]
  }

  lemma LastIsUnique(c1: seq<Neighbor>, c2: seq<Neighbor>, offered: map<nat, real>, popped: set<nat>)
    requires Sorted(c1) && Sorted(c2) && Items(c1) == Items(c2) && c1 != [] && c2 != []
    requires FlagsAre(c1, popped) && FlagsAre(c2, popped) && KeyedBy(c1, offered) && KeyedBy(c2, offered)
    ensures c1[|c1| - 1] == c2[|c2| - 1]
  {
    var x1, x2 := c1[|c1| - 1], c2[|c2| - 1];
    assert x1.item in Items(c2) && x2.item in Items(c1);
    var i :| 0 <= i < |c2| && c2[i].item == x1.item;
    var j :| 0 <= j < |c1| && c1[j].item == x2.item;
    assert !Less(x2, c2[i]) && !Less(x1, c1[j]);
  }

  lemma ItemsOfPrefix(c: seq<Neighbor>)
    requires Distinct(c) && c != []
    ensures Items(c[..|c| - 1]) == Items(c) - {c[|c| - 1].item}
  {
    assert Items(c) == ItemsTo(c, |c| - 1) + {c[|c| - 1].item};
    assert Items(c[..|c| - 1]) == ItemsTo(c, |c| - 1);
  }

  lemma {:induction false} SortedIsUnique(c1: seq<Neighbor>, c2: seq<Neighbor>, offered: map<nat, real>,
                                          popped: set<nat>)
    requires Sorted(c1) && Sorted(c2) && Distinct(c1) && Distinct(c2) && Items(c1) == Items(c2)
    requires FlagsAre(c1, popped) && FlagsAre(c2, popped) && KeyedBy(c1, offered) && KeyedBy(c2, offered)
    ensures c1 == c2
  {
    ItemsSize(c1, |c1|);
    ItemsSize(c2, |c2|);
    if c1 != [] {
      LastIsUnique(c1, c2, offered, popped);
      ItemsOfPrefix(c1);
      ItemsOfPrefix(c2);
      SortedIsUnique(c1[..|c1| - 1], c2[..|c2| - 1], offered, popped);
    }
  }

  /** Moving data[lo..size] up by one and writing nbr at lo is the insertion at lo. */
  lemma ShiftIsInsertion(data: seq<Neighbor>, size: nat, lo: nat, nbr: Neighbor, capacity: nat)
    requires size <= capacity && |data| == capacity + 1 && lo <= size && lo < capacity
    ensures var shifted := (data[..lo + 1] + data[lo..size] + data[size + 1..])[lo := nbr.(expanded := false)];
            && |shifted| == capacity + 1
            && shifted[..if size < capacity then size + 1 else size] == InsertedAt(data[..size], lo, nbr, capacity)
  {
    InsertedEntries(data[..size], lo, nbr, capacity);
  }

  /** c' is c but for the expanded flags. */
  ghost predicate SameKeys(c: seq<Neighbor>, c': seq<Neighbor>) {
    |c| == |c'| && forall i :: 0 <= i < |c| ==> c'[i].item == c[i].item && c'[i].distance == c[i].distance
  }

  lemma SameKeysTop(c: seq<Neighbor>, c': seq<Neighbor>, offered: map<nat, real>, capacity: nat)
    requires IsTop(c, offered, capacity) && SameKeys(c, c')
    ensures IsTop(c', offered, capacity)
  {
    forall x | x in offered && x !in Items(c') ensures |c'| == capacity && Beyond(c', x, offered[x]) {
      assert forall i :: 0 <= i < |c| ==> c[i].item == c'[i].item && c'[i].item in Items(c');
      assert Beyond(c, x, offered[x]);
    }
  }

  /** Marking the entry under the cursor. */
  lemma MarkKeepsTop(c: seq<Neighbor>, cur: nat, offered: map<nat, real>, popped: set<nat>, capacity: nat)
    requires IsTop(c, offered, capacity) && FlagsAre(c, popped) && cur < |c|
    ensures var c' := c[cur := c[cur].(expanded := true)];
            IsTop(c', offered, capacity) && FlagsAre(c', popped + {c[cur].item})
  {
    TopIsDistinct(c, offered, capacity);
    SameKeysTop(c, c[cur := c[cur].(expanded := true)], offered, capacity);
  }

  /** What the queue keeps after every operation. */
  ghost predicate Consistent(c: seq<Neighbor>, cur: nat, capacity: nat,
                             offered: map<nat, real>, popped: set<nat>, coherent: bool) {
    && Sorted(c) && |c| <= capacity && CursorAt(c, cur)
    && (coherent ==> IsTop(c, offered, capacity) && FlagsAre(c, popped) && popped <= offered.Keys)
  }

  ghost predicate Agrees(nbr: Neighbor, offered: map<nat, real>) {
    nbr.item in offered ==> offered[nbr.item] == nbr.distance
  }

  lemma TakenConsistent(c: seq<Neighbor>, cur: nat, capacity: nat, offered: map<nat, real>, popped: set<nat>,
                        coherent: bool, lo: nat, nbr: Neighbor)
    requires Consistent(c, cur, capacity, offered, popped, coherent) && Splits(c, lo, nbr)
    requires 0 < capacity && (|c| == capacity ==> !Less(c[|c| - 1], nbr))
    ensures lo < capacity
    ensures Consistent(InsertedAt(c, lo, nbr, capacity), if lo < cur then lo else cur, capacity,
                       offered[nbr.item := nbr.distance], popped, coherent && Agrees(nbr, offered))
    ensures coherent && Agrees(nbr, offered) ==> nbr.item !in offered
  {
    assert |c| == capacity ==> Less(nbr, c[|c| - 1]);
    InsertedSorted(c, lo, nbr, capacity);
    InsertedCursor(c, lo, nbr, capacity, cur);
    InsertedEntries(c, lo, nbr, capacity);
    if coherent && Agrees(nbr, offered) {
      TakenIsNew(c, lo, nbr, offered, capacity);
      InsertKeepsTop(c, lo, nbr, offered, capacity);
      InsertKeepsFlags(c, lo, nbr, popped, capacity);
    }
  }

  // ----- the path of the binary search --------------------------------------------------------

  /** at is where nbr belongs: behind the entries that are not after it. */
  ghost predicate PlaceOf(c: seq<Neighbor>, nbr: Neighbor, at: nat) {
    && at <= |c|
    && (forall i :: 0 <= i < at ==> !Less(nbr, c[i]))
    && (forall i :: at <= i < |c| ==> Less(nbr, c[i]))
  }

  /** The binary search of [lo, hi) for the place at looks at index k. */
  function OnPath(lo: nat, hi: nat, at: nat, k: nat): bool
    decreases hi - lo
  {
    lo < hi &&
    var mid := (lo + hi) / 2;
    k == mid || if at <= mid then OnPath(lo, mid, at, k) else OnPath(mid + 1, hi, at, k)
  }

  /** The search for nbr meets its item: on the way to its place it looks at an entry that is not after
      nbr and has the same item. */
  ghost predicate Meets(c: seq<Neighbor>, nbr: Neighbor, at: nat) {
    exists k :: 0 <= k < at <= |c| && OnPath(0, |c|, at, k) && c[k].item == nbr.item
  }

  /** A search that ends behind an index has looked at it. */
  lemma {:induction false} LastIsOnPath(lo: nat, hi: nat, at: nat)
    requires lo < at <= hi
    ensures OnPath(lo, hi, at, at - 1)
    decreases hi - lo
  {
    var mid := (lo + hi) / 2;
    if at <= mid {
      LastIsOnPath(lo, mid, at);
    } else if mid + 1 < at {
      LastIsOnPath(mid + 1, hi, at);
    }
  }

  ghost predicate FullAndBeyond(c: seq<Neighbor>, nbr: Neighbor, capacity: nat) {
    0 < |c| == capacity && Less(c[|c| - 1], nbr)
  }

  /** The offer is refused: the queue is full and nbr beyond its end, or the search meets its item. */
  ghost predicate Refused(c: seq<Neighbor>, nbr: Neighbor, at: nat, capacity: nat) {
    FullAndBeyond(c, nbr, capacity) || Meets(c, nbr, at)
  }

  /** What an offer of an item that the queue has at index i comes to. At the same distance it is
      refused. Closer it is never refused, and then the item is in the queue twice unless the old
      entry drops off the end. Farther it is refused just if the queue is full and the offer beyond its
      end, or the search happens to look at index i; otherwise the item is in the queue twice. */
  lemma OfferedAgain(c: seq<Neighbor>, i: nat, nbr: Neighbor, at: nat, capacity: nat)
    requires Sorted(c) && Distinct(c) && |c| <= capacity && i < |c| && c[i].item == nbr.item && PlaceOf(c, nbr, at)
    ensures nbr.distance == c[i].distance ==> Refused(c, nbr, at, capacity)
    ensures nbr.distance < c[i].distance ==> !Refused(c, nbr, at, capacity) && at <= i
    ensures nbr.distance > c[i].distance ==> i < at
    ensures nbr.distance > c[i].distance ==>
              (Refused(c, nbr, at, capacity) <==> FullAndBeyond(c, nbr, capacity) || OnPath(0, |c|, at, i))
    ensures !Refused(c, nbr, at, capacity) ==>
              (Distinct(InsertedAt(c, at, nbr, capacity)) <==> at <= i && |c| == capacity && i == |c| - 1)
  {
    assert forall k :: 0 <= k < |c| && c[k].item == nbr.item ==> k == i;
    if nbr.distance == c[i].distance {
      assert at == i + 1 by {
        assert !Less(nbr, c[i]);
        assert i + 1 < |c| ==> Less(c[i], c[i + 1]);
      }
      LastIsOnPath(0, |c|, at);
    }
    assert !Less(c[|c| - 1], c[i]);
    if !Refused(c, nbr, at, capacity) {
      TakenTwice(c, i, nbr, at, capacity);
    }
  }

  lemma TakenTwice(c: seq<Neighbor>, i: nat, nbr: Neighbor, at: nat, capacity: nat)
    requires Sorted(c) && Distinct(c) && |c| <= capacity && i < |c| && c[i].item == nbr.item && PlaceOf(c, nbr, at)
    requires nbr.distance != c[i].distance && !FullAndBeyond(c, nbr, capacity)
    ensures Distinct(InsertedAt(c, at, nbr, capacity)) <==> at <= i && |c| == capacity && i == |c| - 1
  {
    var last := c[|c| - 1];
    assert Less(last, nbr) || Less(nbr, last) || (last.item == nbr.item && last.distance == nbr.distance);
    InsertedEntries(c, at, nbr, capacity);
    var c' := InsertedAt(c, at, nbr, capacity);
    if i < at {
      assert c'[i].item == c'[at].item;
    } else if i + 1 < |c'| {
      assert c'[at].item == c'[i + 1].item;
    } else {
      assert forall j :: 0 <= j < |c'| && j != at ==> c'[j].item != nbr.item;
    }
  }

  /** Item 5, offered at distance 2.5 to a queue that has it at distance 1.0, gets in a second time:
      the search looks at indices 1 and 2 only. */
  lemma FartherGetsIn(c: seq<Neighbor>, nbr: Neighbor)
    requires c == [Neighbor(5, 1.0, false), Neighbor(7, 2.0, false), Neighbor(8, 3.0, false)]
               && nbr == Neighbor(5, 2.5, false)
    ensures PlaceOf(c, nbr, 2) && !Refused(c, nbr, 2, 10) && !Distinct(InsertedAt(c, 2, nbr, 10))
  {
    assert OnPath(0, 3, 2, 0) == OnPath(2, 3, 2, 0) == OnPath(2, 2, 2, 0) == false;
    assert Sorted(c) && Distinct(c);
    OfferedAgain(c, 0, nbr, 2, 10);
  }

  lemma RefusedConsistent(c: seq<Neighbor>, cur: nat, capacity: nat, offered: map<nat, real>, popped: set<nat>,
                          coherent: bool, nbr: Neighbor)
    requires Consistent(c, cur, capacity, offered, popped, coherent)
    requires FullAndBeyond(c, nbr, capacity) || Has(c, nbr.item)
    ensures Consistent(c, cur, capacity, offered[nbr.item := nbr.distance], popped, coherent && Agrees(nbr, offered))
  {
    if coherent && Agrees(nbr, offered) { RefusalKeepsTop(c, nbr, offered, capacity); }
  }

  // ----- the class ----------------------------------------------------------------------------

  class NeighborPriorityQueue {
    var data: seq<Neighbor>
    var size: nat
    var cur: nat
    const capacity: nat

    // Every item offered since the last clear, with its distance; every item popped; and whether no
    // item was ever offered with two distances.
    ghost var offered: map<nat, real>
    ghost var popped: set<nat>
    ghost var coherent: bool

    constructor (capacity: nat)
      ensures Valid() && this.capacity == capacity && Contents() == []
      ensures offered == map[] && popped == {} && coherent
    {
      this.capacity := capacity;
      data := seq(capacity + 1, _ => Neighbor(0, 0.0, false));
      size, cur := 0, 0;
      offered, popped, coherent := map[], {}, true;
    }

    ghost function Contents(): seq<Neighbor>
      requires size <= |data|
      reads this
    {
      data[..size]
    }

    ghost predicate Valid()
      reads this
    {
      && size <= capacity && |data| == capacity + 1
      && Consistent(Contents(), cur, capacity, offered, popped, coherent)
    }

    method Clear()
      requires Valid()
      modifies this
      ensures Valid() && Contents() == [] && offered == map[] && popped == {} && coherent
    {
      size := 0;
      cur := 0;
      offered, popped, coherent := map[], {}, true;
    }

    predicate HasUnexpandedNode()
      reads this
    {
      cur < size
    }

    /** The binary search of an insertion. It stops early just if it meets the item of nbr. */
    method Locate(nbr: Neighbor) returns (same: bool, lo: nat)
      requires Valid()
      ensures same <==> Meets(Contents(), nbr, Place(Contents(), nbr))
      ensures !same ==> lo == Place(Contents(), nbr) && Splits(Contents(), lo, nbr)
    {
      hide Less;
      ghost var c := Contents();
      ghost var at := Place(c, nbr);
      lo := 0;
      var hi := size;
      while lo < hi
        invariant 0 <= lo <= at <= hi <= size
        invariant forall i :: 0 <= i < lo && OnPath(0, size, at, i) ==> c[i].item != nbr.item
        invariant forall k: nat :: lo <= k < hi ==> OnPath(0, size, at, k) == OnPath(lo, hi, at, k)
      {
        var mid := (lo + hi) / 2;
        assert c[mid] == data[mid];
        PathStep(lo, hi, at, mid, mid + 1);
        if Less(nbr, data[mid]) {
          hi := mid;
        } else if data[mid].item == nbr.item {
          assert OnPath(0, size, at, mid);
          return true, lo;
        } else {
          lo := mid + 1;
        }
      }
      NotMet(c, nbr, at);
      return false, lo;
    }

    /** The write of an insertion at index lo. */
    method PutAt(lo: nat, nbr: Neighbor)
      requires size <= capacity && |data| == capacity + 1 && lo <= size && lo < capacity
      modifies `data, `size, `cur
      ensures size <= capacity && |data| == capacity + 1
      ensures Contents() == InsertedAt(old(Contents()), lo, nbr, capacity)
      ensures cur == if lo < old(cur) then lo else old(cur)
    {
      ShiftIsInsertion(data, size, lo, nbr, capacity);
      if lo < capacity {
        data := data[..lo + 1] + data[lo..size] + data[size + 1..];
      }
      data := data[lo := Neighbor(nbr.item, nbr.distance, false)];
      if size < capacity {
        size := size + 1;
      }
      if lo < cur {
        cur := lo;
      }
    }

    /** Inserts nbr at its place, at, dropping the last entry of a full queue, unless the queue is
        full and nbr is beyond its end, or the search meets its item. */
    method Insert(nbr: Neighbor) returns (ok: bool, ghost at: nat)
      requires Valid() && 0 < capacity
      modifies this
      ensures Valid()
      ensures PlaceOf(old(Contents()), nbr, at) && (ok <==> !Refused(old(Contents()), nbr, at, capacity))
      ensures !ok ==> Contents() == old(Contents()) && cur == old(cur)
      ensures ok ==> Splits(old(Contents()), at, nbr) && at < capacity
                     && Contents() == InsertedAt(old(Contents()), at, nbr, capacity)
                     && cur == if at < old(cur) then at else old(cur)
      ensures popped == old(popped)
      ensures offered == old(offered)[nbr.item := nbr.distance]
      ensures coherent == (old(coherent) && Agrees(nbr, old(offered)))
      ensures coherent && ok ==> nbr.item !in old(offered)
    {
      hide Sorted, CursorAt, IsTop, FlagsAre, InsertedAt, Agrees, Less, PlaceOf;
      ghost var c, c0, o0 := Contents(), coherent, offered;
      at := Place(c, nbr);
      var refused, lo := size == capacity && Less(data[size - 1], nbr), 0;
      if !refused {
        refused, lo := Locate(nbr);
      }
      coherent, offered := c0 && Agrees(nbr, o0), o0[nbr.item := nbr.distance];
      if refused {
        RefusedConsistent(c, cur, capacity, o0, popped, c0, nbr);
        return false, at;
      }
      TakenConsistent(c, cur, capacity, o0, popped, c0, lo, nbr);
      PutAt(lo, nbr);
      return true, at;
    }

    /** Marks the entry under the cursor as expanded and moves the cursor on. The entry was not
        expanded before, and with coherent distances its item was never popped before. */
    method ClosestUnexpanded() returns (n: Neighbor)
      requires Valid() && HasUnexpandedNode()
      modifies this
      ensures Valid() && offered == old(offered) && coherent == old(coherent)
      ensures n == old(Contents()[cur]).(expanded := true) && !old(Contents()[cur]).expanded
      ensures Contents() == old(Contents())[old(cur) := n]
      ensures popped == old(popped) + {n.item}
      ensures coherent ==> n.item !in old(popped) && n.item in offered
    {
      ghost var c, first := Contents(), cur;
      if coherent { MarkKeepsTop(c, cur, offered, popped, capacity); }
      data := data[cur := data[cur].(expanded := true)];
      var pre := cur;
      popped := popped + {data[pre].item};
      ghost var marked := data;
      assert Contents() == c[pre := data[pre]];
      while cur < size && data[cur].expanded
        invariant first <= cur <= size && data == marked && size == old(size)
        invariant forall i :: 0 <= i < cur ==> marked[i].expanded
        invariant offered == old(offered) && coherent == old(coherent) && popped == old(popped) + {marked[pre].item}
      {
        cur := cur + 1;
      }
      return data[pre];
    }
  }

  /** The place of nbr among the entries of a queue. */
  ghost function Place(c: seq<Neighbor>, nbr: Neighbor): (at: nat)
    requires Sorted(c)
    ensures PlaceOf(c, nbr, at)
  {
    if c == [] || !Less(nbr, c[|c| - 1]) then |c| else
      var at := Place(c[..|c| - 1], nbr);
      assert forall i :: 0 <= i < |c| - 1 ==> c[..|c| - 1][i] == c[i];
      at
  }

  lemma PathStep(lo: nat, hi: nat, at: nat, mid: nat, next: nat)
    requires lo < hi && mid == (lo + hi) / 2 && next == mid + 1
    ensures OnPath(lo, hi, at, mid)
    ensures forall k: nat :: k != mid ==>
              OnPath(lo, hi, at, k) == if at <= mid then OnPath(lo, mid, at, k) else OnPath(next, hi, at, k)
    ensures forall k: nat :: OnPath(next, hi, at, k) ==> mid < k
  {
    forall k: nat | OnPath(next, hi, at, k) ensures mid < k {
      PathWithin(next, hi, at, k);
    }
  }

  lemma {:induction false} PathWithin(lo: nat, hi: nat, at: nat, k: nat)
    requires OnPath(lo, hi, at, k)
    ensures lo <= k < hi
    decreases hi - lo
  {
    var mid := (lo + hi) / 2;
    if k != mid {
      if at <= mid { PathWithin(lo, mid, at, k); } else { PathWithin(mid + 1, hi, at, k); }
    }
  }

  /** A search that met the item nowhere has the place between the entries before and after nbr. */
  lemma NotMet(c: seq<Neighbor>, nbr: Neighbor, at: nat)
    requires Sorted(c) && PlaceOf(c, nbr, at) && !Meets(c, nbr, at)
    ensures Splits(c, at, nbr)
  {
    if at > 0 {
      LastIsOnPath(0, |c|, at);
      assert c[at - 1].item != nbr.item;
      forall i | 0 <= i < at ensures Less(c[i], nbr) {
        assert i < at - 1 ==> Less(c[i], c[at - 1]);
      }
    }
  }
}
