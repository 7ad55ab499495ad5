/** The sparse hash table: open addressing with quadratic probing, tombstones, and buckets packed into
    sparse arrays. */
module SparseHash {
  import opened GrowthPolicy
  import opened Probing
  import opened SparseArrays
  import opened SparseTable
  import opened TableCommon
  import P = Popcount

  /** The number of elements and deleted buckets at which the deleted ones are cleared. */
  function ClearThreshold(n: nat, load: real): nat
    requires 0.0 <= load <= 1.0
  {
    LoadThreshold(n, load + 0.5 * (1.0 - load))
  }

  function ClampedLoad(load: real): (r: real)
    ensures 0.1 <= r <= 0.8 && (0.1 <= load <= 0.8 ==> r == load)
    ensures (load < 0.1 ==> r == 0.1) && (load > 0.8 ==> r == 0.8)
  {
    var capped := if load < 0.8 then load else 0.8;
    if capped < 0.1 then 0.1 else capped
  }

  ghost predicate Thresholds(n: nat, load: real, rehash: nat, clear: nat) {
    0.1 <= load <= 0.8 && rehash == LoadThreshold(n, load) && clear == ClearThreshold(n, load)
  }

  /** One more element would exceed the load factor. */
  ghost predicate Grows(nb: nat, n: nat, load: real) {
    (nb + 1) as real > Allowed(n, load)
  }

  /** One more element or deleted bucket would exceed the factor halfway from the load factor to 1. */
  ghost predicate Clears(nb: nat, deleted: nat, n: nat, load: real) {
    (nb + deleted + 1) as real > Allowed(n, load + 0.5 * (1.0 - load))
  }

  lemma GrowsIf(nb: nat, n: nat, load: real)
    ensures Grows(nb, n, load) <==> (nb + 1) as real > Allowed(n, load)
  {
  }

  lemma AtClearThreshold(k: nat, n: nat, load: real)
    requires 0.0 <= load <= 1.0
    ensures k >= ClearThreshold(n, load) <==> (k + 1) as real > Allowed(n, load + 0.5 * (1.0 - load))
  {
    AtThreshold(k, n, load + 0.5 * (1.0 - load));
  }

  lemma LoadInNumbers(nb: nat, deleted: nat, n: nat, load: real)
    ensures Grows(nb, n, load) <==> (nb + 1) as real > n as real * load
    ensures Clears(nb, deleted, n, load) <==> (nb + deleted + 1) as real > n as real * (load + 0.5 * (1.0 - load))
  {
  }

  /** What an insertion that finds nb elements in n buckets does to these numbers. */
  ghost predicate Resized(ok: bool, inserted: bool, nb: nat, nb': nat, n: nat, n': nat, load: real, growthFactor: nat) {
    var wanted, grows := Wanted(n, growthFactor), Grows(nb, n, load);
    && (ok <==> !grows || wanted <= 0x8000_0000_0000_0000)
    && (ok && grows ==> LeastPower(n', wanted))
    && (!(ok && grows) ==> n' == n)
    && (ok && inserted && nb as real <= Allowed(n, load) ==>
          (nb' as real <= Allowed(n', load) <==> !grows || nb > 0 || 1.0 <= Allowed(n', load)))
  }

  lemma ResizedInNumbers(ok: bool, inserted: bool, nb: nat, nb': nat, n: nat, n': nat, load: real, growthFactor: nat)
    requires Resized(ok, inserted, nb, nb', n, n', load, growthFactor)
    ensures var wanted := growthFactor * if n == 0 then 1 else n;
            var grows := (nb + 1) as real > n as real * load;
            && (ok <==> !grows || wanted <= 0x8000_0000_0000_0000)
            && (ok && grows ==> LeastPower(n', wanted))
            && (!(ok && grows) ==> n' == n)
            && (ok && inserted && nb as real <= n as real * load ==>
                  (nb' as real <= n' as real * load <==> !grows || nb > 0 || 1.0 <= n' as real * load))
  {
    hide LeastPower;
  }

  /** There is a deleted bucket on the trail of a hash before the first empty one. */
  ghost predicate OnTrail<K, V>(cells: Cells<K, V>, h: nat, n: nat) {
    0 < n <= |cells| && exists p :: 0 <= p < n && DeletedAt(cells, h, n, p)
  }

  ghost predicate DeletedAt<K, V>(cells: Cells<K, V>, h: nat, n: nat, p: nat)
    requires 0 < n <= |cells|
  {
    cells[Probe(h, p, n)].Deleted? && forall q :: 0 <= q < p ==> !cells[Probe(h, q, n)].Empty?
  }

  lemma ThresholdBelow(n: nat, load: real)
    requires 0.1 <= load <= 0.8
    ensures n > 0 ==> LoadThreshold(n, load) < n && ClearThreshold(n, load) < n
    ensures n == 0 ==> LoadThreshold(n, load) == 0
  {
    LoadBelow(n, load);
    LoadBelow(n, load + 0.5 * (1.0 - load));
  }

  /** Everything a table promises that does not need the heap. */
  ghost predicate Consistent<K, V>(cells: Cells<K, V>, n: nat, mask: nat, hash: K -> nat, contents: map<K, V>,
                                   nbElements: nat, nbDeleted: nat, load: real, rehash: nat, clear: nat) {
    && Sound(cells, n, hash, contents) && MaskFits(mask, n) && |cells| > 0
    && nbElements == |FullsOf(cells)| == |contents| && nbDeleted == DeletedIn(cells)
    && (if n > 0 then nbElements + nbDeleted < n else nbElements == nbDeleted == 0)
        && Thresholds(n, load, rehash, clear)
  }

  class SparseHash<K(==, 0), V(0)> {
    const hash: K -> nat
    const movable: bool
    const growthFactor: nat
    var buckets: seq<SparseArray<Entry<K, V>>>
    var bucketCount: nat
    var mask: nat
    var nbElements: nat
    var nbDeletedBuckets: nat
    var maxLoadFactor: real
    var loadThresholdRehash: nat
    var loadThresholdClearDeleted: nat
    ghost var cells: Cells<K, V>
    ghost var contents: map<K, V>
    ghost var Repr: set<object>

    /** The arrays are separate objects, and array i holds the i-th 64 cells. */
    ghost predicate Holding()
      reads this`buckets, this`cells, this`Repr, Repr
    {
      && this !in Repr && |cells| == 64 * |buckets|
      && (forall i :: 0 <= i < |buckets| ==> buckets[i] in Repr && buckets[i].values in Repr)
      && (forall i :: 0 <= i < |buckets| ==> buckets[i].Valid() && buckets[i].cells == cells[64 * i..64 * i + 64])
      && (forall i, j :: 0 <= i < j < |buckets| ==> buckets[i] != buckets[j] && buckets[i].values != buckets[j].values)
    }

    ghost predicate Valid()
      reads this, Repr
    {
      && this !in Repr && Holding() && growthFactor >= 2
      && Consistent(cells, bucketCount, mask, hash, contents, nbElements, nbDeletedBuckets,
                    maxLoadFactor, loadThresholdRehash, loadThresholdClearDeleted)
    }

    /** What bucket b holds. */
    method Look(b: nat) returns (c: Cell<Entry<K, V>>)
      requires Holding() && b < |cells|
      ensures c == cells[b]
    {
      hide Packed, P.Has, SparseArray.Value, SparseArray.IndexToOffset;
      var sparse, index := b / 64, b % 64;
      buckets[sparse].Kind(index);
      BucketInRow(cells, b, |buckets|);
      if buckets[sparse].HasValue(index) {
        return Full(buckets[sparse].Value(index));
      }
      return if buckets[sparse].HasDeletedValue(index) then Deleted else Empty;
    }

    method StoreAt(b: nat, kv: Entry<K, V>)
      requires Holding() && b < |cells| && !cells[b].Full?
      modifies this`cells, this`Repr, Repr
      ensures Holding() && fresh(Repr - old(Repr)) && cells == old(cells)[b := Full(kv)]
    {
      hide SparseArray.Valid, SparseArray.Value, SparseArray.IndexToOffset;
      var sparse, index := b / 64, b % 64;
      BucketInRow(cells, b, |buckets|);
      buckets[sparse].Kind(index);
      buckets[sparse].Set(index, kv);
      RowUpdated(cells, b, Full(kv), |buckets|);
      cells := cells[b := Full(kv)];
      Repr := Repr + {buckets[sparse].values};
    }

    method EraseAt(b: nat)
      requires Holding() && b < |cells| && cells[b].Full?
      modifies this`cells, this`Repr, Repr
      ensures Holding() && fresh(Repr - old(Repr)) && cells == old(cells)[b := Deleted]
    {
      hide SparseArray.Valid, SparseArray.Value, SparseArray.IndexToOffset;
      var sparse, index := b / 64, b % 64;
      BucketInRow(cells, b, |buckets|);
      buckets[sparse].Kind(index);
      buckets[sparse].Erase(index);
      RowUpdated(cells, b, Deleted, |buckets|);
      cells := cells[b := Deleted];
      Repr := Repr + {buckets[sparse].values};
    }

    /** The probe loop that look-up and erasure share. Some bucket is always empty, so it looks at none
        twice. */
    method Locate(key: K) returns (found: bool, ibucket: nat)
      requires Valid()
      ensures found <==> key in contents
      ensures found ==> Holds(cells, ibucket, key) && ibucket < bucketCount && cells[ibucket].value.1 == contents[key]
    {
      hide Packed, Sound, Trail, BitAnd, Thresholds, BucketForHash, At;
      ibucket := BucketForHash(mask, hash(key));
      var probe: nat := 0;
      StartProbe(cells, bucketCount, mask, hash, contents, key);
      while true
        invariant At(cells, bucketCount, mask, hash(key), probe, ibucket, key)
        invariant 0 < probe ==> probe < bucketCount
        decreases bucketCount - probe
      {
        InRange(cells, bucketCount, mask, hash(key), probe, ibucket, key);
        var c := Look(ibucket);
        if c.Full? {
          if c.value.0 == key {
            FoundThere(cells, bucketCount, hash, contents, ibucket, key);
            return true, ibucket;
          }
        } else if !c.Deleted? || probe >= bucketCount {
          NotFound(cells, bucketCount, mask, hash, contents, probe, ibucket, key);
          return false, 0;
        }
        KeepProbing(cells, bucketCount, mask, hash(key), probe, ibucket, key);
        probe := probe + 1;
        ibucket := BitAnd(ibucket + probe, mask);
      }
    }

    method Find(key: K) returns (r: Option<V>)
      requires Valid()
      ensures r == if key in contents then Some(contents[key]) else None
    {
      hide Packed, Consistent;
      var found, ibucket := Locate(key);
      if !found {
        return None;
      }
      var c := Look(ibucket);
      return Some(c.value.1);
    }

    /** A table with no element; the policy may round the bucket count up. */
    constructor (count: nat, hash: K -> nat, movable: bool, growthFactor: nat, load: real)
      requires count <= MAX_BUCKET_COUNT && growthFactor >= 2
      ensures Valid() && fresh(Repr) && contents == map[] && nbElements == nbDeletedBuckets == 0
      ensures LeastPower(bucketCount, count)
      ensures this.hash == hash && this.movable == movable && this.growthFactor == growthFactor
      ensures maxLoadFactor == ClampedLoad(load)
    {
      hide Packed, P.Has, LoadThreshold, ClearThreshold, ClampedLoad, MaskFits, FullsOf, DeletedIn;
      var ok, n, m := CreatePolicy(count);
      this.hash, this.movable, this.growthFactor := hash, movable, growthFactor;
      bucketCount, mask, nbElements, nbDeletedBuckets := n, m, 0, 0;
      maxLoadFactor := ClampedLoad(load);
      loadThresholdRehash := LoadThreshold(n, ClampedLoad(load));
      loadThresholdClearDeleted := ClearThreshold(n, ClampedLoad(load));
      buckets, cells, contents, Repr := [], [], map[], {};
      new;
      var count := if n / 64 < 1 then 1 else n / 64;
      AddArrays(count);
      FullsOfEmpty(cells);
      SlotsEnough(mask, n);
      NothingIsSound(cells, n, hash);
    }

    /** A table with no element, or null where the source throws: the bucket count is too large. */
    static method Create(count: nat, hash: K -> nat, movable: bool, growthFactor: nat, load: real)
      returns (t: SparseHash?<K, V>)
      requires growthFactor >= 2
      ensures t == null <==> count > 0x8000_0000_0000_0000
      ensures t != null ==> fresh(t) && t.Valid() && fresh(t.Repr) && t.contents == map[]
      ensures t != null ==> t.nbElements == t.nbDeletedBuckets == 0
      ensures t != null ==> LeastPower(t.bucketCount, count)
      ensures t != null ==> t.hash == hash && t.movable == movable && t.growthFactor == growthFactor
                            && t.maxLoadFactor == ClampedLoad(load)
    {
      hide Consistent, ClampedLoad, SparseHash.Holding;
      if count > MAX_BUCKET_COUNT {
        return null;
      }
      t := new SparseHash<K, V>(count, hash, movable, growthFactor, load);
    }

    /** Sets up the given number of empty arrays. */
    method AddArrays(count: nat)
      requires buckets == [] && cells == [] && Repr == {}
      modifies this`buckets, this`cells, this`Repr
      ensures Holding() && fresh(Repr) && |buckets| == count
      ensures forall b :: 0 <= b < |cells| ==> cells[b].Empty?
    {
      hide Packed, P.Has, P.Ones;
      for i := 0 to count
        invariant Holding() && fresh(Repr) && |buckets| == i
        invariant forall b :: 0 <= b < |cells| ==> cells[b].Empty?
      {
        var row := new SparseArray<Entry<K, V>>(movable);
        RowsAppend(cells, row.cells, i);
        buckets := buckets + [row];
        cells := cells + row.cells;
        Repr := Repr + {row, row.values};
      }
    }

    /** Erases the key, leaving its bucket marked deleted; n is the number of keys erased. */
    method EraseKey(key: K) returns (n: nat)
      requires Valid()
      modifies this, Repr
      ensures Valid() && fresh(Repr - old(Repr))
      ensures n == (if key in old(contents) then 1 else 0) && contents == old(contents) - {key}
      ensures nbElements == old(nbElements) - n && nbDeletedBuckets == old(nbDeletedBuckets) + n
      ensures bucketCount == old(bucketCount)
    {
      hide Packed, Consistent, SparseHash.Holding;
      var found, ibucket := Locate(key);
      if !found {
        assert contents - {key} == contents;
        return 0;
      }
      RemoveAt(ibucket, key);
      return 1;
    }

    /** The erasing branch: the value leaves its bucket and the counts follow. */
    method RemoveAt(ibucket: nat, key: K)
      requires Valid() && Holds(cells, ibucket, key)
      modifies this, Repr
      ensures Valid() && fresh(Repr - old(Repr))
      ensures key in old(contents) && contents == old(contents) - {key} && bucketCount == old(bucketCount)
      ensures nbElements == old(nbElements) - 1 && nbDeletedBuckets == old(nbDeletedBuckets) + 1
    {
      hide Packed, Sound, MaskFits, Thresholds, FullsOf, DeletedIn, SparseHash.Holding;
      ErasedConsistent(cells, bucketCount, mask, hash, contents, nbElements, nbDeletedBuckets, maxLoadFactor,
                       loadThresholdRehash, loadThresholdClearDeleted, ibucket, key);
      EraseAt(ibucket);
      nbElements := nbElements - 1;
      nbDeletedBuckets := nbDeletedBuckets + 1;
      contents := contents - {key};
    }

    /** Stores a new key in the bucket of its p-th probe. */
    method InsertInBucket(ibucket: nat, key: K, v: V, ghost p: nat)
      requires Valid() && key !in contents && p < bucketCount && ibucket == Probe(hash(key), p, bucketCount)
      requires !cells[ibucket].Full? && nbElements + nbDeletedBuckets + 1 < bucketCount
      requires forall q :: 0 <= q < p ==> !cells[Probe(hash(key), q, bucketCount)].Empty?
      modifies this, Repr
      ensures Valid() && fresh(Repr - old(Repr))
      ensures contents == old(contents)[key := v] && bucketCount == old(bucketCount)
      ensures nbElements == old(nbElements) + 1
      ensures nbDeletedBuckets == old(nbDeletedBuckets) - if old(cells[ibucket].Deleted?) then 1 else 0
      ensures maxLoadFactor == old(maxLoadFactor)
    {
      hide Packed, Trail, MaskFits, Thresholds, FullsOf, DeletedIn, Probe, SparseHash.Holding;
      var c := Look(ibucket);
      StoredConsistent(cells, bucketCount, mask, hash, contents, nbElements, nbDeletedBuckets, maxLoadFactor,
                       loadThresholdRehash, loadThresholdClearDeleted, p, key, v);
      StoreAt(ibucket, (key, v));
      nbElements := nbElements + 1;
      if c.Deleted? {
        nbDeletedBuckets := nbDeletedBuckets - 1;
      }
      contents := contents[key := v];
    }

    /** Moves an entry into a table without deleted buckets that does not have its key. */
    method InsertOnRehash(key: K, v: V)
      requires Valid() && key !in contents && nbElements + 1 < bucketCount && nbDeletedBuckets == 0
      modifies this, Repr
      ensures Valid() && fresh(Repr - old(Repr))
      ensures contents == old(contents)[key := v] && bucketCount == old(bucketCount)
      ensures nbElements == old(nbElements) + 1 && nbDeletedBuckets == 0 && maxLoadFactor == old(maxLoadFactor)
    {
      hide Packed, Trail, Probe, Holds, FullsOf, DeletedIn, LoadThreshold, ClearThreshold, BitAnd;
      var ibucket: nat, probe: nat, free: bool := BucketForHash(mask, hash(key)), 0, false;
      BucketInTable(mask, bucketCount, hash(key));
      FirstProbe(hash(key), bucketCount);
      ghost var b0 := NotFullBucket(cells, bucketCount);
      while true
        invariant probe < bucketCount && ibucket == Probe(hash(key), probe, bucketCount)
        invariant forall q :: 0 <= q < probe ==> cells[Probe(hash(key), q, bucketCount)].Full?
        modifies {}
        decreases bucketCount - probe
      {
        var c := Look(ibucket);
        if !c.Full? {
          break;
        }
        ProbeNext(hash(key), probe, bucketCount, mask);
        NotAllFull(cells, bucketCount, hash(key), probe + 1, b0);
        probe := probe + 1;
        ibucket := BitAnd(ibucket + probe, mask);
      }
      NoneDeleted(cells, ibucket);
      InsertInBucket(ibucket, key, v, probe);
    }

    /** Moves everything into a new table with at least count buckets; deleted buckets are forgotten. */
    method RehashImpl(count: nat)
      requires Valid() && count <= MAX_BUCKET_COUNT && (nbElements < count || nbElements == 0)
      modifies this, Repr
      ensures Valid() && fresh(Repr) && contents == old(contents) && nbElements == old(nbElements) && nbDeletedBuckets
                == 0
      ensures LeastPower(bucketCount, count) && bucketCount >= count && (IsPow2(count) ==> bucketCount == count)
      ensures maxLoadFactor == old(maxLoadFactor)
    {
      hide Packed, Sound, MaskFits, FullsOf, DeletedIn, LoadThreshold, ClearThreshold, SparseHash.Holding;
      var t := new SparseHash<K, V>(count, hash, movable, growthFactor, maxLoadFactor);
      LeastPowerIs(t.bucketCount, count);
      ClampKeeps(maxLoadFactor);
      CopyTo(t);
      Adopt(t);
    }

    /** Moves every value, array by array. */
    method CopyTo(t: SparseHash<K, V>)
      requires Valid() && t.Valid() && t != this && this !in t.Repr && t !in Repr && t.Repr !! Repr
      requires t.contents == map[] && t.nbDeletedBuckets == 0 && (nbElements < t.bucketCount || nbElements == 0)
      modifies t, t.Repr
      ensures t.Valid() && fresh(t.Repr - old(t.Repr)) && t.bucketCount == old(t.bucketCount)
      ensures t.nbDeletedBuckets == 0 && t.contents == contents && t.nbElements == nbElements
      ensures t.maxLoadFactor == old(t.maxLoadFactor)
    {
      hide Packed, Sound, MaskFits, FullsOf, DeletedIn, Thresholds, Moved, Entries, SparseArray.Valid;
      ghost var list := FullsOf(cells);
      EntriesOf(cells, bucketCount, hash, contents);
      MovedNone(t.contents, contents, list);
      NoRows(cells);
      for i := 0 to |buckets|
        modifies t, t.Repr
        invariant t.Valid() && fresh(t.Repr - old(t.Repr)) && t.bucketCount == old(t.bucketCount)
        invariant t.nbDeletedBuckets == 0 && Moved(t.contents, contents, list, t.nbElements)
        invariant t.nbElements == |FullsOf(cells[..64 * i])| && t.maxLoadFactor == old(t.maxLoadFactor)
      {
        MoveRow(i, t, list);
      }
      AllMoved(cells, |buckets|, t.contents, contents, list, t.nbElements);
    }

    /** Moves the values of one array. */
    method MoveRow(i: nat, t: SparseHash<K, V>, ghost list: seq<Entry<K, V>>)
      requires Holding() && i < |buckets| && list == FullsOf(cells) && Entries(list, contents)
      requires t.Valid() && t != this && this !in t.Repr && t !in Repr && t.Repr !! Repr
      requires |list| < t.bucketCount || |list| == 0
      requires t.nbDeletedBuckets == 0 && Moved(t.contents, contents, list, t.nbElements)
      requires t.nbElements == |FullsOf(cells[..64 * i])|
      modifies t, t.Repr
      ensures t.Valid() && fresh(t.Repr - old(t.Repr)) && t.bucketCount == old(t.bucketCount)
      ensures t.nbDeletedBuckets == 0 && Moved(t.contents, contents, list, t.nbElements)
      ensures t.nbElements == |FullsOf(cells[..64 * (i + 1)])| && t.maxLoadFactor == old(t.maxLoadFactor)
    {
      hide Packed, Consistent, FullsOf, Moved, Entries;
      var row := buckets[i];
      ghost var start := t.nbElements;
      RowListed(row, cells, i, |buckets|);
      for j := 0 to row.nbElements
        modifies t, t.Repr
        invariant t.Valid() && fresh(t.Repr - old(t.Repr)) && t.bucketCount == old(t.bucketCount)
        invariant t.nbDeletedBuckets == 0 && t.nbElements == start + j
                  && Moved(t.contents, contents, list, t.nbElements)
        invariant t.maxLoadFactor == old(t.maxLoadFactor)
      {
        var kv := row.values[j];
        MoveOne(t.contents, contents, list, t.nbElements);
        t.InsertOnRehash(kv.0, kv.1);
      }
    }

    /** The swap at the end of a rehash. */
    method Adopt(t: SparseHash<K, V>)
      requires t.Valid() && t != this && this !in t.Repr && t.hash == hash && t.growthFactor == growthFactor
      modifies this
      ensures Valid() && Repr == t.Repr && contents == t.contents && bucketCount == t.bucketCount
      ensures nbElements == t.nbElements && nbDeletedBuckets == t.nbDeletedBuckets && maxLoadFactor == t.maxLoadFactor
    {
      hide Packed, Consistent, SparseHash.Holding, SparseArray.Valid;
      buckets, cells, Repr := t.buckets, t.cells, t.Repr;
      bucketCount, mask, nbElements, nbDeletedBuckets := t.bucketCount, t.mask, t.nbElements, t.nbDeletedBuckets;
      maxLoadFactor := t.maxLoadFactor;
      loadThresholdRehash, loadThresholdClearDeleted := t.loadThresholdRehash, t.loadThresholdClearDeleted;
      contents := t.contents;
      SameHolding(t);
    }

    /** Two tables over the same arrays hold the same. */
    lemma SameHolding(t: SparseHash<K, V>)
      requires t.Holding() && buckets == t.buckets && cells == t.cells && Repr == t.Repr && this !in t.Repr
      ensures Holding()
    {
      hide SparseArray.Valid;
    }

    /** Before an insertion: grow if one more element would exceed the load factor, or else clear the deleted
        buckets if one more of these and the elements together would exceed the factor halfway from there
        to 1. ok is false exactly if growing exceeds the largest table. */
    method MakeRoom() returns (ok: bool)
      requires Valid()
      modifies this, Repr
      ensures Valid() && fresh(Repr - old(Repr)) && contents == old(contents) && nbElements == old(nbElements)
      ensures ok ==> nbElements + nbDeletedBuckets + 1 < bucketCount
      ensures maxLoadFactor == old(maxLoadFactor)
      ensures var wanted := Wanted(old(bucketCount), growthFactor);
              var grows := Grows(old(nbElements), old(bucketCount), old(maxLoadFactor));
              var clears := Clears(old(nbElements), old(nbDeletedBuckets), old(bucketCount), old(maxLoadFactor));
              && (ok <==> !grows || wanted <= 0x8000_0000_0000_0000)
              && (ok && grows ==> LeastPower(bucketCount, wanted) && 2 * old(bucketCount) <= bucketCount)
              && (ok && (grows || clears) ==> nbDeletedBuckets == 0)
              && (!grows ==> bucketCount == old(bucketCount))
              && (!grows && !clears ==> unchanged(this))
      ensures !ok ==> unchanged(this)
    {
      hide Packed, Sound, FullsOf, DeletedIn, LoadThreshold, ClearThreshold, SparseHash.Holding, Allowed, LeastPower;
      ThresholdBelow(bucketCount, maxLoadFactor);
      AtThreshold(nbElements, bucketCount, maxLoadFactor);
      AtClearThreshold(nbElements + nbDeletedBuckets, bucketCount, maxLoadFactor);
      if nbElements >= loadThresholdRehash {
        NextIsLarger(mask, bucketCount, growthFactor);
        var next := NextBucketCount(mask, growthFactor);
        if !next.0 {
          return false;
        }
        RehashImpl(next.1);
      } else if nbElements + nbDeletedBuckets >= loadThresholdClearDeleted {
        RehashImpl(bucketCount);
      }
      return true;
    }

    /** Inserts the pair unless the key is there. Even if it is, the table first grows if one more element
        would exceed the load factor, and otherwise clears the deleted buckets if one more of these and the
        elements together would exceed the factor halfway from there to 1. ok is false exactly if growing
        exceeds the largest table. The load factor is kept, but for an empty table that grows to one too
        small for it. A deleted bucket on the key's trail is reused. */
    method Insert(key: K, v: V) returns (ok: bool, inserted: bool)
      requires Valid()
      modifies this, Repr
      ensures Valid() && fresh(Repr - old(Repr)) && maxLoadFactor == old(maxLoadFactor)
      ensures (ok ==> inserted == (key !in old(contents))) && (!ok ==> !inserted)
      ensures contents == if ok && inserted then old(contents)[key := v] else old(contents)
      ensures nbElements == old(nbElements) + if ok && inserted then 1 else 0
      ensures var wanted := growthFactor * if old(bucketCount) == 0 then 1 else old(bucketCount);
              var grows := (old(nbElements) + 1) as real > old(bucketCount) as real * maxLoadFactor;
              && (ok <==> !grows || wanted <= 0x8000_0000_0000_0000)
              && (ok && grows ==> LeastPower(bucketCount, wanted))
              && (!(ok && grows) ==> bucketCount == old(bucketCount))
              && (ok && inserted && old(nbElements as real <= bucketCount as real * maxLoadFactor) ==>
                    (nbElements as real <= bucketCount as real * maxLoadFactor
                     <==> !grows || old(nbElements) > 0 || 1.0 <= bucketCount as real * maxLoadFactor))
      ensures var grows := Grows(old(nbElements), old(bucketCount), maxLoadFactor);
              var clears := Clears(old(nbElements), old(nbDeletedBuckets), old(bucketCount), maxLoadFactor);
              && (ok && (grows || clears) ==> nbDeletedBuckets == 0)
              && (!grows && !clears && inserted ==>
                    nbDeletedBuckets == old(nbDeletedBuckets)
                                        - if OnTrail(old(cells), hash(key), old(bucketCount)) then 1 else 0)
    {
      hide *;
      ok, inserted := InsertImpl(key, v);
      ResizedInNumbers(ok, inserted, old(nbElements), nbElements, old(bucketCount), bucketCount, maxLoadFactor,
                       growthFactor);
    }

    /** The insertion. */
    method InsertImpl(key: K, v: V) returns (ok: bool, inserted: bool)
      requires Valid()
      modifies this, Repr
      ensures Valid() && fresh(Repr - old(Repr)) && maxLoadFactor == old(maxLoadFactor)
      ensures (ok ==> inserted == (key !in old(contents))) && (!ok ==> !inserted)
      ensures contents == if ok && inserted then old(contents)[key := v] else old(contents)
      ensures nbElements == old(nbElements) + if ok && inserted then 1 else 0
      ensures Resized(ok, inserted, old(nbElements), nbElements, old(bucketCount), bucketCount, maxLoadFactor,
                      growthFactor)
      ensures var grows := Grows(old(nbElements), old(bucketCount), maxLoadFactor);
              var clears := Clears(old(nbElements), old(nbDeletedBuckets), old(bucketCount), maxLoadFactor);
              && (ok && (grows || clears) ==> nbDeletedBuckets == 0)
              && (!grows && !clears && inserted ==>
                    nbDeletedBuckets == old(nbDeletedBuckets)
                                        - if OnTrail(old(cells), hash(key), old(bucketCount)) then 1 else 0)
    {
      hide Packed, Sound, FullsOf, DeletedIn, LoadThreshold, ClearThreshold, MaskFits;
      hide SparseHash.Holding, Allowed, Wanted, LeastPower, OnTrail, Grows, Clears, Consistent, SparseHash.Valid;
      KnowsLoad();
      ok := MakeRoom();
      if !ok {
        return false, false;
      }
      if 2 * old(bucketCount) <= bucketCount && old(nbElements as real <= Allowed(bucketCount, maxLoadFactor)) {
        GrownIsLight(nbElements, old(bucketCount), bucketCount, maxLoadFactor);
      }
      GrowsIf(old(nbElements), old(bucketCount), maxLoadFactor);
      inserted := InsertWhereRoom(key, v);
    }

    lemma KnowsLoad()
      requires Valid()
      ensures maxLoadFactor >= 0.1
    {
    }

    /** The insertion into a table with room: the search, and the bucket it leads to. */
    method InsertWhereRoom(key: K, v: V) returns (inserted: bool)
      requires Valid() && nbElements + nbDeletedBuckets + 1 < bucketCount
      modifies this, Repr
      ensures Valid() && fresh(Repr - old(Repr)) && inserted == (key !in old(contents))
      ensures bucketCount == old(bucketCount) && maxLoadFactor == old(maxLoadFactor)
      ensures contents == if inserted then old(contents)[key := v] else old(contents)
      ensures nbElements == old(nbElements) + if inserted then 1 else 0
      ensures nbDeletedBuckets == old(nbDeletedBuckets)
                                  - if inserted && OnTrail(old(cells), hash(key), bucketCount) then 1 else 0
    {
      hide Packed, Consistent, OnTrail, Probe, SparseHash.Holding;
      var found, ibucket; ghost var p;
      found, ibucket, p := SeekPlace(key);
      if found {
        return false;
      }
      InsertInBucket(ibucket, key, v, p);
      return true;
    }

    /** The search of an insertion: the key, or else the bucket for it, at probe p, which is the first
        deleted one on the trail if there is any. */
    method SeekPlace(key: K) returns (found: bool, place: nat, ghost p: nat)
      requires Valid() && bucketCount > 0
      ensures found <==> key in contents
      ensures !found ==> p < bucketCount && place == Probe(hash(key), p, bucketCount) && !cells[place].Full?
      ensures !found ==> forall q :: 0 <= q < p ==> !cells[Probe(hash(key), q, bucketCount)].Empty?
      ensures !found ==> (cells[place].Deleted? <==> OnTrail(cells, hash(key), bucketCount))
    {
      hide Packed, Sound, Trail, BitAnd, LoadThreshold, ClearThreshold, BucketForHash, At, Tombstone, Probe,
           NextBucketCount;
      hide SparseHash.Holding, OnTrail;
      var ibucket: nat, probe: nat := BucketForHash(mask, hash(key)), 0;
      var foundFirstDeleted, firstDeleted: nat := false, 0;
      p := 0;
      StartProbe(cells, bucketCount, mask, hash, contents, key);
      NoTombstone(cells, bucketCount, mask, hash(key), ibucket, key, firstDeleted, p);
      while true
        invariant At(cells, bucketCount, mask, hash(key), probe, ibucket, key)
        invariant Tombstone(cells, bucketCount, hash(key), probe, foundFirstDeleted, firstDeleted, p)
        invariant 0 < probe ==> probe < bucketCount
        decreases bucketCount - probe
      {
        InRange(cells, bucketCount, mask, hash(key), probe, ibucket, key);
        var c := Look(ibucket);
        if c.Full? {
          if c.value.0 == key {
            FoundThere(cells, bucketCount, hash, contents, ibucket, key);
            return true, ibucket, 0;
          }
          SameTombstone(cells, bucketCount, mask, hash(key), probe, ibucket, key, foundFirstDeleted, firstDeleted, p);
        } else if c.Deleted? && probe < bucketCount {
          if foundFirstDeleted {
            SameTombstone(cells, bucketCount, mask, hash(key), probe, ibucket, key, true, firstDeleted, p);
          } else {
            FirstTombstone(cells, bucketCount, mask, hash(key), probe, ibucket, key);
            foundFirstDeleted, firstDeleted, p := true, ibucket, probe;
          }
        } else {
          NotFound(cells, bucketCount, mask, hash, contents, probe, ibucket, key);
          break;
        }
        KeepProbing(cells, bucketCount, mask, hash(key), probe, ibucket, key);
        probe := probe + 1;
        ibucket := BitAnd(ibucket + probe, mask);
      }
      TombstoneIs(cells, bucketCount, mask, hash(key), probe, ibucket, key, foundFirstDeleted, firstDeleted, p);
      p := WhereToStore(cells, bucketCount, mask, hash(key), probe, ibucket, key, foundFirstDeleted, firstDeleted, p);
      return false, if foundFirstDeleted then firstDeleted else ibucket, p;
    }

    /** Rehashes to at least count buckets, and to at least what the load factor asks for. */
    method Rehash(count: nat) returns (ok: bool)
      requires Valid()
      modifies this, Repr
      ensures Valid() && fresh(Repr - old(Repr)) && contents == old(contents)
      ensures ok <==> LeastBuckets(count, old(nbElements), old(maxLoadFactor)) <= 0x8000_0000_0000_0000
      ensures ok ==> LeastPower(bucketCount, LeastBuckets(count, old(nbElements), old(maxLoadFactor)))
      ensures ok ==> nbDeletedBuckets == 0
      ensures maxLoadFactor == old(maxLoadFactor)
      ensures !ok ==> unchanged(this)
    {
      hide Packed, Sound, FullsOf, DeletedIn, LoadThreshold, ClearThreshold, SparseHash.Holding;
      var least := LeastBuckets(count, nbElements, maxLoadFactor);
      EnoughRoom(nbElements, maxLoadFactor);
      if least > MAX_BUCKET_COUNT {
        return false;
      }
      RehashImpl(least);
      return true;
    }

    /** Empties every array and resets the counts. */
    method Clear()
      requires Valid()
      modifies this, Repr
      ensures Valid() && fresh(Repr - old(Repr)) && contents == map[] && bucketCount == old(bucketCount)
      ensures nbElements == 0 && nbDeletedBuckets == 0
    {
      hide FullsOf, DeletedIn, LoadThreshold, ClearThreshold;
      ClearArrays();
      nbElements, nbDeletedBuckets, contents := 0, 0, map[];
      FullsOfEmpty(cells);
      NothingIsSound(cells, bucketCount, hash);
    }

    method ClearArrays()
      requires Holding()
      modifies this`cells, this`Repr, Repr
      ensures Holding() && fresh(Repr - old(Repr)) && |cells| == old(|cells|)
      ensures forall b :: 0 <= b < |cells| ==> cells[b].Empty?
    {
      hide SparseArray.Valid;
      for i := 0 to |buckets|
        invariant Holding() && fresh(Repr - old(Repr)) && |cells| == old(|cells|)
        invariant forall b :: 0 <= b < 64 * i ==> cells[b].Empty?
      {
        var row := buckets[i];
        row.Clear();
        RowReplaced(cells, row.cells, i, |buckets|);
        cells := cells[..64 * i] + row.cells + cells[64 * i + 64..];
        Repr := Repr + {row.values};
      }
    }
  }

  /** The load factor is not always kept: with a factor of 0.1 the first element of an empty table grows it
      to 2 buckets, which is one element too many for them. */
  method TooSmallAtFirst(hash: nat -> nat) returns (t: SparseHash<nat, nat>)
    ensures t.Valid() && t.nbElements == 1 && t.maxLoadFactor == 0.1
    ensures t.nbElements as real > t.bucketCount as real * t.maxLoadFactor
  {
    hide Consistent, SparseHash.Holding, Packed, LeastPower, OnTrail, Clears;
    var created := SparseHash<nat, nat>.Create(0, hash, true, 2, 0.1);
    if created != null { LeastPowerIs(created.bucketCount, 0); }
    assert created != null && created.bucketCount == 0;
    t := created;
    var ok, inserted := t.Insert(7, 7);
    OnlyTwo(t.bucketCount);
  }

  lemma RowReplaced<T>(cells: seq<Cell<T>>, row: seq<Cell<T>>, i: nat, m: nat)
    requires |cells| == 64 * m && i < m && |row| == 64
    ensures var cells' := cells[..64 * i] + row + cells[64 * i + 64..];
            |cells'| == |cells| && forall j :: 0 <= j < m ==>
              cells'[64 * j..64 * j + 64] == if j == i then row else cells[64 * j..64 * j + 64]
  {
    var cells' := cells[..64 * i] + row + cells[64 * i + 64..];
    forall j | 0 <= j < m ensures cells'[64 * j..64 * j + 64] == if j == i then row else cells[64 * j..64 * j + 64] {
    }
  }

  /** The deleted bucket remembered, at probe p, is the first one passed; none is remembered just when
      none was passed. */
  ghost predicate Tombstone<K, V>(cells: Cells<K, V>, n: nat, h: nat, probe: nat, found: bool, b: nat, p: nat) {
    && 0 < n <= |cells|
    && (found ==> p < probe && p < n && b == Probe(h, p, n) && cells[b].Deleted?)
    && (!found ==> forall q :: 0 <= q < probe && q < n ==> !cells[Probe(h, q, n)].Deleted?)
  }

  lemma NoTombstone<K, V>(cells: Cells<K, V>, n: nat, mask: nat, h: nat, b0: nat, key: K, b: nat, p: nat)
    requires At(cells, n, mask, h, 0, b0, key) && n > 0
    ensures Tombstone(cells, n, h, 0, false, b, p)
  {
  }

  lemma FirstTombstone<K, V>(cells: Cells<K, V>, n: nat, mask: nat, h: nat, probe: nat, b: nat, key: K)
    requires At(cells, n, mask, h, probe, b, key) && cells[b].Deleted? && probe < n
    ensures Tombstone(cells, n, h, probe + 1, true, b, probe)
  {
  }

  lemma SameTombstone<K, V>(cells: Cells<K, V>, n: nat, mask: nat, h: nat, probe: nat, b: nat, key: K,
                            found: bool, first: nat, p: nat)
    requires At(cells, n, mask, h, probe, b, key) && Tombstone(cells, n, h, probe, found, first, p)
    requires !found ==> !cells[b].Deleted?
    ensures Tombstone(cells, n, h, probe + 1, found, first, p)
  {
    hide Probe, Passed, FullsOf, MaskFits;
  }

  /** A search that stops at an empty bucket remembers a deleted one just if there is one on the trail. */
  lemma TombstoneIs<K, V>(cells: Cells<K, V>, n: nat, mask: nat, h: nat, probe: nat, b: nat, key: K,
                          found: bool, first: nat, p: nat)
    requires At(cells, n, mask, h, probe, b, key) && Tombstone(cells, n, h, probe, found, first, p)
    requires probe < n && cells[b].Empty?
    ensures var place := if found then first else b;
            place < |cells| && (cells[place].Deleted? <==> OnTrail(cells, h, n))
  {
    hide Probe, Holds, FullsOf, DeletedIn, MaskFits;
    if found {
      assert DeletedAt(cells, h, n, p);
    }
    if q :| 0 <= q < n && DeletedAt(cells, h, n, q) {
      assert q < probe;
    }
  }

  /** Where the search stopped: the remembered bucket, or this one, which then is empty and early enough. */
  lemma WhereToStore<K, V>(cells: Cells<K, V>, n: nat, mask: nat, h: nat, probe: nat, b: nat, key: K,
                           found: bool, first: nat, p: nat) returns (r: nat)
    requires At(cells, n, mask, h, probe, b, key) && Tombstone(cells, n, h, probe, found, first, p)
    requires !cells[b].Full? && (!cells[b].Deleted? || probe >= n)
    ensures r < n && (if found then first else b) == Probe(h, r, n) && !cells[if found then first else b].Full?
    ensures forall q :: 0 <= q < r ==> !cells[Probe(h, q, n)].Empty?
  {
    hide Probe, Holds, FullsOf;
    if found {
      return p;
    }
    if probe < n {
      return probe;
    }
    var k: nat :| n == Pow2(k);
    r := ProbesCover(h, k, b);
  }

  lemma ClampKeeps(load: real)
    requires 0.1 <= load <= 0.8
    ensures ClampedLoad(load) == load
  {
  }

  /** The first k entries of the list, and no others, have been moved. */
  ghost predicate Moved<K, V>(to: map<K, V>, from: map<K, V>, list: seq<Entry<K, V>>, k: nat) {
    && k <= |list| && |to| == k
    && (forall key :: key in to ==> key in from && to[key] == from[key])
    && (forall key :: key in to ==> exists i :: 0 <= i < k && list[i].0 == key)
  }

  /** The list holds entries of the map, each key once, and all of them. */
  ghost predicate Entries<K, V>(list: seq<Entry<K, V>>, contents: map<K, V>) {
    && |list| == |contents|
    && (forall i :: 0 <= i < |list| ==> list[i].0 in contents && contents[list[i].0] == list[i].1)
    && (forall i, j :: 0 <= i < j < |list| ==> list[i].0 != list[j].0)
  }

  lemma EntriesOf<K, V>(cells: Cells<K, V>, n: nat, hash: K -> nat, contents: map<K, V>)
    requires Sound(cells, n, hash, contents) && |FullsOf(cells)| == |contents|
    ensures Entries(FullsOf(cells), contents)
  {
    hide Trail, FullsOf;
    var list := FullsOf(cells);
    forall i | 0 <= i < |list| ensures list[i].0 in contents && contents[list[i].0] == list[i].1 {
      var b := FullsOfIndex(cells, i);
      assert b < n;
    }
    forall i, j | 0 <= i < j < |list| ensures list[i].0 != list[j].0 {
      FullsDistinct(cells, i, j);
    }
  }

  lemma MoveOne<K, V>(to: map<K, V>, from: map<K, V>, list: seq<Entry<K, V>>, k: nat)
    requires Moved(to, from, list, k) && Entries(list, from) && k < |list|
    ensures list[k].0 !in to && Moved(to[list[k].0 := list[k].1], from, list, k + 1)
  {
    var key0, to' := list[k].0, to[list[k].0 := list[k].1];
    assert key0 !in to;
    MapGrows(to, key0, list[k].1);
    forall key | key in to' ensures exists i :: 0 <= i < k + 1 && list[i].0 == key {
      if key != key0 {
        var i :| 0 <= i < k && list[i].0 == key;
      }
    }
  }

  /** The values of array i are the next stretch of the list. */
  lemma RowListed<K(0), V(0)>(row: SparseArray<Entry<K, V>>, cells: Cells<K, V>, i: nat, m: nat)
    requires row.Valid() && |cells| == 64 * m && i < m && row.cells == cells[64 * i..64 * i + 64]
    ensures var start, list := |FullsOf(cells[..64 * i])|, FullsOf(cells);
            && |FullsOf(cells[..64 * (i + 1)])| == start + row.nbElements <= |list|
            && forall j :: 0 <= j < row.nbElements ==> row.values[j] == list[start + j]
  {
    hide Packed, FullsOf;
    PackedAll(row.values[..row.nbElements], row.bitmapVals, row.bitmapDeletedVals, row.cells);
    FullsOfConcat(cells[..64 * i], row.cells);
    assert cells[..64 * (i + 1)] == cells[..64 * i] + row.cells;
    FullsOfConcat(cells[..64 * (i + 1)], cells[64 * (i + 1)..]);
    assert cells == cells[..64 * (i + 1)] + cells[64 * (i + 1)..];
  }

  lemma NoRows<T>(cells: seq<Cell<T>>)
    ensures |FullsOf(cells[..64 * 0])| == 0
  {
  }

  lemma AllMoved<K, V>(cells: Cells<K, V>, m: nat, to: map<K, V>, from: map<K, V>, list: seq<Entry<K, V>>, k: nat)
    requires |cells| == 64 * m && list == FullsOf(cells) && k == |FullsOf(cells[..64 * m])| && Moved(to, from, list, k)
    requires Entries(list, from)
    ensures to == from && k == |list|
  {
    assert cells[..64 * m] == cells;
    SameSizeSameMap(to, from);
  }

  lemma MovedNone<K, V>(to: map<K, V>, from: map<K, V>, list: seq<Entry<K, V>>)
    requires to == map[]
    ensures Moved(to, from, list, 0)
  {
  }

  lemma FirstProbe(h: nat, n: nat)
    requires n > 0
    ensures Probe(h, 0, n) == h % n
  {
  }

  /** While some bucket is not full, not all probes can have been full. */
  lemma NotAllFull<K, V>(cells: Cells<K, V>, n: nat, h: nat, p: nat, b: nat)
    requires 0 < n <= |cells| && IsPow2(n) && p <= n && b < n && !cells[b].Full?
    requires forall q :: 0 <= q < p ==> cells[Probe(h, q, n)].Full?
    ensures p < n
  {
    hide Probe;
    var k: nat :| n == Pow2(k);
    var q := ProbesCover(h, k, b);
  }

  lemma {:induction false} NoneDeleted<T>(cells: seq<Cell<T>>, b: nat)
    requires b < |cells| && DeletedIn(cells) == 0
    ensures !cells[b].Deleted?
  {
    if b < |cells| - 1 {
      NoneDeleted(cells[..|cells| - 1], b);
    }
  }

  lemma StoredConsistent<K, V>(cells: Cells<K, V>, n: nat, mask: nat, hash: K -> nat, contents: map<K, V>,
                               nbElements: nat, nbDeleted: nat, load: real, rehash: nat, clear: nat, p: nat, key: K,
                               v: V)
    requires Consistent(cells, n, mask, hash, contents, nbElements, nbDeleted, load, rehash, clear)
    requires key !in contents && nbElements + nbDeleted + 1 < n && p < n && !cells[Probe(hash(key), p, n)].Full?
    requires forall q :: 0 <= q < p ==> !cells[Probe(hash(key), q, n)].Empty?
    ensures var b := Probe(hash(key), p, n); var freed := if cells[b].Deleted? then 1 else 0;
            freed <= nbDeleted && Consistent(cells[b := Full((key, v))], n, mask, hash, contents[key := v],
                                             nbElements + 1, nbDeleted - freed, load, rehash, clear)
  {
    hide Trail, MaskFits, LoadThreshold, ClearThreshold, Probe;
    StoreSound(cells, n, hash, contents, p, key, v);
    CountsUpdate(cells, Probe(hash(key), p, n), Full((key, v)));
    assert contents[key := v].Keys == contents.Keys + {key};
  }

  lemma ErasedConsistent<K, V>(cells: Cells<K, V>, n: nat, mask: nat, hash: K -> nat, contents: map<K, V>,
                               nbElements: nat, nbDeleted: nat, load: real, rehash: nat, clear: nat, b: nat, key: K)
    requires Consistent(cells, n, mask, hash, contents, nbElements, nbDeleted, load, rehash, clear)
               && Holds(cells, b, key)
    ensures nbElements > 0 && key in contents
    ensures Consistent(cells[b := Deleted], n, mask, hash, contents - {key}, nbElements - 1, nbDeleted + 1, load,
              rehash, clear)
  {
    hide Trail, MaskFits, LoadThreshold, ClearThreshold, Sound, FullsOf, DeletedIn;
    FoundThere(cells, n, hash, contents, b, key);
    EraseSound(cells, n, hash, contents, b, key);
    CountsUpdate(cells, b, Deleted);
    assert contents.Keys == (contents - {key}).Keys + {key};
  }

  lemma SlotsEnough(mask: nat, n: nat)
    requires MaskFits(mask, n)
    ensures n <= 64 * if n / 64 < 1 then 1 else n / 64
  {
    if n >= 64 {
      var k: nat :| n == Pow2(k);
      assert Pow2(6) == 64;
      if k < 6 { Pow2Grows(k, 6); }
      Pow2Adds(6, k - 6);
    }
  }

  lemma RowsAppend<T>(cells: seq<Cell<T>>, row: seq<Cell<T>>, m: nat)
    requires |cells| == 64 * m && |row| == 64
    ensures forall i :: 0 <= i < m ==> (cells + row)[64 * i..64 * i + 64] == cells[64 * i..64 * i + 64]
    ensures (cells + row)[64 * m..64 * m + 64] == row
  {
  }

  lemma BucketInRow<T>(cells: seq<Cell<T>>, b: nat, m: nat)
    requires b < |cells| == 64 * m
    ensures b / 64 < m && b % 64 < 64 && 64 * (b / 64) + 64 <= |cells|
    ensures cells[b] == cells[64 * (b / 64)..64 * (b / 64) + 64][b % 64]
  {
  }

  lemma RowUpdated<T>(cells: seq<Cell<T>>, b: nat, c: Cell<T>, m: nat)
    requires b < |cells| == 64 * m
    ensures forall i :: 0 <= i < m ==>
              cells[b := c][64 * i..64 * i + 64]
              == if i == b / 64 then cells[64 * i..64 * i + 64][b % 64 := c] else cells[64 * i..64 * i + 64]
  {
    forall i | 0 <= i < m ensures cells[b := c][64 * i..64 * i + 64]
              == if i == b / 64 then cells[64 * i..64 * i + 64][b % 64 := c] else cells[64 * i..64 * i + 64]
    {
      var row := cells[b := c][64 * i..64 * i + 64];
      forall j | 0 <= j < 64 ensures row[j] == if 64 * i + j == b then c else cells[64 * i + j] {
      }
      if i != b / 64 {
        assert row == cells[64 * i..64 * i + 64];
      } else {
        assert row == cells[64 * i..64 * i + 64][b % 64 := c];
      }
    }
  }

  // ----- a search under way -------------------------------------------------------------------

  /** The search for a key stands at its p-th probe; a table without buckets has one empty stand-in. */
  ghost predicate At<K, V>(cells: Cells<K, V>, n: nat, mask: nat, h: nat, p: nat, b: nat, key: K) {
    && n <= |cells| && |cells| > 0 && MaskFits(mask, n) && b < |cells|
    && (n == 0 ==> b == 0 && p == 0 && cells[0].Empty?)
    && (n > 0 ==> b == Probe(h, p, n) && p < 2 * n && Passed(cells, n, h, p, key)
                  && |FullsOf(cells)| + DeletedIn(cells) < n)
    && (forall a :: n <= a < |cells| ==> cells[a].Empty?)
  }

  lemma InRange<K, V>(cells: Cells<K, V>, n: nat, mask: nat, h: nat, p: nat, b: nat, key: K)
    requires At(cells, n, mask, h, p, b, key)
    ensures b < |cells| && p <= 2 * n
  {
  }

  lemma StartProbe<K, V>(cells: Cells<K, V>, n: nat, mask: nat, hash: K -> nat, contents: map<K, V>, key: K)
    requires Sound(cells, n, hash, contents) && MaskFits(mask, n) && |cells| > 0
    requires n > 0 ==> |FullsOf(cells)| + DeletedIn(cells) < n
    ensures At(cells, n, mask, hash(key), 0, BucketForHash(mask, hash(key)), key)
  {
    hide Trail, Holds, FullsOf;
    BucketInTable(mask, n, hash(key));
  }

  lemma FoundThere<K, V>(cells: Cells<K, V>, n: nat, hash: K -> nat, contents: map<K, V>, b: nat, key: K)
    requires Sound(cells, n, hash, contents) && Holds(cells, b, key)
    ensures b < n && key in contents && contents[key] == cells[b].value.1
  {
    hide Trail;
  }

  lemma NotFound<K, V>(cells: Cells<K, V>, n: nat, mask: nat, hash: K -> nat, contents: map<K, V>, p: nat, b: nat,
                       key: K)
    requires Sound(cells, n, hash, contents) && At(cells, n, mask, hash(key), p, b, key)
    requires !cells[b].Full? && (!cells[b].Deleted? || p >= n)
    ensures key !in contents
  {
    hide Trail, FullsOf;
    if n > 0 {
      Absent(cells, n, hash, contents, p, key);
    }
  }

  lemma KeepProbing<K, V>(cells: Cells<K, V>, n: nat, mask: nat, h: nat, p: nat, b: nat, key: K)
    requires At(cells, n, mask, h, p, b, key) && !Holds(cells, b, key)
    requires cells[b].Full? || (cells[b].Deleted? && p < n)
    ensures At(cells, n, mask, h, p + 1, BitAnd(b + (p + 1), mask), key) && p + 1 < n
  {
    hide Probe, Holds, BitAnd;
    ProbeNext(h, p, n, mask);
    PassOne(cells, n, h, p, key);
    var a := EmptyBucket(cells, n);
    SearchEnds(cells, n, h, p + 1, key, a);
  }
}
