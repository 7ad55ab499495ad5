/** The Robin Hood hash table: linear probing in which an entry far from its ideal bucket takes the
    place of a closer one, and deletion shifts the following entries back. */
module RobinHash {
  import opened GrowthPolicy
  import opened RobinTable
  import opened TableCommon

  const REHASH_ON_HIGH_NB_PROBES := 128
  const REHASH_MIN_LOAD_FACTOR := 0.15

  function ClampedLoad(load: real): (r: real)
    ensures 0.1 <= r <= 0.95 && (0.1 <= load <= 0.95 ==> r == load)
    ensures (load < 0.1 ==> r == 0.1) && (load > 0.95 ==> r == 0.95)
  {
    var capped := if load < 0.95 then load else 0.95;
    if capped < 0.1 then 0.1 else capped
  }

  class RobinHash<K(==), V(0)> {
    const hash: K -> nat
    const growthFactor: nat
    var buckets: array<Slot<K, V>>    // one empty stand-in when there is no bucket
    var bucketCount: nat
    var mask: nat
    var nbElements: nat
    var loadThreshold: nat
    var maxLoadFactor: real
    var growOnNextInsert: bool
    ghost var contents: map<K, V>

    ghost predicate Shape()
      reads this
    {
      && MaskFits(mask, bucketCount) && buckets.Length == (if bucketCount == 0 then 1 else bucketCount)
      && 0.1 <= maxLoadFactor <= 0.95 && loadThreshold == LoadThreshold(bucketCount, maxLoadFactor) && growthFactor >= 2
    }

    ghost predicate Valid()
      reads this, buckets
    {
      && Shape() && Table(buckets[..], hash, contents) && nbElements == |contents|
      && (if bucketCount > 0 then nbElements < bucketCount else nbElements == 0)
    }

    function NextBucket(i: nat): nat
      reads this
    {
      BitAnd(i + 1, mask)
    }

    lemma NextIsNext(i: nat)
      requires Shape() && bucketCount > 0
      ensures NextBucket(i) == Next(i, buckets.Length)
    {
      BucketInTable(mask, bucketCount, i + 1);
    }

    lemma HomeIsHome(h: nat)
      requires Shape()
      ensures BucketForHash(mask, h) == Home(h, 0, buckets.Length)
    {
      BucketInTable(mask, bucketCount, h);
    }

    /** Looks the key up; the search stops at the first bucket whose entry is closer to home. */
    method FindImpl(key: K) returns (found: bool, ibucket: nat, dist: nat)
      requires Valid()
      ensures found <==> key in contents
      ensures found ==> HasKey(buckets[..], ibucket, key) && buckets[ibucket].value == contents[key]
      ensures !found ==> Stopped(buckets[..], hash(key), ibucket, dist)
    {
      hide Exact, Sloped, Agrees, UsedIn, MaskFits, Home, LoadThreshold, Searched, BucketForHash, Next;
      HomeIsHome(hash(key));
      ibucket, dist := BucketForHash(mask, hash(key)), 0;
      ghost var t := buckets[..];
      ghost var e := FreeSlot(t);
      SearchNothing(t, hash(key), key);
      while dist <= Dist(buckets[ibucket])
        invariant ibucket == Home(hash(key), dist, |t|) && Searched(t, hash(key), dist, key)
        invariant dist == 0 || dist - 1 <= Dist(t[Home(hash(key), dist - 1, |t|)])
        decreases |t| - dist
      {
        SearchEnds(t, hash(key), dist, key, e);
        if buckets[ibucket].key == key {
          KeyFound(t, hash, contents, ibucket);
          return true, ibucket, dist;
        }
        NextIsNext(ibucket);
        SearchOne(t, hash(key), dist, key);
        ibucket := NextBucket(ibucket);
        dist := dist + 1;
      }
      EarlyExit(t, hash, contents, dist, key);
      return false, ibucket, dist;
    }

    method Find(key: K) returns (r: Option<V>)
      requires Valid()
      ensures r == if key in contents then Some(contents[key]) else None
    {
      var found, ibucket, dist := FindImpl(key);
      return if found then Some(buckets[ibucket].value) else None;
    }

    /** The second search of an insertion, after growing: where the new entry goes. */
    method Seek(h: nat, ghost key: K) returns (ibucket: nat, dist: nat)
      requires Shape() && UsedIn(buckets[..]) < buckets.Length
      requires forall i :: 0 <= i < buckets.Length ==> !HasKey(buckets[..], i, key)
      ensures Stopped(buckets[..], h, ibucket, dist)
    {
      hide MaskFits, Home, LoadThreshold, Searched, BucketForHash, Next, UsedIn;
      HomeIsHome(h);
      ibucket, dist := BucketForHash(mask, h), 0;
      ghost var t := buckets[..];
      ghost var e := FreeSlot(t);
      SearchNothing(t, h, key);
      while dist <= Dist(buckets[ibucket])
        invariant ibucket == Home(h, dist, |t|) && Searched(t, h, dist, key)
        invariant dist == 0 || dist - 1 <= Dist(t[Home(h, dist - 1, |t|)])
        decreases |t| - dist
      {
        SearchEnds(t, h, dist, key, e);
        NextIsNext(ibucket);
        SearchOne(t, h, dist, key);
        ibucket := NextBucket(ibucket);
        dist := dist + 1;
      }
    }

    /** The entry takes the bucket of one closer to home, which is carried on. */
    method SwapWithValueInBucket(ibucket: nat, dist: nat, key: K, v: V, ghost goal: map<K, V>) returns (s: Slot<K, V>)
      requires Carrying(buckets[..], hash, goal, ibucket, key, v, dist)
      requires buckets[ibucket].Used? && dist > buckets[ibucket].dist
      modifies buckets
      ensures s == old(buckets[ibucket]) && s.Used? && buckets[..] == old(buckets[..])[ibucket := Used(key, v, dist)]
      ensures Carrying(buckets[..], hash, goal, Next(ibucket, buckets.Length), s.key, s.value, s.dist + 1)
    {
      hide Table, Home, Next, UsedIn, Follows;
      SwapStep(buckets[..], hash, goal, ibucket, key, v, dist);
      s := buckets[ibucket];
      buckets[ibucket] := Used(key, v, dist);
    }

    /** Puts the entry in an occupied bucket, and carries what it displaces to the next bucket whose
        entry is closer to home, and so on until an empty one takes the last. */
    method InsertValue(ibucket0: nat, dist0: nat, key0: K, v0: V, ghost goal: map<K, V>)
      requires Shape() && bucketCount > 0 && UsedIn(buckets[..]) < buckets.Length
      requires Carrying(buckets[..], hash, goal, ibucket0, key0, v0, dist0)
      requires buckets[ibucket0].Used? && dist0 > buckets[ibucket0].dist
      modifies buckets, this`growOnNextInsert
      ensures Table(buckets[..], hash, goal) && buckets[ibucket0] == Used(key0, v0, dist0)
      ensures growOnNextInsert == (old(growOnNextInsert) || (LoadFactor() >= REHASH_MIN_LOAD_FACTOR
                                                             && Crowded(old(buckets[..]), buckets[..], ibucket0)))
    {
      hide Table, MaskFits, Home, LoadThreshold, Next, UsedIn, Follows, Gap, Crowded;
      ghost var n := buckets.Length;
      ghost var e := FreeSlot(buckets[..]);
      NotCrowdedYet(buckets[..], ibucket0, Used(key0, v0, dist0));
      var ibucket: nat, dist: nat, key, v := ibucket0, dist0, key0, v0;
      var s := SwapWithValueInBucket(ibucket, dist, key, v, goal);
      key, v, dist := s.key, s.value, s.dist;
      NextIsNext(ibucket);
      GapStep(ibucket, e, n);
      ibucket := NextBucket(ibucket);
      dist := dist + 1;
      while !buckets[ibucket].Free?
        invariant Carrying(buckets[..], hash, goal, ibucket, key, v, dist) && buckets[e].Free?
        invariant Gap(ibucket, e, n) < Gap(ibucket0, e, n) && buckets[ibucket0] == Used(key0, v0, dist0)
        invariant forall i :: 0 <= i < n && Gap(i, e, n) <= Gap(ibucket, e, n) ==> buckets[i] == old(buckets[i])
        invariant growOnNextInsert == (old(growOnNextInsert) || (LoadFactor() >= REHASH_MIN_LOAD_FACTOR
                                                                 && Crowded(old(buckets[..]), buckets[..], ibucket0)))
        decreases Gap(ibucket, e, n)
      {
        NextIsNext(ibucket);
        GapStep(ibucket, e, n);
        if dist > Dist(buckets[ibucket]) {
          if dist >= REHASH_ON_HIGH_NB_PROBES && LoadFactor() >= REHASH_MIN_LOAD_FACTOR {
            growOnNextInsert := true;
          }
          CrowdedStep(old(buckets[..]), buckets[..], ibucket0, ibucket, Used(key, v, dist));
          s := SwapWithValueInBucket(ibucket, dist, key, v, goal);
          key, v, dist := s.key, s.value, s.dist;
        } else {
          CarryPass(buckets[..], hash, goal, ibucket, key, v, dist);
        }
        ibucket := NextBucket(ibucket);
        dist := dist + 1;
      }
      CarryPlace(buckets[..], hash, goal, ibucket, key, v, dist);
      PlaceStep(buckets[..], ibucket, Used(key, v, dist));
      CrowdedStep(old(buckets[..]), buckets[..], ibucket0, ibucket, Used(key, v, dist));
      buckets[ibucket] := Used(key, v, dist);
    }

    function LoadFactor(): real
      reads this
    {
      Load(nbElements, bucketCount)
    }

    /** Inserts the pair unless the key is there. The table grows first if the last insertion asked for it
        or one more element would exceed the load factor; ok is false exactly if it then exceeds the
        largest table. The load factor is kept, but for an empty table that grows to one too small for it. */
    method Insert(key: K, v: V) returns (ok: bool, ibucket: nat, inserted: bool)
      requires Valid()
      modifies this, buckets
      ensures Valid() && (buckets == old(buckets) || fresh(buckets)) && maxLoadFactor == old(maxLoadFactor)
      ensures (ok ==> inserted == (key !in old(contents))) && (!ok ==> !inserted && key !in contents)
      ensures contents == if ok && inserted then old(contents)[key := v] else old(contents)
      ensures ok ==> HasKey(buckets[..], ibucket, key)
      ensures var wanted := growthFactor * if old(bucketCount) == 0 then 1 else old(bucketCount);
              var grows := old(growOnNextInsert)
                           || (old(nbElements) + 1) as real > old(bucketCount) as real * maxLoadFactor;
              && (ok <==> key in old(contents) || !grows || wanted <= 0x8000_0000_0000_0000)
              && (ok && inserted && grows ==> LeastPower(bucketCount, wanted))
              && (!(ok && inserted && grows) ==> bucketCount == old(bucketCount))
              && (ok && inserted && old(nbElements as real <= bucketCount as real * maxLoadFactor) ==>
                    (nbElements as real <= bucketCount as real * maxLoadFactor
                     <==> !grows || old(nbElements) > 0 || 1.0 <= bucketCount as real * maxLoadFactor))
    {
      hide Exact, Sloped, Agrees, UsedIn, MaskFits, Home, LoadThreshold, Next, Load, Crowded, LeastPower, Table,
           Allowed, Wanted, RobinHash.Shape;
      InNumbers(bucketCount, maxLoadFactor, growthFactor);
      ghost var base;
      ok, ibucket, inserted, base := InsertImpl(key, v);
      InNumbers(bucketCount, maxLoadFactor, growthFactor);
    }

    /** The insertion. ibucket is the key's bucket afterwards. The entry is put into the buckets base,
        those before the call or, after growing, others with the same contents; whether the next
        insertion is to grow depends on what had to be displaced there. */
    method InsertImpl(key: K, v: V) returns (ok: bool, ibucket: nat, inserted: bool, ghost base: Slots<K, V>)
      requires Valid()
      modifies this, buckets
      ensures Valid() && (buckets == old(buckets) || fresh(buckets)) && maxLoadFactor == old(maxLoadFactor)
      ensures (ok ==> inserted == (key !in old(contents))) && (!ok ==> !inserted && key !in contents)
      ensures contents == if ok && inserted then old(contents)[key := v] else old(contents)
      ensures ok ==> HasKey(buckets[..], ibucket, key)
      ensures var wanted := Wanted(old(bucketCount), growthFactor);
              var grows := old(growOnNextInsert || (nbElements + 1) as real > Allowed(bucketCount, maxLoadFactor));
              && (ok <==> key in old(contents) || !grows || wanted <= 0x8000_0000_0000_0000)
              && (ok && inserted && grows ==> LeastPower(bucketCount, wanted))
              && (!(ok && inserted && grows) ==> bucketCount == old(bucketCount))
              && (ok && inserted && !grows ==> base == old(buckets[..]))
              && (ok && inserted && old(nbElements as real <= Allowed(bucketCount, maxLoadFactor)) ==>
                    (nbElements as real <= Allowed(bucketCount, maxLoadFactor)
                     <==> !grows || old(nbElements) > 0 || 1.0 <= Allowed(bucketCount, maxLoadFactor)))
      ensures ok && inserted ==> Table(base, hash, old(contents))
      ensures ok && inserted ==> growOnNextInsert == (old(nbElements) as real >= 0.15 * bucketCount as real
                                                      && Crowded(base, buckets[..], ibucket))
      ensures !(ok && inserted) ==> growOnNextInsert == old(growOnNextInsert)
    {
      hide Exact, Sloped, Agrees, UsedIn, MaskFits, Home, LoadThreshold, BucketForHash, Next, NextBucketCount, Load,
           Crowded, LeastPower, Allowed, Wanted;
      var found, dist;
      base := buckets[..];
      found, ibucket, dist := FindImpl(key);
      if found {
        return true, ibucket, false, base;
      }
      var grown;
      ok, grown := GrowOnHighLoad();
      if !ok {
        return false, 0, false, base;
      }
      LoadIs(nbElements, bucketCount);
      if grown {
        if old(nbElements as real <= Allowed(bucketCount, maxLoadFactor)) {
          GrownIsLight(old(nbElements), old(bucketCount), bucketCount, maxLoadFactor);
        }
        NoSuchKey(buckets[..], hash, contents, key);
        ibucket, dist := Seek(hash(key), key);
      }
      base := buckets[..];
      Place(ibucket, dist, key, v);
      return true, ibucket, true, base;
    }

    /** The last part of an insertion: an empty bucket takes the entry, an occupied one is displaced. */
    method Place(ibucket: nat, dist: nat, key: K, v: V)
      requires Valid() && key !in contents && nbElements + 1 < bucketCount
      requires Stopped(buckets[..], hash(key), ibucket, dist)
      modifies buckets, this`growOnNextInsert, this`nbElements, this`contents
      ensures Valid() && contents == old(contents)[key := v] && HasKey(buckets[..], ibucket, key)
      ensures growOnNextInsert == (old(growOnNextInsert) || (old(LoadFactor()) >= REHASH_MIN_LOAD_FACTOR
                                                             && Crowded(old(buckets[..]), buckets[..], ibucket)))
    {
      hide Exact, Sloped, Agrees, UsedIn, MaskFits, Home, LoadThreshold, Next, Follows;
      ghost var goal := contents[key := v];
      StartCarrying(buckets[..], hash, contents, dist, key, v);
      MapGrows(contents, key, v);
      if buckets[ibucket].Free? {
        CarryPlace(buckets[..], hash, goal, ibucket, key, v, dist);
        PlaceStep(buckets[..], ibucket, Used(key, v, dist));
        buckets[ibucket] := Used(key, v, dist);
      } else {
        InsertValue(ibucket, dist, key, v, goal);
      }
      nbElements := nbElements + 1;
      contents := goal;
    }

    /** Grows when the last insertion asked for it, or when one more element would exceed the load factor;
        ok is false exactly if it then exceeds the largest table. */
    method GrowOnHighLoad() returns (ok: bool, grown: bool)
      requires Valid()
      modifies this
      ensures Valid() && contents == old(contents) && (ok && grown ==> fresh(buckets))
      ensures !(ok && grown) ==> unchanged(this)
      ensures ok ==> nbElements + 1 < bucketCount
      ensures grown <==> old(growOnNextInsert || (nbElements + 1) as real > Allowed(bucketCount, maxLoadFactor))
      ensures var wanted := Wanted(old(bucketCount), growthFactor);
              && (ok <==> !grown || wanted <= 0x8000_0000_0000_0000)
              && (ok && grown ==> LeastPower(bucketCount, wanted) && 2 * old(bucketCount) <= bucketCount)
      ensures (ok && grown ==> !growOnNextInsert) && maxLoadFactor == old(maxLoadFactor)
    {
      hide Table, LoadThreshold, LeastPower, Allowed;
      LoadBelow(bucketCount, maxLoadFactor);
      AtThreshold(nbElements, bucketCount, maxLoadFactor);
      if growOnNextInsert || nbElements >= loadThreshold {
        NextIsLarger(mask, bucketCount, growthFactor);
        var next := NextBucketCount(mask, growthFactor);
        if !next.0 {
          return false, true;
        }
        RehashImpl(next.1);
        growOnNextInsert := false;
        return true, true;
      }
      return true, false;
    }

    /** A table with no element. */
    constructor (count: nat, hash: K -> nat, growthFactor: nat, load: real)
      requires count <= MAX_BUCKET_COUNT && growthFactor >= 2
      ensures Valid() && fresh(buckets) && contents == map[] && !growOnNextInsert
      ensures LeastPower(bucketCount, count)
      ensures this.hash == hash && this.growthFactor == growthFactor && maxLoadFactor == ClampedLoad(load)
    {
      hide MaskFits, LoadThreshold, ClampedLoad, LeastPower;
      var ok, n, m := CreatePolicy(count);
      this.hash, this.growthFactor := hash, growthFactor;
      bucketCount, mask, nbElements, growOnNextInsert := n, m, 0, false;
      maxLoadFactor := ClampedLoad(load);
      loadThreshold := LoadThreshold(n, ClampedLoad(load));
      buckets := new Slot<K, V>[if n == 0 then 1 else n](_ => Free);
      contents := map[];
      new;
      EmptyTable(buckets[..], hash);
    }

    /** A table with no element, or null where the source throws: the bucket count is too large. */
    static method Create(count: nat, hash: K -> nat, growthFactor: nat, load: real) returns (t: RobinHash?<K, V>)
      requires growthFactor >= 2
      ensures t == null <==> count > 0x8000_0000_0000_0000
      ensures t != null ==> fresh(t) && t.Valid() && fresh(t.buckets) && t.contents == map[] && !t.growOnNextInsert
      ensures t != null ==> LeastPower(t.bucketCount, count)
      ensures t != null ==> t.hash == hash && t.growthFactor == growthFactor && t.maxLoadFactor == ClampedLoad(load)
    {
      hide Table, MaskFits, LoadThreshold, ClampedLoad;
      if count > MAX_BUCKET_COUNT {
        return null;
      }
      t := new RobinHash<K, V>(count, hash, growthFactor, load);
    }

    /** Moves every entry into a new table of at least count buckets. */
    method RehashImpl(count: nat)
      requires Valid() && count <= MAX_BUCKET_COUNT && (nbElements < count || nbElements == 0)
      modifies this
      ensures Valid() && fresh(buckets) && contents == old(contents) && nbElements == old(nbElements)
      ensures LeastPower(bucketCount, count) && bucketCount >= count && maxLoadFactor == old(maxLoadFactor)
    {
      hide Table, MaskFits, LoadThreshold, ClampedLoad, LeastPower;
      var t := new RobinHash<K, V>(count, hash, growthFactor, maxLoadFactor);
      LeastPowerIs(t.bucketCount, count);
      ClampKeeps(maxLoadFactor);
      CopyTo(t);
      t.nbElements := nbElements;
      buckets, bucketCount, mask, loadThreshold := t.buckets, t.bucketCount, t.mask, t.loadThreshold;
      maxLoadFactor, growOnNextInsert := t.maxLoadFactor, t.growOnNextInsert;
    }

    /** Inserts the entry of every used bucket. */
    method CopyTo(t: RobinHash<K, V>)
      requires Valid() && t.Valid() && t != this && t.buckets != buckets && t.hash == hash && t.contents == map[]
      requires nbElements < t.bucketCount || nbElements == 0
      modifies t.buckets, t`contents
      ensures t.Shape() && Table(t.buckets[..], hash, t.contents) && t.contents == contents
    {
      hide Exact, Sloped, Agrees, MaskFits, LoadThreshold, MovedTo, UsedIn;
      MovedNothing(t.contents, contents, buckets[..]);
      var m := if bucketCount == 0 then 0 else buckets.Length;
      for i := 0 to m
        invariant t.Shape() && Table(t.buckets[..], hash, t.contents) && MovedTo(t.contents, contents, buckets[..], i)
      {
        var s := buckets[i];
        MoveEntry(t.contents, contents, hash, buckets[..], i);
        if s.Free? {
          continue;
        }
        t.InsertValueOnRehash(BucketForHash(t.mask, hash(s.key)), 0, s.key, s.value);
      }
      AllMoved(t.contents, contents, buckets[..], bucketCount);
    }

    /** From the ideal bucket on, the entry takes the first empty bucket, displacing on its way. */
    method InsertValueOnRehash(ibucket0: nat, dist0: nat, key0: K, v0: V)
      requires Shape() && Table(buckets[..], hash, contents) && key0 !in contents && |contents| + 1 < bucketCount
      requires ibucket0 == BucketForHash(mask, hash(key0)) && dist0 == 0
      modifies buckets, this`contents
      ensures Table(buckets[..], hash, contents) && contents == old(contents)[key0 := v0]
    {
      hide Table, MaskFits, Home, LoadThreshold, Next, UsedIn, Follows, BucketForHash;
      HomeIsHome(hash(key0));
      UsedBelow(buckets[..], hash, contents, bucketCount);
      StartCarrying(buckets[..], hash, contents, 0, key0, v0);
      ghost var n := buckets.Length;
      ghost var e := FreeSlot(buckets[..]);
      ghost var goal := contents[key0 := v0];
      var ibucket: nat, dist: nat, key, v := ibucket0, dist0, key0, v0;
      while true
        invariant Carrying(buckets[..], hash, goal, ibucket, key, v, dist) && buckets[e].Free?
        decreases Gap(ibucket, e, n)
      {
        if dist > Dist(buckets[ibucket]) {
          if buckets[ibucket].Free? {
            CarryPlace(buckets[..], hash, goal, ibucket, key, v, dist);
            PlaceStep(buckets[..], ibucket, Used(key, v, dist));
            buckets[ibucket] := Used(key, v, dist);
            contents := goal;
            return;
          }
          var s := SwapWithValueInBucket(ibucket, dist, key, v, goal);
          key, v, dist := s.key, s.value, s.dist;
        } else {
          CarryPass(buckets[..], hash, goal, ibucket, key, v, dist);
        }
        NextIsNext(ibucket);
        GapStep(ibucket, e, n);
        dist := dist + 1;
        ibucket := NextBucket(ibucket);
      }
    }

    /** table[key] = v: operator[] inserts a default value if the key is new, and the assignment
        overwrites the value in its bucket. */
    method Assign(key: K, v: V, default: V) returns (ok: bool)
      requires Valid()
      modifies this, buckets
      ensures Valid() && (buckets == old(buckets) || fresh(buckets))
      ensures contents == if ok then old(contents)[key := v] else old(contents)
      ensures ok <==> key in old(contents)
                      || (!old(growOnNextInsert)
                          && (old(nbElements) + 1) as real <= old(bucketCount) as real * old(maxLoadFactor))
                      || growthFactor * (if old(bucketCount) == 0 then 1 else old(bucketCount)) <= 0x8000_0000_0000_0000
    {
      hide Table, MaskFits, LoadThreshold, NextBucketCount, LeastPower;
      var ibucket, inserted;
      ok, ibucket, inserted := Insert(key, default);
      if ok {
        SetValue(ibucket, key, v);
      }
    }

    method SetValue(ibucket: nat, key: K, v: V)
      requires Valid() && HasKey(buckets[..], ibucket, key)
      modifies buckets, this`contents
      ensures Valid() && contents == old(contents)[key := v]
    {
      hide Exact, Sloped, Agrees, UsedIn, MaskFits, LoadThreshold;
      KeyFound(buckets[..], hash, contents, ibucket);
      ValueSet(buckets[..], hash, contents, ibucket, v);
      assert contents[key := v].Keys == contents.Keys;
      buckets[ibucket] := buckets[ibucket].(value := v);
      contents := contents[key := v];
    }

    /** Erases the key; n is the number of keys erased. */
    method EraseKey(key: K) returns (n: nat)
      requires Valid()
      modifies buckets, this`nbElements, this`contents
      ensures Valid() && n == (if key in old(contents) then 1 else 0) && contents == old(contents) - {key}
    {
      hide Table, MaskFits, LoadThreshold;
      var found, ibucket, dist := FindImpl(key);
      if !found {
        assert contents - {key} == contents;
        return 0;
      }
      EraseFromBucket(ibucket);
      return 1;
    }

    /** Empties the bucket, then moves each following entry that is not in its ideal bucket one back. */
    method EraseFromBucket(pos: nat)
      requires Valid() && pos < buckets.Length && buckets[pos].Used?
      modifies buckets, this`nbElements, this`contents
      ensures Valid() && contents == old(contents) - {old(buckets[pos].key)}
    {
      hide Table, MaskFits, LoadThreshold, Next, Hole, UsedIn;
      KeyOf(buckets[..], hash, contents, pos);
      UsedBelow(buckets[..], hash, contents, bucketCount);
      ghost var n := buckets.Length;
      ghost var e := FreeSlot(buckets[..]);
      MapShrinks(contents, buckets[pos].key);
      HoleStart(buckets[..], hash, contents, pos);
      contents := contents - {buckets[pos].key};
      buckets[pos] := Free;
      nbElements := nbElements - 1;
      var previous := pos;
      NextIsNext(previous);
      GapStep(previous, e, n);
      var ibucket := NextBucket(previous);
      while Dist(buckets[ibucket]) > 0
        invariant previous < n && ibucket == Next(previous, n) && Hole(buckets[..], hash, contents, previous)
        invariant buckets[e].Free? && previous != e
        modifies buckets
        decreases Gap(previous, e, n)
      {
        HoleMove(buckets[..], hash, contents, previous);
        var s := buckets[ibucket];
        HoleIsFree(buckets[..], hash, contents, previous);
        buckets[previous] := Used(s.key, s.value, s.dist - 1);
        buckets[ibucket] := Free;
        GapStep(previous, e, n);
        NextIsNext(ibucket);
        previous := ibucket;
        ibucket := NextBucket(ibucket);
      }
      HoleEnd(buckets[..], hash, contents, previous);
    }

    method Clear()
      requires Valid()
      modifies buckets, this`nbElements, this`growOnNextInsert, this`contents
      ensures Valid() && contents == map[] && !growOnNextInsert
    {
      hide MaskFits, LoadThreshold;
      for i := 0 to buckets.Length
        invariant forall j :: 0 <= j < i ==> buckets[j].Free?
      {
        buckets[i] := Free;
      }
      nbElements, growOnNextInsert, contents := 0, false, map[];
      EmptyTable(buckets[..], hash);
    }

    /** Rehashes to at least count buckets, and to at least what the load factor asks for. */
    method Rehash(count: nat) returns (ok: bool)
      requires Valid()
      modifies this
      ensures Valid() && contents == old(contents)
      ensures ok <==> LeastBuckets(count, old(nbElements), old(maxLoadFactor)) <= 0x8000_0000_0000_0000
      ensures ok ==> fresh(buckets) && LeastPower(bucketCount, LeastBuckets(count, old(nbElements), old(maxLoadFactor)))
      ensures maxLoadFactor == old(maxLoadFactor)
      ensures !ok ==> unchanged(this)
    {
      hide Table, MaskFits, LoadThreshold, LeastPower;
      var least := LeastBuckets(count, nbElements, maxLoadFactor);
      EnoughRoom(nbElements, maxLoadFactor);
      if least > MAX_BUCKET_COUNT {
        return false;
      }
      RehashImpl(least);
      return true;
    }
  }

  /** The load factor is not always kept: with a factor of 0.1 the first element of an empty table grows it
      to 2 buckets, which is one element too many for them. */
  method TooSmallAtFirst(hash: nat -> nat) returns (t: RobinHash<nat, nat>)
    ensures t.Valid() && t.nbElements == 1 && t.maxLoadFactor == 0.1
    ensures t.nbElements as real > t.bucketCount as real * t.maxLoadFactor
  {
    hide Table, LeastPower, RobinHash.Shape;
    var created := RobinHash<nat, nat>.Create(0, hash, 2, 0.1);
    if created != null { LeastPowerIs(created.bucketCount, 0); }
    assert created != null && created.bucketCount == 0;
    t := created;
    var ok, b, inserted := t.Insert(7, 7);
    OnlyTwo(t.bucketCount);
  }

  function Load(nbElements: nat, bucketCount: nat): real {
    if bucketCount == 0 then 0.0 else nbElements as real / bucketCount as real
  }

  lemma LoadIs(nbElements: nat, bucketCount: nat)
    requires nbElements < bucketCount
    ensures Load(nbElements, bucketCount) >= REHASH_MIN_LOAD_FACTOR
            <==> nbElements as real >= 0.15 * bucketCount as real
  {
    var a, b := nbElements as real, bucketCount as real;
    var q := a / b;
    QuotientIs(a, b);
    AtLeastTimes(q, 0.15, b);
    assert q >= 0.15 <==> a >= 0.15 * b;
    assert Load(nbElements, bucketCount) == q;
  }

  lemma QuotientIs(a: real, b: real)
    requires b > 0.0
    ensures a / b * b == a
  {
  }

  lemma AtLeastTimes(q: real, r: real, b: real)
    requires b > 0.0
    ensures q >= r <==> q * b >= r * b
  {
    var d := q - r;
    assert q * b == r * b + d * b;
    if d > 0.0 {
      Positive(d, b);
    } else if d < 0.0 {
      Positive(-d, b);
      assert d * b == -(-d * b);
    }
  }

  /** An entry other than the new one, in bucket b, took over a bucket far from its home. */
  ghost predicate Crowded<K, V>(was: Slots<K, V>, t: Slots<K, V>, b: nat) {
    |was| == |t| && exists i :: 0 <= i < |t| && i != b && Took(was, t, i)
  }

  ghost predicate Took<K, V>(was: Slots<K, V>, t: Slots<K, V>, i: nat)
    requires i < |t| == |was|
  {
    was[i].Used? && t[i].Used? && t[i] != was[i] && t[i].dist >= 128
  }

  lemma NotCrowdedYet<K, V>(was: Slots<K, V>, b: nat, s: Slot<K, V>)
    requires b < |was|
    ensures !Crowded(was, was[b := s], b)
  {
  }

  lemma CrowdedStep<K, V>(was: Slots<K, V>, t: Slots<K, V>, b: nat, ib: nat, s: Slot<K, V>)
    requires ib < |t| == |was| && ib != b && t[ib] == was[ib] && s.Used? && s.dist as int > Dist(was[ib])
    ensures Crowded(was, t[ib := s], b)
            <==> Crowded(was, t, b) || (was[ib].Used? && s.dist >= REHASH_ON_HIGH_NB_PROBES)
  {
    var t' := t[ib := s];
    if i :| 0 <= i < |t| && i != b && Took(was, t, i) {
      assert Took(was, t', i);
    }
    if was[ib].Used? && s.dist >= REHASH_ON_HIGH_NB_PROBES {
      assert Took(was, t', ib);
    }
    if i :| 0 <= i < |t| && i != b && i != ib && Took(was, t', i) {
      assert Took(was, t, i);
    }
  }

  lemma UsedBelow<K, V>(t: Slots<K, V>, hash: K -> nat, contents: map<K, V>, n: nat)
    requires Table(t, hash, contents) && |contents| < n == |t|
    ensures UsedIn(t) < |t|
  {
  }

  lemma KeyOf<K, V>(t: Slots<K, V>, hash: K -> nat, contents: map<K, V>, i: nat)
    requires Table(t, hash, contents) && i < |t| && t[i].Used?
    ensures t[i].key in contents && |contents| > 0
  {
    UsedPrefix(t, i);
  }

  lemma HoleIsFree<K, V>(t: Slots<K, V>, hash: K -> nat, contents: map<K, V>, pp: nat)
    requires Hole(t, hash, contents, pp)
    ensures t[pp].Free?
  {
  }

  /** The next bucket after a displacement, with the table updated there. */
  lemma SwapStep<K, V>(t: Slots<K, V>, hash: K -> nat, contents: map<K, V>, ib: nat, key: K, v: V, d: nat)
    requires Carrying(t, hash, contents, ib, key, v, d) && t[ib].Used? && d > t[ib].dist
    ensures Carrying(t[ib := Used(key, v, d)], hash, contents, Next(ib, |t|), t[ib].key, t[ib].value, t[ib].dist + 1)
  {
    CarrySwap(t, hash, contents, ib, key, v, d);
  }

  lemma PlaceStep<K, V>(t: Slots<K, V>, ib: nat, s: Slot<K, V>)
    requires ib < |t| && s.Used?
    ensures HasKey(t[ib := s], ib, s.key)
  {
  }

  lemma NoSuchKey<K, V>(t: Slots<K, V>, hash: K -> nat, contents: map<K, V>, key: K)
    requires Table(t, hash, contents) && key !in contents
    ensures forall i :: 0 <= i < |t| ==> !HasKey(t, i, key)
  {
  }

  lemma ClampKeeps(load: real)
    requires 0.1 <= load <= 0.95
    ensures ClampedLoad(load) == load
  {
  }

  /** The entries of the first k slots, and no others, have been moved. */
  ghost predicate MovedTo<K, V>(to: map<K, V>, from: map<K, V>, t: Slots<K, V>, k: nat) {
    && k <= |t| && |to| == UsedIn(t[..k])
    && (forall key :: key in to ==> key in from && to[key] == from[key])
    && (forall key :: key in to ==> exists i: nat :: i < k && HasKey(t, i, key))
  }

  lemma MovedNothing<K, V>(to: map<K, V>, from: map<K, V>, t: Slots<K, V>)
    requires to == map[]
    ensures MovedTo(to, from, t, 0)
  {
  }

  lemma MoveEntry<K, V>(to: map<K, V>, from: map<K, V>, hash: K -> nat, t: Slots<K, V>, k: nat)
    requires MovedTo(to, from, t, k) && Agrees(t, from) && k < |t|
    ensures t[k].Free? ==> MovedTo(to, from, t, k + 1)
    ensures t[k].Used? ==> t[k].key !in to && MovedTo(to[t[k].key := t[k].value], from, t, k + 1) && |to| < UsedIn(t)
  {
    hide UsedIn, Agrees;
    UsedPrefix(t, k);
    UsedNext(t, k);
    if t[k].Used? {
      var key0, to' := t[k].key, to[t[k].key := t[k].value];
      FirstMove(to, from, t, k);
      MapGrows(to, key0, t[k].value);
      forall key | key in to' ensures exists i: nat :: i < k + 1 && HasKey(t, i, key) {
        if key == key0 {
          assert HasKey(t, k, key);
        } else {
          var i: nat :| i < k && HasKey(t, i, key);
        }
      }
    }
  }

  lemma FirstMove<K, V>(to: map<K, V>, from: map<K, V>, t: Slots<K, V>, k: nat)
    requires Agrees(t, from) && k < |t| && t[k].Used?
    requires forall key :: key in to ==> exists i: nat :: i < k && HasKey(t, i, key)
    ensures t[k].key !in to && t[k].key in from && from[t[k].key] == t[k].value
  {
  }

  lemma UsedNext<K, V>(t: Slots<K, V>, k: nat)
    requires k < |t|
    ensures UsedIn(t[..k + 1]) == UsedIn(t[..k]) + if t[k].Used? then 1 else 0
  {
    assert t[..k + 1][..k] == t[..k];
  }

  lemma {:induction false} UsedPrefixGrows<K, V>(t: Slots<K, V>, k: nat, m: nat)
    requires k <= m <= |t|
    ensures UsedIn(t[..k]) <= UsedIn(t[..m])
  {
    if k < m {
      UsedPrefixGrows(t, k, m - 1);
      assert t[..m][..m - 1] == t[..m - 1];
    }
  }

  lemma UsedPrefix<K, V>(t: Slots<K, V>, k: nat)
    requires k < |t|
    ensures UsedIn(t[..k]) <= UsedIn(t) && (t[k].Used? ==> UsedIn(t[..k]) < UsedIn(t))
  {
    UsedPrefixGrows(t, k + 1, |t|);
    assert t[..k + 1][..k] == t[..k] && t[..|t|] == t;
  }

  lemma AllMoved<K, V>(to: map<K, V>, from: map<K, V>, t: Slots<K, V>, n: nat)
    requires UsedIn(t) == |from| && |t| == (if n == 0 then 1 else n) && (n == 0 ==> |from| == 0)
    requires MovedTo(to, from, t, if n == 0 then 0 else |t|)
    ensures to == from
  {
    assert t[..|t|] == t;
    SameSizeSameMap(to, from);
  }

  /** Where a search for a bucket for an entry with hash h has stopped. */
  ghost predicate Stopped<K, V>(t: Slots<K, V>, h: nat, ibucket: nat, dist: nat) {
    && ibucket < |t| && ibucket == Home(h, dist, |t|) && dist > Dist(t[ibucket])
    && (dist == 0 || dist - 1 <= Dist(t[Home(h, dist - 1, |t|)]))
  }

  lemma SearchNothing<K, V>(t: Slots<K, V>, h: nat, key: K)
    requires |t| > 0
    ensures Searched(t, h, 0, key)
  {
  }

  lemma KeyFound<K, V>(t: Slots<K, V>, hash: K -> nat, contents: map<K, V>, i: nat)
    requires Table(t, hash, contents) && i < |t| && t[i].Used?
    ensures t[i].key in contents && contents[t[i].key] == t[i].value
  {
  }
}
