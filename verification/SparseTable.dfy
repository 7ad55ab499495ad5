/** The buckets of a sparse hash table as a sequence of cells, and what every operation keeps: a key
    is found on its probe sequence before the first empty bucket. */
module SparseTable {
  import opened GrowthPolicy
  import opened Probing
  import opened SparseArrays
  import P = Popcount

  type Entry<K, V> = (K, V)
  type Cells<K, V> = seq<Cell<Entry<K, V>>>

  /** Bucket b is the p-th probe from h, and no probe before it is empty. */
  ghost predicate Trail<K, V>(cells: Cells<K, V>, h: nat, n: nat, p: nat, b: nat)
    requires 0 < n <= |cells|
  {
    p < n && Probe(h, p, n) == b && forall q :: 0 <= q < p ==> !cells[Probe(h, q, n)].Empty?
  }

  ghost predicate Holds<K, V>(cells: Cells<K, V>, b: nat, key: K) {
    b < |cells| && cells[b].Full? && cells[b].value.0 == key
  }

  /** The table is the map: each full bucket is an entry of the map and on its key's trail, each entry
      is in a bucket, and no key is in two. */
  ghost predicate Sound<K, V>(cells: Cells<K, V>, n: nat, hash: K -> nat, contents: map<K, V>) {
    && n <= |cells| && (n == 0 || IsPow2(n))
    && (forall b :: n <= b < |cells| ==> cells[b].Empty?)
    && (forall b :: 0 <= b < n && cells[b].Full? ==>
          cells[b].value.0 in contents && contents[cells[b].value.0] == cells[b].value.1)
    && (forall b :: 0 <= b < n && cells[b].Full? ==> exists p :: Trail(cells, hash(cells[b].value.0), n, p, b))
    && (forall key :: key in contents ==> exists b :: 0 <= b < n && Holds(cells, b, key))
    && (forall a, b :: 0 <= a < n && 0 <= b < n && cells[a].Full? && cells[b].Full? && a != b ==>
          cells[a].value.0 != cells[b].value.0)
  }

  /** None of the first p probes of a key holds it or is empty. */
  ghost predicate Passed<K, V>(cells: Cells<K, V>, n: nat, h: nat, p: nat, key: K)
    requires 0 < n <= |cells|
  {
    && (forall q :: 0 <= q < p ==> !Holds(cells, Probe(h, q, n), key))
    && (forall q :: 0 <= q < p && q < n ==> !cells[Probe(h, q, n)].Empty?)
    && (forall q :: n <= q < p ==> cells[Probe(h, q, n)].Full?)
  }

  lemma PassOne<K, V>(cells: Cells<K, V>, n: nat, h: nat, p: nat, key: K)
    requires 0 < n <= |cells| && Passed(cells, n, h, p, key) && !Holds(cells, Probe(h, p, n), key)
    requires if p < n then !cells[Probe(h, p, n)].Empty? else cells[Probe(h, p, n)].Full?
    ensures Passed(cells, n, h, p + 1, key)
  {
    hide Probe, Holds;
  }

  /** A key of the map is held by some probe, with no empty bucket before it. */
  lemma Located<K, V>(cells: Cells<K, V>, n: nat, hash: K -> nat, contents: map<K, V>, key: K) returns (r: nat)
    requires Sound(cells, n, hash, contents) && n > 0 && key in contents
    ensures r < n && Holds(cells, Probe(hash(key), r, n), key)
    ensures forall q :: 0 <= q < r ==> !cells[Probe(hash(key), q, n)].Empty?
  {
    hide Probe;
    var b :| 0 <= b < n && Holds(cells, b, key);
    r :| Trail(cells, hash(cells[b].value.0), n, r, b);
  }

  /** The search may stop at an empty bucket, and at a deleted one once it has seen every bucket. */
  lemma Absent<K, V>(cells: Cells<K, V>, n: nat, hash: K -> nat, contents: map<K, V>, p: nat, key: K)
    requires Sound(cells, n, hash, contents) && n > 0 && Passed(cells, n, hash(key), p, key)
    requires !cells[Probe(hash(key), p, n)].Full? && (cells[Probe(hash(key), p, n)].Empty? || p >= n)
    ensures key !in contents
  {
    hide Probe, Sound;
    if key in contents {
      var r := Located(cells, n, hash, contents, key);
    }
  }

  /** A table with a bucket that is not full ends every search before the 2n-th probe, and if that
      bucket is empty, before the n-th. */
  lemma SearchEnds<K, V>(cells: Cells<K, V>, n: nat, h: nat, p: nat, key: K, b: nat)
    requires 0 < n <= |cells| && IsPow2(n) && Passed(cells, n, h, p, key) && b < n && !cells[b].Full?
    ensures p < 2 * n && (cells[b].Empty? ==> p < n)
  {
    hide Probe;
    var k: nat :| n == Pow2(k);
    var q := ProbesCover(h, k, b);
    ProbesMirror(h, q, n);
    var r := 2 * n - 1 - q;
    assert n <= r && Probe(h, r, n) == b;
  }

  // ----- counting -----------------------------------------------------------------------------

  /** The values of the full cells, in bucket order. */
  ghost function FullsOf<T>(cells: seq<Cell<T>>): seq<T> {
    if cells == [] then []
    else FullsOf(cells[..|cells| - 1]) + if cells[|cells| - 1].Full? then [cells[|cells| - 1].value] else []
  }

  ghost function DeletedIn<T>(cells: seq<Cell<T>>): nat {
    if cells == [] then 0 else DeletedIn(cells[..|cells| - 1]) + if cells[|cells| - 1].Deleted? then 1 else 0
  }

  /** A table with fewer elements and tombstones than buckets has an empty bucket. */
  lemma {:induction false} EmptyBucket<T>(cells: seq<Cell<T>>, n: nat) returns (b: nat)
    requires n <= |cells| && |FullsOf(cells)| + DeletedIn(cells) < n
    requires forall b :: n <= b < |cells| ==> cells[b].Empty?
    ensures b < n && cells[b].Empty?
  {
    if n < |cells| {
      b := EmptyBucket(cells[..|cells| - 1], n);
    } else if cells[n - 1].Empty? {
      b := n - 1;
    } else {
      b := EmptyBucket(cells[..n - 1], n - 1);
    }
  }

  /** A table that is not full has a bucket that is not. */
  lemma {:induction false} NotFullBucket<T>(cells: seq<Cell<T>>, n: nat) returns (b: nat)
    requires n <= |cells| && |FullsOf(cells)| < n && forall b :: n <= b < |cells| ==> cells[b].Empty?
    ensures b < n && !cells[b].Full?
  {
    if n < |cells| {
      b := NotFullBucket(cells[..|cells| - 1], n);
    } else if cells[n - 1].Full? {
      b := NotFullBucket(cells[..n - 1], n - 1);
    } else {
      b := n - 1;
    }
  }

  lemma {:induction false} CountsUpdate<T>(cells: seq<Cell<T>>, b: nat, c: Cell<T>)
    requires b < |cells|
    ensures |FullsOf(cells[b := c])| == |FullsOf(cells)| - (if cells[b].Full? then 1 else 0) + if c.Full? then 1 else 0
    ensures DeletedIn(cells[b := c]) == DeletedIn(cells) - (if cells[b].Deleted? then 1 else 0) + if c.Deleted? then 1
              else 0
  {
    var m := |cells| - 1;
    if b < m {
      CountsUpdate(cells[..m], b, c);
      assert cells[b := c][..m] == cells[..m][b := c];
    } else {
      assert cells[b := c][..m] == cells[..m];
    }
  }

  lemma {:induction false} FullsOfEmpty<T>(cells: seq<Cell<T>>)
    requires forall b :: 0 <= b < |cells| ==> cells[b].Empty?
    ensures FullsOf(cells) == [] && DeletedIn(cells) == 0
  {
    if cells != [] {
      FullsOfEmpty(cells[..|cells| - 1]);
    }
  }

  lemma {:induction false} FullsOfConcat<T>(a: seq<Cell<T>>, b: seq<Cell<T>>)
    ensures FullsOf(a + b) == FullsOf(a) + FullsOf(b)
  {
    if b == [] {
      assert a + b == a;
    } else {
      var m := |b| - 1;
      FullsOfConcat(a, b[..m]);
      assert (a + b)[..|a| + m] == a + b[..m];
    }
  }

  /** Every listed value is in a full cell. */
  lemma {:induction false} FullsOfIndex<T>(cells: seq<Cell<T>>, i: nat) returns (b: nat)
    requires i < |FullsOf(cells)|
    ensures b < |cells| && cells[b] == Full(FullsOf(cells)[i])
  {
    var m := |cells| - 1;
    if i < |FullsOf(cells[..m])| {
      b := FullsOfIndex(cells[..m], i);
    } else {
      b := m;
    }
  }

  lemma {:induction false} FullsDistinct<K, V>(cells: Cells<K, V>, i: nat, j: nat)
    requires forall a, b :: 0 <= a < b < |cells| && cells[a].Full? && cells[b].Full? ==>
               cells[a].value.0 != cells[b].value.0
    requires i < j < |FullsOf(cells)|
    ensures FullsOf(cells)[i].0 != FullsOf(cells)[j].0
  {
    var m := |cells| - 1;
    if j < |FullsOf(cells[..m])| {
      FullsDistinct(cells[..m], i, j);
    } else {
      var a := FullsOfIndex(cells[..m], i);
      assert cells[a] == cells[..m][a];
    }
  }

  /** The packed values of a sparse array are the values of its full cells, in bucket order. */
  lemma {:induction false} PackedIsFulls<T>(values: seq<T>, vals: bv64, deleted: bv64, cells: seq<Cell<T>>, k: nat)
    requires Packed(values, vals, deleted, cells) && k <= 64
    ensures P.Ones(vals, k) <= |values| && FullsOf(cells[..k]) == values[..P.Ones(vals, k)]
  {
    hide P.Has;
    P.OnesGrow(vals, k, 64);
    if k > 0 {
      PackedIsFulls(values, vals, deleted, cells, k - 1);
      assert cells[..k][..k - 1] == cells[..k - 1];
    } else {
      OnesNothing(vals);
    }
  }

  lemma PackedAll<T>(values: seq<T>, vals: bv64, deleted: bv64, cells: seq<Cell<T>>)
    requires Packed(values, vals, deleted, cells)
    ensures FullsOf(cells) == values
  {
    hide P.Has, P.Ones, FullsOf;
    PackedIsFulls(values, vals, deleted, cells, 64);
    assert cells[..64] == cells;
  }

  // ----- what the operations keep -------------------------------------------------------------

  lemma NothingIsSound<K, V>(cells: Cells<K, V>, n: nat, hash: K -> nat)
    requires n <= |cells| && (n == 0 || IsPow2(n)) && forall b :: 0 <= b < |cells| ==> cells[b].Empty?
    ensures Sound(cells, n, hash, map[])
  {
  }

  lemma TrailKept<K, V>(cells: Cells<K, V>, cells': Cells<K, V>, h: nat, n: nat, p: nat, b: nat)
    requires 0 < n <= |cells| == |cells'| && Trail(cells, h, n, p, b)
    requires forall a :: 0 <= a < |cells| && !cells[a].Empty? ==> !cells'[a].Empty?
    ensures Trail(cells', h, n, p, b)
  {
    hide Probe;
  }

  /** Storing a new key in a bucket that holds no value, on its trail. */
  lemma StoreSound<K, V>(cells: Cells<K, V>, n: nat, hash: K -> nat, contents: map<K, V>, p: nat, key: K, v: V)
    requires Sound(cells, n, hash, contents) && key !in contents && p < n
    requires !cells[Probe(hash(key), p, n)].Full?
    requires forall q :: 0 <= q < p ==> !cells[Probe(hash(key), q, n)].Empty?
    ensures Sound(cells[Probe(hash(key), p, n) := Full((key, v))], n, hash, contents[key := v])
  {
    hide Probe, Trail;
    var b := Probe(hash(key), p, n);
    var cells', contents' := cells[b := Full((key, v))], contents[key := v];
    forall a | 0 <= a < n && cells'[a].Full? ensures exists r :: Trail(cells', hash(cells'[a].value.0), n, r, a) {
      if a == b {
        StoredTrail(cells', hash(key), n, p, b);
      } else {
        var r :| Trail(cells, hash(cells[a].value.0), n, r, a);
        TrailKept(cells, cells', hash(cells[a].value.0), n, r, a);
      }
    }
    forall k | k in contents' ensures exists a :: 0 <= a < n && Holds(cells', a, k) {
      if k == key {
        assert Holds(cells', b, k);
      } else {
        var a :| 0 <= a < n && Holds(cells, a, k);
        assert Holds(cells', a, k);
      }
    }
  }

  lemma StoredTrail<K, V>(cells: Cells<K, V>, h: nat, n: nat, p: nat, b: nat)
    requires 0 < n <= |cells| && p < n && Probe(h, p, n) == b
    requires forall q :: 0 <= q < p ==> !cells[Probe(h, q, n)].Empty?
    ensures Trail(cells, h, n, p, b)
  {
  }

  /** Erasing a key leaves a deleted bucket, which no trail minds. */
  lemma EraseSound<K, V>(cells: Cells<K, V>, n: nat, hash: K -> nat, contents: map<K, V>, b: nat, key: K)
    requires Sound(cells, n, hash, contents) && b < n && Holds(cells, b, key)
    ensures key in contents && Sound(cells[b := Deleted], n, hash, contents - {key})
  {
    hide Trail;
    var cells': Cells<K, V> := cells[b := Deleted];
    forall a | 0 <= a < n && cells'[a].Full? ensures exists r :: Trail(cells', hash(cells'[a].value.0), n, r, a) {
      var r :| Trail(cells, hash(cells[a].value.0), n, r, a);
      TrailKept(cells, cells', hash(cells[a].value.0), n, r, a);
    }
    forall k | k in contents - {key} ensures exists a :: 0 <= a < n && Holds(cells', a, k) {
      var a :| 0 <= a < n && Holds(cells, a, k);
      assert Holds(cells', a, k);
    }
  }
}
