/** The buckets of a Robin Hood hash table as a sequence of slots around a circle, each entry with its
    distance from its ideal bucket. */
module RobinTable {
  import opened GrowthPolicy
  import opened Probing
  import opened TableCommon

  datatype Slot<K, V> = Free | Used(key: K, value: V, dist: nat)

  type Slots<K, V> = seq<Slot<K, V>>

  /** The distance as the code compares it: -1 for an empty bucket. */
  function Dist<K, V>(s: Slot<K, V>): int {
    if s.Free? then -1 else s.dist
  }

  function Next(i: nat, n: nat): (j: nat)
    requires n > 0
    ensures j < n
  {
    (i + 1) % n
  }

  /** The bucket d steps after the ideal one. */
  function Home(h: nat, d: nat, n: nat): (j: nat)
    requires n > 0
    ensures j < n
  {
    (h + d) % n
  }

  ghost predicate Exact<K, V>(t: Slots<K, V>, hash: K -> nat) {
    forall i :: 0 <= i < |t| && t[i].Used? ==> Home(hash(t[i].key), t[i].dist, |t|) == i
  }

  ghost predicate SlopedAt<K, V>(t: Slots<K, V>, i: nat)
    requires i < |t|
  {
    Dist(t[Next(i, |t|)]) <= Dist(t[i]) + 1
  }

  ghost predicate Sloped<K, V>(t: Slots<K, V>) {
    forall i :: 0 <= i < |t| ==> SlopedAt(t, i)
  }

  ghost predicate HasKey<K, V>(t: Slots<K, V>, i: nat, key: K) {
    i < |t| && t[i].Used? && t[i].key == key
  }

  /** The used slots are exactly the entries of the map, each once. */
  ghost predicate Agrees<K, V>(t: Slots<K, V>, contents: map<K, V>) {
    && (forall i :: 0 <= i < |t| && t[i].Used? ==> t[i].key in contents && contents[t[i].key] == t[i].value)
    && (forall key :: key in contents ==> exists i :: HasKey(t, i, key))
    && (forall i, j :: 0 <= i < |t| && 0 <= j < |t| && i != j && t[i].Used? && t[j].Used? ==> t[i].key != t[j].key)
  }

  ghost function UsedIn<K, V>(t: Slots<K, V>): (n: nat)
    ensures n <= |t|
  {
    if t == [] then 0 else UsedIn(t[..|t| - 1]) + if t[|t| - 1].Used? then 1 else 0
  }

  /** What every operation keeps. */
  ghost predicate Table<K, V>(t: Slots<K, V>, hash: K -> nat, contents: map<K, V>) {
    Exact(t, hash) && Sloped(t) && Agrees(t, contents) && UsedIn(t) == |contents|
  }

  // ----- counting -----------------------------------------------------------------------------

  lemma {:induction false} UsedUpdate<K, V>(t: Slots<K, V>, i: nat, s: Slot<K, V>)
    requires i < |t|
    ensures UsedIn(t[i := s]) == UsedIn(t) - (if t[i].Used? then 1 else 0) + if s.Used? then 1 else 0
  {
    var m := |t| - 1;
    if i < m {
      UsedUpdate(t[..m], i, s);
      assert t[i := s][..m] == t[..m][i := s];
    } else {
      assert t[i := s][..m] == t[..m];
    }
  }

  lemma {:induction false} FreeSlot<K, V>(t: Slots<K, V>) returns (e: nat)
    requires UsedIn(t) < |t|
    ensures e < |t| && t[e].Free?
  {
    var m := |t| - 1;
    if t[m].Free? {
      e := m;
    } else {
      e := FreeSlot(t[..m]);
    }
  }

  lemma {:induction false} NoneUsed<K, V>(t: Slots<K, V>)
    requires forall i :: 0 <= i < |t| ==> t[i].Free?
    ensures UsedIn(t) == 0
  {
    if t != [] {
      NoneUsed(t[..|t| - 1]);
    }
  }

  lemma EmptyTable<K, V>(t: Slots<K, V>, hash: K -> nat)
    requires forall i :: 0 <= i < |t| ==> t[i].Free?
    ensures Table(t, hash, map[])
  {
    NoneUsed(t);
  }

  // ----- around the circle --------------------------------------------------------------------

  lemma HomeNext(h: nat, d: nat, n: nat)
    requires n > 0
    ensures Home(h, d + 1, n) == Next(Home(h, d, n), n)
  {
    ModAdd(h + d, 1, n);
  }

  /** The number of steps from i to e. */
  function Gap(i: nat, e: nat, n: nat): (g: nat)
    requires i < n && e < n
    ensures g < n
  {
    if i <= e then e - i else e + n - i
  }

  lemma GapStep(i: nat, e: nat, n: nat)
    requires i < n && e < n && i != e
    ensures Gap(Next(i, n), e, n) == Gap(i, e, n) - 1
  {
    hide Next;
    NextIs(i, n);
  }

  lemma NextInjective(i: nat, j: nat, n: nat)
    requires i < n && j < n && Next(i, n) == Next(j, n)
    ensures i == j
  {
    hide Next;
    NextIs(i, n);
    NextIs(j, n);
  }

  lemma NextIs(i: nat, n: nat)
    requires i < n
    ensures Next(i, n) == if i + 1 < n then i + 1 else 0
  {
    DivModUnique(i + 1, n, if i + 1 < n then 0 else 1, if i + 1 < n then i + 1 else 0);
  }

  lemma Reaches(h: nat, e: nat, n: nat) returns (d: nat)
    requires e < n
    ensures d < n && Home(h, d, n) == e
  {
    d := Gap(h % n, e, n);
    ModAdd(h, d, n);
    Wraps(h % n, e, n);
  }

  lemma Wraps(i: nat, e: nat, n: nat)
    requires i < n && e < n
    ensures (i + Gap(i, e, n)) % n == e
  {
    if i > e {
      AddMultiple(e, 1, n);
    }
  }

  // ----- looking up ---------------------------------------------------------------------------

  /** The first d steps from the ideal bucket met entries at least as far from theirs, and not the key. */
  ghost predicate Searched<K, V>(t: Slots<K, V>, h: nat, d: nat, key: K)
    requires |t| > 0
  {
    forall e :: 0 <= e < d ==> e <= Dist(t[Home(h, e, |t|)]) && !HasKey(t, Home(h, e, |t|), key)
  }

  lemma SearchOne<K, V>(t: Slots<K, V>, h: nat, d: nat, key: K)
    requires |t| > 0 && Searched(t, h, d, key)
    requires d <= Dist(t[Home(h, d, |t|)]) && !HasKey(t, Home(h, d, |t|), key)
    ensures Searched(t, h, d + 1, key) && Home(h, d + 1, |t|) == Next(Home(h, d, |t|), |t|)
  {
    HomeNext(h, d, |t|);
  }

  /** A free slot ends every search within one round. */
  lemma SearchEnds<K, V>(t: Slots<K, V>, h: nat, d: nat, key: K, e: nat)
    requires e < |t| && t[e].Free? && Searched(t, h, d, key)
    ensures d < |t|
  {
    hide Home;
    var r := Reaches(h, e, |t|);
  }

  /** Going back along a trail the distances fall by at most one a step. */
  lemma {:induction false} SlopeBack<K, V>(t: Slots<K, V>, h: nat, d: nat, r: nat)
    requires |t| > 0 && Sloped(t) && d <= r
    ensures Dist(t[Home(h, d, |t|)]) >= Dist(t[Home(h, r, |t|)]) - (r - d)
  {
    hide Home;
    if d < r {
      SlopeBack(t, h, d, r - 1);
      HomeNext(h, r - 1, |t|);
      assert SlopedAt(t, Home(h, r - 1, |t|));
    }
  }

  /** The early exit is exact: once the search is farther from home than the entry it meets, the key is
      nowhere. */
  lemma EarlyExit<K, V>(t: Slots<K, V>, hash: K -> nat, contents: map<K, V>, d: nat, key: K)
    requires |t| > 0 && Table(t, hash, contents) && Searched(t, hash(key), d, key)
    requires d > Dist(t[Home(hash(key), d, |t|)])
    ensures key !in contents
  {
    hide Home, Dist;
    if key in contents {
      var j :| HasKey(t, j, key);
      EntryFar(t, hash, d, key, j);
    }
  }

  lemma EntryFar<K, V>(t: Slots<K, V>, hash: K -> nat, d: nat, key: K, j: nat)
    requires |t| > 0 && Exact(t, hash) && Sloped(t) && Searched(t, hash(key), d, key) && HasKey(t, j, key)
    ensures d <= Dist(t[Home(hash(key), d, |t|)])
  {
    hide Home;
    var r := t[j].dist;
    assert Home(hash(key), r, |t|) == j;
    assert r >= d;
    SlopeBack(t, hash(key), d, r);
  }

  // ----- displacing ---------------------------------------------------------------------------

  /** The slot before ib is not so close to home that an entry with distance d could not follow it. */
  ghost predicate Follows<K, V>(t: Slots<K, V>, ib: nat, d: nat) {
    |t| > 0 && forall i :: 0 <= i < |t| && Next(i, |t|) == ib ==> Dist(t[i]) >= d - 1
  }

  /** The table holds the map without one entry, which is in hand and looks for a bucket from ib on. */
  ghost predicate Carrying<K, V>(t: Slots<K, V>, hash: K -> nat, contents: map<K, V>, ib: nat, key: K, v: V, d: nat) {
    && ib < |t| && key in contents && contents[key] == v
    && Table(t, hash, contents - {key}) && Home(hash(key), d, |t|) == ib && Follows(t, ib, d)
  }

  lemma SlopePut<K, V>(t: Slots<K, V>, ib: nat, s: Slot<K, V>)
    requires Sloped(t) && ib < |t| && s.Used? && Follows(t, ib, s.dist) && Dist(t[ib]) <= s.dist
    ensures Sloped(t[ib := s])
  {
    hide Next;
    var t' := t[ib := s];
    forall i | 0 <= i < |t'| ensures SlopedAt(t', i) {
      assert SlopedAt(t, i);
    }
  }

  lemma PlaceAgrees<K, V>(t: Slots<K, V>, contents: map<K, V>, ib: nat, key: K, v: V, d: nat)
    requires ib < |t| && t[ib].Free? && key in contents && contents[key] == v && Agrees(t, contents - {key})
    ensures Agrees(t[ib := Used(key, v, d)], contents)
  {
    var t', less := t[ib := Used(key, v, d)], contents - {key};
    forall k | k in contents ensures exists i :: HasKey(t', i, k) {
      if k == key {
        assert HasKey(t', ib, k);
      } else {
        assert k in less;
        var i :| HasKey(t, i, k);
        assert HasKey(t', i, k);
      }
    }
  }

  /** An empty bucket takes the entry. */
  lemma CarryPlace<K, V>(t: Slots<K, V>, hash: K -> nat, contents: map<K, V>, ib: nat, key: K, v: V, d: nat)
    requires Carrying(t, hash, contents, ib, key, v, d) && t[ib].Free?
    ensures Table(t[ib := Used(key, v, d)], hash, contents)
  {
    hide Home, Next, Agrees, Sloped, Follows, UsedIn;
    SlopePut(t, ib, Used(key, v, d));
    UsedUpdate(t, ib, Used(key, v, d));
    PlaceAgrees(t, contents, ib, key, v, d);
    MapShrinks(contents, key);
  }

  /** An entry closer to its home gives up its bucket and is carried on. */
  lemma CarrySwap<K, V>(t: Slots<K, V>, hash: K -> nat, contents: map<K, V>, ib: nat, key: K, v: V, d: nat)
    requires Carrying(t, hash, contents, ib, key, v, d) && t[ib].Used? && d > t[ib].dist
    ensures Carrying(t[ib := Used(key, v, d)], hash, contents, Next(ib, |t|), t[ib].key, t[ib].value, t[ib].dist + 1)
  {
    hide Home, Next, Agrees, Sloped, Follows, UsedIn;
    var s := t[ib];
    var t' := t[ib := Used(key, v, d)];
    SlopePut(t, ib, Used(key, v, d));
    UsedUpdate(t, ib, Used(key, v, d));
    HomeNext(hash(s.key), s.dist, |t|);
    SwapFollows(t', ib, d, s.dist + 1);
    SwapAgrees(t, contents, ib, key, v, d);
    MapShrinks(contents, key);
    MapShrinks(contents, s.key);
  }

  lemma SwapFollows<K, V>(t: Slots<K, V>, ib: nat, d: nat, d': nat)
    requires ib < |t| && t[ib].Used? && t[ib].dist == d && d >= d'
    ensures Follows(t, Next(ib, |t|), d')
  {
    forall i | 0 <= i < |t| && Next(i, |t|) == Next(ib, |t|) ensures Dist(t[i]) >= d' - 1 {
      NextInjective(i, ib, |t|);
    }
  }

  lemma SwapAgrees<K, V>(t: Slots<K, V>, contents: map<K, V>, ib: nat, key: K, v: V, d: nat)
    requires ib < |t| && t[ib].Used? && key in contents && contents[key] == v && Agrees(t, contents - {key})
    ensures t[ib].key in contents && contents[t[ib].key] == t[ib].value
    ensures Agrees(t[ib := Used(key, v, d)], contents - {t[ib].key})
  {
    var s := t[ib];
    var t', rest, less := t[ib := Used(key, v, d)], contents - {s.key}, contents - {key};
    forall k | k in rest ensures exists i :: HasKey(t', i, k) {
      if k == key {
        assert HasKey(t', ib, k);
      } else {
        assert k in less;
        var i :| HasKey(t, i, k);
        assert HasKey(t', i, k);
      }
    }
  }

  /** An entry at least as far from its home keeps its bucket. */
  lemma CarryPass<K, V>(t: Slots<K, V>, hash: K -> nat, contents: map<K, V>, ib: nat, key: K, v: V, d: nat)
    requires Carrying(t, hash, contents, ib, key, v, d) && t[ib].Used? && d <= t[ib].dist
    ensures Carrying(t, hash, contents, Next(ib, |t|), key, v, d + 1)
  {
    hide Home, Next, Agrees;
    HomeNext(hash(key), d, |t|);
    SwapFollows(t, ib, t[ib].dist, d);
    FollowsMore(t, ib, d);
  }

  lemma FollowsMore<K, V>(t: Slots<K, V>, ib: nat, d: nat)
    requires ib < |t| && t[ib].Used? && d <= t[ib].dist
    ensures Follows(t, Next(ib, |t|), d + 1)
  {
    forall i | 0 <= i < |t| && Next(i, |t|) == Next(ib, |t|) ensures Dist(t[i]) >= d {
      NextInjective(i, ib, |t|);
    }
  }

  /** A failed search is where a new entry starts to look for its bucket. */
  lemma StartCarrying<K, V>(t: Slots<K, V>, hash: K -> nat, contents: map<K, V>, d: nat, key: K, v: V)
    requires |t| > 0 && Table(t, hash, contents) && key !in contents
    requires d == 0 || d - 1 <= Dist(t[Home(hash(key), d - 1, |t|)])
    ensures Carrying(t, hash, contents[key := v], Home(hash(key), d, |t|), key, v, d)
  {
    assert contents[key := v] - {key} == contents;
    var ib := Home(hash(key), d, |t|);
    forall i | 0 <= i < |t| && Next(i, |t|) == ib ensures Dist(t[i]) >= d - 1 {
      if d > 0 {
        HomeNext(hash(key), d - 1, |t|);
        NextInjective(i, Home(hash(key), d - 1, |t|), |t|);
      }
    }
  }

  // ----- shifting back ------------------------------------------------------------------------

  /** Everything is in order except that the slot after the free slot pp may have to move up. */
  ghost predicate Hole<K, V>(t: Slots<K, V>, hash: K -> nat, contents: map<K, V>, pp: nat) {
    && pp < |t| && t[pp].Free? && Exact(t, hash) && Agrees(t, contents) && UsedIn(t) == |contents|
    && (forall i :: 0 <= i < |t| && i != pp ==> SlopedAt(t, i))
    && (forall i :: 0 <= i < |t| && Next(i, |t|) == pp ==> Dist(t[Next(pp, |t|)]) <= Dist(t[i]) + 2)
  }

  lemma HoleStart<K, V>(t: Slots<K, V>, hash: K -> nat, contents: map<K, V>, b: nat)
    requires Table(t, hash, contents) && b < |t| && t[b].Used?
    ensures t[b].key in contents && Hole(t[b := Free], hash, contents - {t[b].key}, b)
  {
    hide Home, Agrees, SlopedAt, UsedIn;
    UsedUpdate(t, b, Free);
    ClearAgrees(t, contents, b);
    MapShrinks(contents, t[b].key);
    HoleSlope(t, b);
  }

  lemma ClearAgrees<K, V>(t: Slots<K, V>, contents: map<K, V>, b: nat)
    requires Agrees(t, contents) && b < |t| && t[b].Used?
    ensures t[b].key in contents && Agrees(t[b := Free], contents - {t[b].key})
  {
    var t': Slots<K, V>, rest := t[b := Free], contents - {t[b].key};
    forall k | k in rest ensures exists i :: HasKey(t', i, k) {
      var i :| HasKey(t, i, k);
      assert HasKey(t', i, k);
    }
  }

  lemma HoleSlope<K, V>(t: Slots<K, V>, b: nat)
    requires Sloped(t) && b < |t|
    ensures var t': Slots<K, V> := t[b := Free];
            && (forall i :: 0 <= i < |t'| && i != b ==> SlopedAt(t', i))
            && (forall i :: 0 <= i < |t'| && Next(i, |t'|) == b ==> Dist(t'[Next(b, |t'|)]) <= Dist(t'[i]) + 2)
  {
    var t': Slots<K, V> := t[b := Free];
    assert SlopedAt(t, b);
    forall i | 0 <= i < |t'| ensures i != b ==> SlopedAt(t', i)
      ensures Next(i, |t'|) == b ==> Dist(t'[Next(b, |t'|)]) <= Dist(t'[i]) + 2
    {
      assert SlopedAt(t, i);
    }
  }

  lemma HoleEnd<K, V>(t: Slots<K, V>, hash: K -> nat, contents: map<K, V>, pp: nat)
    requires Hole(t, hash, contents, pp) && Dist(t[Next(pp, |t|)]) <= 0
    ensures Table(t, hash, contents)
  {
    hide Home, Agrees;
    assert SlopedAt(t, pp);
  }

  lemma HoleMove<K, V>(t: Slots<K, V>, hash: K -> nat, contents: map<K, V>, pp: nat)
    requires Hole(t, hash, contents, pp) && Dist(t[Next(pp, |t|)]) > 0
    ensures var ib := Next(pp, |t|);
            Hole(t[pp := Used(t[ib].key, t[ib].value, t[ib].dist - 1)][ib := Free], hash, contents, ib)
  {
    hide Home, Agrees, Exact, UsedIn, SlopedAt;
    var ib := Next(pp, |t|);
    var s := Used(t[ib].key, t[ib].value, t[ib].dist - 1);
    UsedUpdate(t, pp, s);
    UsedUpdate(t[pp := s], ib, Free);
    MoveExact(t, hash, pp);
    MoveAgrees(t, contents, pp);
    MoveSlope(t, pp);
  }

  lemma MoveExact<K, V>(t: Slots<K, V>, hash: K -> nat, pp: nat)
    requires Exact(t, hash) && pp < |t| && Dist(t[Next(pp, |t|)]) > 0 && t[pp].Free?
    ensures var ib := Next(pp, |t|);
            Exact(t[pp := Used(t[ib].key, t[ib].value, t[ib].dist - 1)][ib := Free], hash)
  {
    hide Home, Next;
    var ib := Next(pp, |t|);
    HomeNext(hash(t[ib].key), t[ib].dist - 1, |t|);
    NextInjective(pp, Home(hash(t[ib].key), t[ib].dist - 1, |t|), |t|);
  }

  lemma MoveAgrees<K, V>(t: Slots<K, V>, contents: map<K, V>, pp: nat)
    requires Agrees(t, contents) && pp < |t| && Dist(t[Next(pp, |t|)]) > 0 && t[pp].Free?
    ensures var ib := Next(pp, |t|);
            Agrees(t[pp := Used(t[ib].key, t[ib].value, t[ib].dist - 1)][ib := Free], contents)
  {
    hide Next;
    var ib := Next(pp, |t|);
    var t' := t[pp := Used(t[ib].key, t[ib].value, t[ib].dist - 1)][ib := Free];
    forall k | k in contents ensures exists i :: HasKey(t', i, k) {
      var i :| HasKey(t, i, k);
      assert HasKey(t', if i == ib then pp else i, k);
    }
  }

  lemma MoveSlope<K, V>(t: Slots<K, V>, pp: nat)
    requires pp < |t| && t[pp].Free? && Dist(t[Next(pp, |t|)]) > 0
    requires forall i :: 0 <= i < |t| && i != pp ==> SlopedAt(t, i)
    requires forall i :: 0 <= i < |t| && Next(i, |t|) == pp ==> Dist(t[Next(pp, |t|)]) <= Dist(t[i]) + 2
    ensures var n, ib := |t|, Next(pp,
              |t|); var t' := t[pp := Used(t[ib].key, t[ib].value, t[ib].dist - 1)][ib := Free];
            && (forall i :: 0 <= i < n && i != ib ==> SlopedAt(t', i))
            && (forall i :: 0 <= i < n && Next(i, n) == ib ==> Dist(t'[Next(ib, n)]) <= Dist(t'[i]) + 2)
  {
    hide Next;
    var n, ib := |t|, Next(pp, |t|);
    var t' := t[pp := Used(t[ib].key, t[ib].value, t[ib].dist - 1)][ib := Free];
    assert SlopedAt(t, ib);
    forall i | 0 <= i < n && i != ib ensures SlopedAt(t', i) {
      if i != pp { assert SlopedAt(t, i); }
    }
    forall i | 0 <= i < n && Next(i, n) == ib ensures Dist(t'[Next(ib, n)]) <= Dist(t'[i]) + 2 {
      NextInjective(i, pp, n);
    }
  }

  // ----- one value ----------------------------------------------------------------------------

  /** Overwriting the value of an entry in place. */
  lemma ValueSet<K, V>(t: Slots<K, V>, hash: K -> nat, contents: map<K, V>, i: nat, v: V)
    requires Table(t, hash, contents) && i < |t| && t[i].Used?
    ensures Table(t[i := Used(t[i].key, v, t[i].dist)], hash, contents[t[i].key := v])
  {
    hide Home, Next;
    var t', contents' := t[i := Used(t[i].key, v, t[i].dist)], contents[t[i].key := v];
    UsedUpdate(t, i, t'[i]);
    assert contents'.Keys == contents.Keys;
    forall j | 0 <= j < |t'| ensures SlopedAt(t', j) {
      assert SlopedAt(t, j);
    }
    forall k | k in contents' ensures exists j :: HasKey(t', j, k) {
      var j :| HasKey(t, j, k);
      assert HasKey(t', j, k);
    }
  }
}
