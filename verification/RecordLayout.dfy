/** The byte layout of a vertex record: the vector, the label (the vertex id), the neighbour count and
    for each neighbour its vertex id, server and local id. Numbers are little-endian. */
module RecordLayout {

  type byte = x: int | 0 <= x < 256

  const WORD := 0x1_0000_0000
  const REF_BYTES := 9

  datatype Ref = Ref(vid: nat, server: nat, lid: nat)

  predicate IsRef(r: Ref) {
    r.vid < WORD && r.server < 256 && r.lid < WORD
  }

  // ----- items --------------------------------------------------------------------------------

  /** A (server, local id) pair as one number; the order of numbers is the order of pairs. */
  function Pack(server: nat, lid: nat): nat {
    server * WORD + lid
  }

  function Server(item: nat): nat {
    item / WORD
  }

  function Local(item: nat): nat {
    item % WORD
  }

  lemma PackUnpack(server: nat, lid: nat)
    requires lid < WORD
    ensures Server(Pack(server, lid)) == server && Local(Pack(server, lid)) == lid
  {
  }

  lemma PackOrder(s1: nat, l1: nat, s2: nat, l2: nat)
    requires l1 < WORD && l2 < WORD
    ensures Pack(s1, l1) < Pack(s2, l2) <==> s1 < s2 || (s1 == s2 && l1 < l2)
  {
  }

  lemma UnpackPack(item: nat)
    ensures Pack(Server(item), Local(item)) == item && Local(item) < WORD
  {
  }

  // ----- numbers ------------------------------------------------------------------------------

  function Enc32(x: nat): (s: seq<byte>)
    requires x < WORD
    ensures |s| == 4
  {
    [x % 256, x / 256 % 256, x / 0x1_0000 % 256, x / 0x100_0000]
  }

  function Dec32(s: seq<byte>, off: nat): (x: nat)
    requires off + 4 <= |s|
    ensures x < WORD
  {
    var b0: int, b1: int, b2: int, b3: int := s[off], s[off + 1], s[off + 2], s[off + 3];
    b0 + 256 * b1 + 0x1_0000 * b2 + 0x100_0000 * b3
  }

  lemma NumberRoundTrip(x: nat, s: seq<byte>, off: nat)
    requires x < WORD && off + 4 <= |s| && s[off..off + 4] == Enc32(x)
    ensures Dec32(s, off) == x
  {
    var e := s[off..off + 4];
    assert s[off] == e[0] && s[off + 1] == e[1] && s[off + 2] == e[2] && s[off + 3] == e[3];
    var y := x / 256;
    var z := y / 256;
    assert x == 256 * y + x % 256 && y == 256 * z + y % 256;
    assert x / 0x1_0000 == z && x / 0x100_0000 == z / 256 by { DivTwice(x); }
  }

  lemma DivTwice(x: nat)
    ensures x / 0x1_0000 == x / 256 / 256 && x / 0x100_0000 == x / 256 / 256 / 256
  {
  }

  // ----- records ------------------------------------------------------------------------------

  function EncRef(r: Ref): (s: seq<byte>)
    requires IsRef(r)
    ensures |s| == REF_BYTES
  {
    Enc32(r.vid) + [r.server as byte] + Enc32(r.lid)
  }

  function EncRefs(rs: seq<Ref>): (s: seq<byte>)
    requires forall i :: 0 <= i < |rs| ==> IsRef(rs[i])
    ensures |s| == REF_BYTES * |rs|
  {
    if rs == [] then [] else EncRefs(rs[..|rs| - 1]) + EncRef(rs[|rs| - 1])
  }

  datatype Record = Record(vector: seq<byte>, tag: nat, refs: seq<Ref>)

  predicate IsRecord(r: Record, vecBytes: nat, maxRefs: nat) {
    && |r.vector| == vecBytes && r.tag < WORD && |r.refs| < WORD && |r.refs| <= maxRefs
    && forall i :: 0 <= i < |r.refs| ==> IsRef(r.refs[i])
  }

  function RecordBytes(vecBytes: nat, refs: nat): nat {
    vecBytes + 8 + REF_BYTES * refs
  }

  function EncRecord(r: Record): (s: seq<byte>)
    requires IsRecord(r, |r.vector|, |r.refs|)
    ensures |s| == RecordBytes(|r.vector|, |r.refs|)
  {
    r.vector + Enc32(r.tag) + Enc32(|r.refs|) + EncRefs(r.refs)
  }

  function DecRef(s: seq<byte>, off: nat): Ref
    requires off + REF_BYTES <= |s|
  {
    Ref(Dec32(s, off), s[off + 4], Dec32(s, off + 5))
  }

  /** k neighbour triples, the first at off. */
  function DecRefs(s: seq<byte>, off: nat, k: nat): (rs: seq<Ref>)
    requires off + REF_BYTES * k <= |s|
    ensures |rs| == k
  {
    if k == 0 then [] else DecRefs(s, off, k - 1) + [DecRef(s, off + REF_BYTES * (k - 1))]
  }

  /** The bytes at off, as far as they go, are long enough for the record they claim to hold. */
  predicate Holds(s: seq<byte>, off: nat, vecBytes: nat) {
    && off + vecBytes + 8 <= |s|
    && off + RecordBytes(vecBytes, Dec32(s, off + vecBytes + 4)) <= |s|
  }

  function DecRecord(s: seq<byte>, off: nat, vecBytes: nat): Record
    requires Holds(s, off, vecBytes)
  {
    Record(s[off..off + vecBytes], Dec32(s, off + vecBytes),
           DecRefs(s, off + vecBytes + 8, Dec32(s, off + vecBytes + 4)))
  }

  lemma {:induction false} RefsRoundTrip(rs: seq<Ref>, s: seq<byte>, off: nat)
    requires forall i :: 0 <= i < |rs| ==> IsRef(rs[i])
    requires off + REF_BYTES * |rs| <= |s| && s[off..off + REF_BYTES * |rs|] == EncRefs(rs)
    ensures DecRefs(s, off, |rs|) == rs
  {
    if rs != [] {
      var k := |rs| - 1;
      var at := off + REF_BYTES * k;
      var e := s[off..off + REF_BYTES * |rs|];
      assert s[off..at] == e[..REF_BYTES * k] == EncRefs(rs[..k]);
      RefsRoundTrip(rs[..k], s, off);
      assert s[at..at + REF_BYTES] == e[REF_BYTES * k..] == EncRef(rs[k]);
      RefRoundTrip(rs[k], s, at);
    }
  }

  lemma RefRoundTrip(r: Ref, s: seq<byte>, off: nat)
    requires IsRef(r) && off + REF_BYTES <= |s| && s[off..off + REF_BYTES] == EncRef(r)
    ensures DecRef(s, off) == r
  {
    var e := s[off..off + REF_BYTES];
    assert s[off..off + 4] == e[..4] == Enc32(r.vid);
    assert s[off + 4] == e[4] == r.server;
    assert s[off + 5..off + 9] == e[5..] == Enc32(r.lid);
    NumberRoundTrip(r.vid, s, off);
    NumberRoundTrip(r.lid, s, off + 5);
  }

  lemma SubSlice(s: seq<byte>, off: nat, e: seq<byte>, a: nat, b: nat)
    requires off + |e| <= |s| && s[off..off + |e|] == e && a <= b <= |e|
    ensures s[off + a..off + b] == e[a..b]
  {
    assert forall i :: 0 <= i < |e| ==> e[i] == s[off + i];
  }

  lemma RecordParts(r: Record)
    requires IsRecord(r, |r.vector|, |r.refs|)
    ensures var e, v := EncRecord(r), |r.vector|;
            && e[0..v] == r.vector && e[v..v + 4] == Enc32(r.tag) && e[v + 4..v + 8] == Enc32(|r.refs|)
            && e[v + 8..|e|] == EncRefs(r.refs)
  {
  }

  /** Decoding a record yields what was encoded, wherever in memory it was put. */
  lemma RecordRoundTrip(r: Record, s: seq<byte>, off: nat)
    requires IsRecord(r, |r.vector|, |r.refs|)
    requires off + |EncRecord(r)| <= |s| && s[off..off + |EncRecord(r)|] == EncRecord(r)
    ensures Holds(s, off, |r.vector|) && DecRecord(s, off, |r.vector|) == r
  {
    hide Enc32, Dec32, EncRefs, DecRefs;
    var e, v := EncRecord(r), |r.vector|;
    RecordParts(r);
    SubSlice(s, off, e, 0, v);
    SubSlice(s, off, e, v, v + 4);
    SubSlice(s, off, e, v + 4, v + 8);
    SubSlice(s, off, e, v + 8, |e|);
    NumberRoundTrip(r.tag, s, off + v);
    NumberRoundTrip(|r.refs|, s, off + v + 4);
    RefsRoundTrip(r.refs, s, off + v + 8);
  }

  /** The four bytes at off are the number x, least significant byte first. */
  ghost predicate Spells(s: seq<byte>, off: nat, x: nat) {
    && off + 4 <= |s|
    && x == s[off] as int + 0x100 * s[off + 1] as int + 0x1_0000 * s[off + 2] as int + 0x100_0000 * s[off + 3] as int
  }

  /** Which byte of a record is what: after the vector the label, then the number of neighbours, and then 9
      bytes for each neighbour: vertex id, server, local id. */
  lemma RecordBytesAre(r: Record, k: nat)
    requires IsRecord(r, |r.vector|, |r.refs|) && k < |r.refs|
    ensures var e, v := EncRecord(r), |r.vector|;
            && |e| == v + 8 + 9 * |r.refs| && e[..v] == r.vector
            && Spells(e, v, r.tag) && Spells(e, v + 4, |r.refs|)
            && Spells(e, v + 8 + 9 * k, r.refs[k].vid) && e[v + 8 + 9 * k + 4] as int == r.refs[k].server
            && Spells(e, v + 8 + 9 * k + 5, r.refs[k].lid)
  {
    hide Enc32, EncRefs, DecRefs;
    var e, v := EncRecord(r), |r.vector|;
    RecordParts(r);
    assert e[0..|e|] == e;
    NumberRoundTrip(r.tag, e, v);
    NumberRoundTrip(|r.refs|, e, v + 4);
    RefsRoundTrip(r.refs, e, v + 8);
    DecRefsAt(e, v + 8, |r.refs|, k);
  }

  lemma {:induction false} DecRefsAt(s: seq<byte>, off: nat, k: nat, i: nat)
    requires off + REF_BYTES * k <= |s| && i < k
    ensures off + REF_BYTES * i + REF_BYTES <= |s| && DecRefs(s, off, k)[i] == DecRef(s, off + REF_BYTES * i)
  {
    if i < k - 1 {
      DecRefsAt(s, off, k - 1, i);
    }
  }

  /** Decoding looks only at the record's own bytes. */
  lemma DecodeLocally(s: seq<byte>, off: nat, t: seq<byte>, vecBytes: nat)
    requires off + |t| <= |s| && s[off..off + |t|] == t && Holds(t, 0, vecBytes)
    ensures Holds(s, off, vecBytes) && DecRecord(s, off, vecBytes) == DecRecord(t, 0, vecBytes)
  {
    assert forall i :: 0 <= i < |t| ==> s[off + i] == t[i];
    assert s[off..off + vecBytes] == t[..vecBytes];
    DecRefsLocally(s, off, t, vecBytes + 8, Dec32(t, vecBytes + 4));
  }

  lemma {:induction false} DecRefsLocally(s: seq<byte>, off: nat, t: seq<byte>, at: nat, k: nat)
    requires off + |t| <= |s| && (forall i :: 0 <= i < |t| ==> s[off + i] == t[i]) && at + REF_BYTES * k <= |t|
    ensures DecRefs(s, off + at, k) == DecRefs(t, at, k)
  {
    if k > 0 {
      DecRefsLocally(s, off, t, at, k - 1);
      var p := at + REF_BYTES * (k - 1);
      assert s[off + p] == t[p];
      assert DecRef(s, off + p) == DecRef(t, p);
    }
  }

  // ----- memory -------------------------------------------------------------------------------

  /** The memory s with bytes written at off. */
  function Splice(s: seq<byte>, off: nat, bytes: seq<byte>): (t: seq<byte>)
    requires off + |bytes| <= |s|
    ensures |t| == |s|
  {
    s[..off] + bytes + s[off + |bytes|..]
  }

  lemma SpliceAppend(s: seq<byte>, off: nat, a: seq<byte>, b: seq<byte>)
    requires off + |a| + |b| <= |s|
    ensures Splice(Splice(s, off, a), off + |a|, b) == Splice(s, off, a + b)
  {
    hide Splice;
    var t, u, v := Splice(s, off, a), Splice(Splice(s, off, a), off + |a|, b), Splice(s, off, a + b);
    SpliceEntries(s, off, a);
    SpliceEntries(t, off + |a|, b);
    SpliceEntries(s, off, a + b);
    assert forall i :: 0 <= i < |u| ==> u[i] == v[i];
  }

  /** A write is read back, and does not show anywhere else. */
  lemma SpliceSlice(s: seq<byte>, off: nat, bytes: seq<byte>, p: nat, len: nat)
    requires off + |bytes| <= |s| && p + len <= |s|
    ensures Splice(s, off, bytes)[off..off + |bytes|] == bytes
    ensures p + len <= off || off + |bytes| <= p ==> Splice(s, off, bytes)[p..p + len] == s[p..p + len]
  {
    hide Splice;
    var t := Splice(s, off, bytes);
    SpliceEntries(s, off, bytes);
    assert t[off..off + |bytes|] == bytes by {
      assert forall i :: 0 <= i < |bytes| ==> t[off + i] == bytes[i];
    }
    if p + len <= off || off + |bytes| <= p {
      assert forall i :: p <= i < p + len ==> t[i] == s[i];
      assert t[p..p + len] == s[p..p + len];
    }
  }

  lemma SpliceEntries(s: seq<byte>, off: nat, bytes: seq<byte>)
    requires off + |bytes| <= |s|
    ensures var t := Splice(s, off, bytes);
            forall i :: 0 <= i < |t| ==> t[i] == if off <= i < off + |bytes| then bytes[i - off] else s[i]
  {
  }
}
