/** The Internet checksum of RFC 1071, computed four bytes at a time from memory aligned to four. */
module Checksum {
  import opened RecordLayout

  const WORD64 := 0x1_0000_0000_0000_0000
  const ONES16 := 65535

  // ----- what is summed -----------------------------------------------------------------------

  /** The sum of the big-endian 16-bit words of the data, an odd last byte padded with zero. */
  ghost function WordSum(data: seq<byte>): nat {
    if |data| == 0 then 0
    else if |data| == 1 then 256 * data[0] as nat
    else 256 * data[0] as nat + data[1] as nat + WordSum(data[2..])
  }

  /** The weight of a byte at an even or odd address. */
  function Weight(address: nat): nat {
    if address % 2 == 0 then 256 else 1
  }

  /** The first k bytes, weighted by their address. */
  ghost function Weighted(data: seq<byte>, k: nat, address: nat): nat
    requires k <= |data|
  {
    if k == 0 then 0 else Weighted(data, k - 1, address) + data[k - 1] as nat * Weight(address + k - 1)
  }

  /** x and y are congruent modulo 2^16 - 1. */
  ghost predicate Congruent(x: int, y: int) {
    exists q: int :: x - y == ONES16 * q
  }

  lemma {:induction false} WeightedFront(data: seq<byte>, k: nat, address: nat)
    requires 0 < k <= |data|
    ensures Weighted(data, k, address) == data[0] as nat * Weight(address) + Weighted(data[1..], k - 1, address + 1)
  {
    if k > 1 {
      WeightedFront(data, k - 1, address);
    }
  }

  lemma WeightedNothing(data: seq<byte>, address: nat)
    ensures Weighted(data, 0, address) == 0
  {
  }

  /** At an even address the weighted sum is the sum of words. */
  lemma {:induction false} EvenIsWordSum(data: seq<byte>, address: nat)
    requires address % 2 == 0
    ensures Weighted(data, |data|, address) == WordSum(data)
  {
    hide Weighted;
    WeightedNothing(data, address);
    if |data| >= 1 {
      WeightedFront(data, |data|, address);
      WeightedNothing(data[1..], address + 1);
      if |data| >= 2 {
        WeightedFront(data[1..], |data| - 1, address + 1);
        assert data[1..][1..] == data[2..];
        EvenIsWordSum(data[2..], address + 2);
      }
    }
  }

  /** At an odd address it is 256 times that: the bytes of every word are swapped. */
  lemma {:induction false} OddIsSwapped(data: seq<byte>, k: nat, address: nat)
    requires address % 2 == 1 && k <= |data|
    ensures Congruent(256 * Weighted(data, k, address), Weighted(data, k, address + 1))
  {
    if k == 0 {
      assert 256 * 0 - 0 == ONES16 * 0;
    } else {
      OddIsSwapped(data, k - 1, address);
      var q: int :| 256 * Weighted(data, k - 1, address) - Weighted(data, k - 1, address + 1) == ONES16 * q;
      var b := data[k - 1] as nat;
      var r := if (address + k - 1) % 2 == 0 then q + b else q;
      assert 256 * Weighted(data, k, address) - Weighted(data, k, address + 1) == ONES16 * r;
    }
  }

  // ----- 32-bit words -------------------------------------------------------------------------

  /** The host value of four bytes in network order. */
  function BigEndian(b0: byte, b1: byte, b2: byte, b3: byte): (w: nat)
    ensures w < 0x1_0000_0000
  {
    0x100_0000 * b0 as nat + 0x1_0000 * b1 as nat + 0x100 * b2 as nat + b3 as nat
  }

  /** A partial word: count bytes of the data from position at on, behind offset zero bytes. */
  function Partial(data: seq<byte>, at: nat, offset: nat, count: nat): (w: nat)
    requires offset + count <= 4 && at + count <= |data|
    ensures w < 0x1_0000_0000
  {
    BigEndian(ByteOf(data, at, offset, count, 0), ByteOf(data, at, offset, count, 1),
              ByteOf(data, at, offset, count, 2), ByteOf(data, at, offset, count, 3))
  }

  function ByteOf(data: seq<byte>, at: nat, offset: nat, count: nat, i: nat): byte
    requires at + count <= |data|
  {
    if offset <= i < offset + count then data[at + i - offset] else 0
  }

  /** A word adds its bytes by weight. */
  lemma WordAdds(data: seq<byte>, at: nat, offset: nat, count: nat, address: nat) returns (q: nat)
    requires offset + count <= 4 && at + count <= |data| && (address + at) % 4 == offset
    ensures Partial(data, at, offset, count)
         == Weighted(data, at + count, address) - Weighted(data, at, address) + ONES16 * q
  {
    var b0, b1 := ByteOf(data, at, offset, count, 0) as nat, ByteOf(data, at, offset, count, 1) as nat;
    var b2, b3 := ByteOf(data, at, offset, count, 2) as nat, ByteOf(data, at, offset, count, 3) as nat;
    q := 256 * b0 + b1;
    assert Partial(data, at, offset, count) == 256 * b0 + b1 + 256 * b2 + b3 + ONES16 * q;
    StepWeights(data, at, offset, count, address);
  }

  lemma StepWeights(data: seq<byte>, at: nat, offset: nat, count: nat, address: nat)
    requires offset + count <= 4 && at + count <= |data| && (address + at) % 4 == offset
    ensures Weighted(data, at + count, address) - Weighted(data, at, address)
         == 256 * ByteOf(data, at, offset, count, 0) as nat + ByteOf(data, at, offset, count, 1) as nat
            + 256 * ByteOf(data, at, offset, count, 2) as nat + ByteOf(data, at, offset, count, 3) as nat
    decreases count
  {
    hide Weighted;
    if count > 0 {
      StepWeights(data, at, offset, count - 1, address);
      WeightedNext(data, at + count - 1, address);
      Parity(address + at, offset, count - 1);
    }
  }

  lemma Parity(a: nat, offset: nat, i: nat)
    requires a % 4 == offset && offset + i < 4
    ensures (a + i) % 2 == (offset + i) % 2
  {
    var q := a / 4;
    EvenPart(2 * q, offset + i);
  }

  lemma EvenPart(k: nat, z: nat)
    ensures (2 * k + z) % 2 == z % 2
  {
  }

  lemma WeightedNext(data: seq<byte>, k: nat, address: nat)
    requires k < |data|
    ensures Weighted(data, k + 1, address) == Weighted(data, k, address) + data[k] as nat * Weight(address + k)
  {
  }

  /** The bytes of the word at position at that belong to the data. */
  function CountAt(data: seq<byte>, at: nat, address: nat): (count: nat)
    requires at < |data|
    ensures 0 < count && (address + at) % 4 + count <= 4 && at + count <= |data|
    ensures at + count == |data| || (address + at + count) % 4 == 0
  {
    var space := 4 - (address + at) % 4;
    if space > |data| - at then |data| - at else space
  }

  /** The sum of the words from position at on. */
  ghost function RestWords(data: seq<byte>, at: nat, address: nat): nat
    requires at <= |data|
    decreases |data| - at
  {
    if at == |data| then 0
    else Partial(data, at, (address + at) % 4, CountAt(data, at, address))
         + RestWords(data, at + CountAt(data, at, address), address)
  }

  /** What the accumulator adds up to when no carry is lost. */
  ghost function Total(data: seq<byte>, address: nat): nat {
    ONES16 + RestWords(data, 0, address)
  }

  lemma {:induction false} RestCongruent(data: seq<byte>, at: nat, address: nat) returns (q: nat)
    requires at <= |data|
    ensures RestWords(data, at, address) == Weighted(data, |data|, address) - Weighted(data, at, address) + ONES16 * q
    decreases |data| - at
  {
    hide Partial, Weighted;
    q := 0;
    if at < |data| {
      var count := CountAt(data, at, address);
      var r := WordAdds(data, at, (address + at) % 4, count, address);
      q := RestCongruent(data, at + count, address);
      q := q + r;
    }
  }

  lemma {:induction false} RestBound(data: seq<byte>, at: nat, address: nat)
    requires at <= |data|
    ensures 4 * RestWords(data, at, address) <= (|data| - at + 7) * 0xffff_ffff
    ensures (address + at) % 4 == 0 ==> 4 * RestWords(data, at, address) <= (|data| - at + 3) * 0xffff_ffff
    decreases |data| - at
  {
    if at < |data| {
      RestBound(data, at + CountAt(data, at, address), address);
    }
  }

  /** Data shorter than 16 GiB cannot make the 64-bit accumulator wrap around. */
  lemma NoWrap(data: seq<byte>, address: nat)
    requires |data| <= 0x3_FFFF_FFF0
    ensures Total(data, address) < WORD64
  {
    RestBound(data, 0, address);
  }

  // ----- folding ------------------------------------------------------------------------------

  function Swap16(x: nat): (y: nat)
    requires x < 0x1_0000
    ensures y < 0x1_0000 && (x > 0 ==> y > 0)
  {
    x / 256 + x % 256 * 256
  }

  /** Swapping the bytes of a 16-bit number multiplies it by 256. */
  lemma SwapIsTimes(x: nat)
    requires x < 0x1_0000
    ensures Congruent(256 * x, Swap16(x)) && Swap16(Swap16(x)) == x
  {
    assert 256 * x - Swap16(x) == ONES16 * (x / 256);
  }

  /** The number from 1 to 2^16 - 1 with the residue of s. */
  function Residue(s: nat): (r: nat)
    ensures 1 <= r <= ONES16
  {
    if s % ONES16 == 0 then ONES16 else s % ONES16
  }

  lemma ResidueIsUnique(f: nat, s: nat)
    requires 1 <= f <= ONES16
    ensures Congruent(f, s) <==> f == Residue(s)
  {
    if Congruent(f, s) {
      var q: int :| f - s == ONES16 * q;
      if f < ONES16 {
        Remainder(s, -q, f);
      } else {
        Remainder(s, 1 - q, 0);
      }
    }
    if f == Residue(s) {
      var d := s / ONES16;
      assert s == ONES16 * d + s % ONES16;
      assert f - s == ONES16 * if s % ONES16 == 0 then 1 - d else -d;
    }
  }

  lemma Remainder(s: nat, q: int, r: nat)
    requires s == ONES16 * q + r && r < ONES16
    ensures s % ONES16 == r && s / ONES16 == q
  {
  }

  /** The folding of an accumulator, as the code does it. */
  method Fold(acc0: nat) returns (acc: nat)
    requires acc0 < WORD64
    ensures acc <= ONES16 && Congruent(acc0, acc) && (acc == 0 <==> acc0 == 0)
  {
    acc := acc0 % 0x1_0000_0000 + acc0 / 0x1_0000_0000;
    ghost var q: int := 65537 * (acc0 / 0x1_0000_0000);
    while acc / 0x1_0000 != 0
      invariant acc0 - acc == ONES16 * q && (acc == 0 <==> acc0 == 0)
      decreases acc
    {
      q := q + acc / 0x1_0000;
      acc := acc % 0x1_0000 + acc / 0x1_0000;
    }
  }

  // ----- the checksum -------------------------------------------------------------------------

  /** What is complemented in the end: the folded accumulator, its bytes swapped back when the data
      began at an odd address. */
  ghost predicate Folded(acc: nat, address: nat, f: nat) {
    exists g :: 0 <= g <= ONES16 && Congruent(acc, g) && (g == 0 <==> acc == 0)
                && f == if address % 2 == 1 then Swap16(g) else g
  }

  /** The checksum of data that lies at the given address: the complement of f in network byte order. */
  method IpChecksum(data: seq<byte>, address: nat) returns (r: nat, ghost f: nat)
    ensures Folded(Total(data, address) % WORD64, address, f) && f <= ONES16
    ensures r == Swap16(ONES16 - f)
    ensures |data| <= 0x3_FFFF_FFF0 ==> r == Swap16(ONES16 - Residue(WordSum(data)))
  {
    hide Congruent, Partial, RestWords, AddWord, Wrapped, Folded, Swap16, WordSum, Residue, Aligned, Total;
    var acc: nat, at: nat := ONES16, 0;
    ghost var total: nat := acc;
    Beginning(data, address);
    NoCarry(acc);
    var offset := address % 4;
    if offset != 0 && data != [] {
      Head(data, address);
      var count := if 4 - offset > |data| then |data| else 4 - offset;
      var word := Partial(data, 0, offset, count);
      Carry(acc, total, word);
      acc, total, at := AddWord(acc, word), total + word, count;
    }
    var length := |data| - at;
    var end := at + (length - length % 4);
    while at != end
      invariant at <= end <= |data| && (end - at) % 4 == 0 && (at < |data| ==> Aligned(address, at))
      invariant Wrapped(acc, total) && total + RestWords(data, at, address) == Total(data, address)
    {
      Middle(data, at, address);
      var word := Partial(data, at, 0, 4);
      Carry(acc, total, word);
      acc, total, at := AddWord(acc, word), total + word, at + 4;
    }
    length := length % 4;
    if length != 0 {
      Tail(data, at, address);
      var word := Partial(data, at, 0, length);
      Carry(acc, total, word);
      acc, total, at := AddWord(acc, word), total + word, at + length;
    }
    NothingRests(data, address);
    Unwrap(acc, total);
    var folded := Fold(acc);
    IsFolded(acc, address, folded);
    f := if offset % 2 == 1 then Swap16(folded) else folded;
    r := Swap16(ONES16 - if offset % 2 == 1 then Swap16(folded) else folded);
    ShortIsRight(data, address, f);
  }

  lemma ShortIsRight(data: seq<byte>, address: nat, f: nat)
    requires Folded(Total(data, address) % WORD64, address, f)
    ensures |data| <= 0x3_FFFF_FFF0 ==> f == Residue(WordSum(data))
  {
    hide Folded, WordSum, RestWords;
    if |data| <= 0x3_FFFF_FFF0 {
      NoWrap(data, address);
      ChecksumIsWordSum(data, address, f);
    }
  }

  function AddWord(acc: nat, word: nat): nat {
    (acc + word) % WORD64
  }

  /** The accumulator holds the total up to lost carries. */
  ghost predicate Wrapped(acc: nat, total: nat) {
    acc == total % WORD64
  }

  lemma NoCarry(acc: nat)
    requires acc < WORD64
    ensures Wrapped(acc, acc)
  {
  }

  lemma Carry(acc: nat, total: nat, word: nat)
    requires Wrapped(acc, total)
    ensures Wrapped(AddWord(acc, word), total + word)
  {
  }

  lemma Unwrap(acc: nat, total: nat)
    requires Wrapped(acc, total)
    ensures acc == total % WORD64 < WORD64
  {
  }

  lemma IsFolded(acc: nat, address: nat, g: nat)
    requires g <= ONES16 && Congruent(acc, g) && (g == 0 <==> acc == 0)
    ensures Folded(acc, address, if address % 4 % 2 == 1 then Swap16(g) else g)
  {
    hide Swap16, Congruent;
    assert address % 4 % 2 == address % 2;
  }

  lemma HeadOrTail(data: seq<byte>, at: nat, address: nat)
    requires at < |data|
    ensures var offset := (address + at) % 4; var count := if 4 - offset > |data| - at then |data| - at else 4 - offset;
            RestWords(data, at, address) == Partial(data, at, offset, count) + RestWords(data, at + count, address)
  {
  }

  ghost predicate Aligned(address: nat, at: nat) {
    (address + at) % 4 == 0
  }

  lemma Beginning(data: seq<byte>, address: nat)
    ensures ONES16 + RestWords(data, 0, address) == Total(data, address)
    ensures address % 4 == 0 ==> Aligned(address, 0)
  {
  }

  /** The first, partial word. */
  lemma Head(data: seq<byte>, address: nat)
    requires data != [] && address % 4 != 0
    ensures var offset := address % 4; var count := if 4 - offset > |data| then |data| else 4 - offset;
            && RestWords(data, 0, address) == Partial(data, 0, offset, count) + RestWords(data, count, address)
            && (count < |data| ==> Aligned(address, count))
  {
    HeadOrTail(data, 0, address);
  }

  /** A whole word. */
  lemma Middle(data: seq<byte>, at: nat, address: nat)
    requires at + 4 <= |data| && Aligned(address, at)
    ensures RestWords(data, at, address) == Partial(data, at, 0, 4) + RestWords(data, at + 4, address)
    ensures Aligned(address, at + 4)
  {
    HeadOrTail(data, at, address);
  }

  /** The last, partial word. */
  lemma Tail(data: seq<byte>, at: nat, address: nat)
    requires at < |data| < at + 4 && Aligned(address, at)
    ensures RestWords(data, at, address) == Partial(data, at, 0, |data| - at) + RestWords(data, |data|, address)
  {
    HeadOrTail(data, at, address);
  }

  lemma NothingRests(data: seq<byte>, address: nat)
    ensures RestWords(data, |data|, address) == 0
  {
  }

  /** RFC 1071: as long as the accumulator does not wrap around, what is complemented is the residue of
      the sum of 16-bit words, wherever the data lies. */
  lemma ChecksumIsWordSum(data: seq<byte>, address: nat, f: nat)
    requires Total(data, address) < WORD64 && Folded(Total(data, address) % WORD64, address, f)
    ensures f == Residue(WordSum(data))
  {
    hide Congruent, WordSum, RestWords, Folded;
    TotalCongruent(data, address);
    assert Total(data, address) % WORD64 == Total(data, address);
    FoldedResidue(Total(data, address), WordSum(data), address, f);
  }

  lemma Symmetric(x: int, y: int)
    requires Congruent(x, y)
    ensures Congruent(y, x)
  {
    var q: int :| x - y == ONES16 * q;
    assert y - x == ONES16 * -q;
  }

  lemma Transitive(x: int, y: int, z: int)
    requires Congruent(x, y) && Congruent(y, z)
    ensures Congruent(x, z)
  {
    var q: int :| x - y == ONES16 * q;
    var r: int :| y - z == ONES16 * r;
    assert x - z == ONES16 * (q + r);
  }

  lemma Times256(x: int, y: int)
    requires Congruent(x, y)
    ensures Congruent(256 * x, 256 * y)
  {
    var q: int :| x - y == ONES16 * q;
    assert 256 * x - 256 * y == ONES16 * (256 * q);
  }

  /** The accumulator against the sum of words: equal at an even address, swapped at an odd one. */
  lemma TotalCongruent(data: seq<byte>, address: nat)
    ensures if address % 2 == 0 then Congruent(Total(data, address), WordSum(data))
            else Congruent(256 * Total(data, address), WordSum(data))
  {
    hide WordSum, Weighted, Congruent, RestWords;
    var w := Weighted(data, |data|, address);
    TotalWeighted(data, address);
    if address % 2 == 0 {
      EvenIsWordSum(data, address);
    } else {
      OddIsSwapped(data, |data|, address);
      EvenIsWordSum(data, address + 1);
      Times256(Total(data, address), w);
      Transitive(256 * Total(data, address), 256 * w, WordSum(data));
    }
  }

  lemma TotalWeighted(data: seq<byte>, address: nat)
    ensures Congruent(Total(data, address), Weighted(data, |data|, address))
  {
    hide Weighted, RestWords;
    var q := RestCongruent(data, 0, address);
    WeightedNothing(data, address);
    assert Total(data, address) - Weighted(data, |data|, address) == ONES16 * (q + 1);
  }

  lemma FoldedResidue(total: nat, s: nat, address: nat, f: nat)
    requires 0 < total < WORD64 && Folded(total, address, f)
    requires if address % 2 == 0 then Congruent(total, s) else Congruent(256 * total, s)
    ensures f == Residue(s)
  {
    hide Swap16, Congruent;
    var g :| 0 <= g <= ONES16 && Congruent(total, g) && (g == 0 <==> total == 0)
             && f == if address % 2 == 1 then Swap16(g) else g;
    Symmetric(total, g);
    if address % 2 == 0 {
      Transitive(g, total, s);
    } else {
      SwapIsTimes(g);
      Symmetric(256 * g, f);
      Times256(g, total);
      Transitive(256 * g, 256 * total, s);
      Transitive(f, 256 * g, s);
    }
    ResidueIsUnique(f, s);
  }

  // ----- when the accumulator wraps around ----------------------------------------------------

  lemma SwappedZero(k: int)
    ensures Congruent(256 * k, 0) <==> Congruent(k, 0)
  {
    if Congruent(256 * k, 0) {
      var u: int :| 256 * k - 0 == ONES16 * u;
      assert k - 0 == ONES16 * (256 * u - k);
    }
    if Congruent(k, 0) {
      var u: int :| k - 0 == ONES16 * u;
      assert 256 * k - 0 == ONES16 * (256 * u);
    }
  }

  lemma ZeroResidue(k: nat)
    ensures Congruent(k, 0) <==> k % ONES16 == 0
  {
    if Congruent(k, 0) {
      var u: int :| k - 0 == ONES16 * u;
      Remainder(k, u, 0);
    }
    if k % ONES16 == 0 {
      assert k - 0 == ONES16 * (k / ONES16);
    }
  }

  /** Each time the accumulator wraps around it loses one, modulo 2^16 - 1. */
  lemma LostCarries(total: nat)
    ensures Congruent(total, total % WORD64 + total / WORD64)
  {
    var k := total / WORD64;
    assert total - (total % WORD64 + k) == ONES16 * (0x1_0001_0001_0001 * k);
  }

  /** What each wrap-around costs what is complemented: the bytes are swapped back at odd addresses. */
  function Factor(address: nat): nat {
    if address % 2 == 0 then 1 else 256
  }

  ghost function Wraps(data: seq<byte>, address: nat): nat {
    Total(data, address) / WORD64
  }

  lemma Shift(x: int, y: int, k: int)
    requires Congruent(x, y)
    ensures Congruent(x + k, y + k)
  {
    var q: int :| x - y == ONES16 * q;
    assert (x + k) - (y + k) == ONES16 * q;
  }

  /** What is complemented falls short of the sum of words by one, or 256, for every wrap-around; if the
      accumulator has become zero it is zero. */
  lemma FallsShort(data: seq<byte>, address: nat, f: nat)
    requires Folded(Total(data, address) % WORD64, address, f)
    ensures f == 0 <==> Total(data, address) % WORD64 == 0
    ensures f <= ONES16 && (f != 0 ==> Congruent(f + Factor(address) * Wraps(data, address), WordSum(data)))
  {
    hide Swap16, Congruent, WordSum, RestWords;
    var total, s, k := Total(data, address), WordSum(data), Wraps(data, address);
    var acc := total % WORD64;
    var g :| 0 <= g <= ONES16 && Congruent(acc, g) && (g == 0 <==> acc == 0)
             && f == if address % 2 == 1 then Swap16(g) else g;
    SwapZero();
    if acc != 0 {
      TotalCongruent(data, address);
      LostCarries(total);
      Symmetric(total, acc + k);
      Symmetric(acc, g);
      if address % 2 == 0 {
        Shift(f, acc, k);
        Transitive(f + k, acc + k, total);
        Transitive(f + k, total, s);
      } else {
        SwapIsTimes(g);
        Symmetric(256 * g, f);
        Times256(g, acc);
        Transitive(f, 256 * g, 256 * acc);
        Shift(f, 256 * acc, 256 * k);
        Times256(acc + k, total);
        assert 256 * (acc + k) == 256 * acc + 256 * k;
        Transitive(f + 256 * k, 256 * acc + 256 * k, 256 * total);
        Transitive(f + 256 * k, 256 * total, s);
      }
    }
  }

  /** Two numbers from 1 to 2^16 - 1 that fall short of s by a and by b are equal just if a and b are
      congruent. */
  lemma EqualShortfall(f1: nat, f2: nat, a: nat, b: nat, s: nat)
    requires 1 <= f1 <= ONES16 && 1 <= f2 <= ONES16 && Congruent(f1 + a, s) && Congruent(f2 + b, s)
    ensures f1 == f2 <==> Congruent(a, b)
  {
    hide Residue;
    Symmetric(f2 + b, s);
    Transitive(f1 + a, s, f2 + b);
    if f1 == f2 { Shift(f1 + a, f2 + b, 0 - f1 as int); }
    if Congruent(a, b) {
      Shift(a, b, f2);
      Symmetric(a + f2, b + f2);
      Transitive(f1 + a, f2 + b, f2 + a);
      Shift(f1 + a, f2 + a, 0 - a as int);
      ResidueIsUnique(f1, f2);
      Reflexive(f2);
      ResidueIsUnique(f2, f2);
    }
  }

  lemma Reflexive(x: int)
    ensures Congruent(x, x)
  {
    assert x - x == ONES16 * 0;
  }

  /** Exactly when the checksum is right: the accumulator is not zero and the number of times it has
      wrapped around is a multiple of 2^16 - 1, for instance zero. */
  lemma CorrectIff(data: seq<byte>, address: nat, f: nat)
    requires Folded(Total(data, address) % WORD64, address, f)
    ensures f == Residue(WordSum(data))
       <==> Total(data, address) % WORD64 != 0 && Wraps(data, address) % ONES16 == 0
  {
    hide Congruent, WordSum, RestWords, Folded, Residue;
    var s, k := WordSum(data), Wraps(data, address);
    FallsShort(data, address, f);
    if f != 0 {
      Reflexive(Residue(s));
      ResidueIsUnique(Residue(s), s);
      EqualShortfall(f, Residue(s), Factor(address) * k, 0, s);
      SwappedZero(k);
      ZeroResidue(k);
    }
  }

  /** Exactly when equal bytes have equal checksums at two addresses: both accumulators have become
      zero, or neither has and their wrap-arounds cost the same. */
  lemma AlignmentIff(data: seq<byte>, address1: nat, address2: nat, f1: nat, f2: nat)
    requires Folded(Total(data, address1) % WORD64, address1, f1)
    requires Folded(Total(data, address2) % WORD64, address2, f2)
    ensures var zero1, zero2 := Total(data, address1) % WORD64 == 0, Total(data, address2) % WORD64 == 0;
            f1 == f2 <==> zero1 == zero2
                          && (zero1 || Congruent(Factor(address1) * Wraps(data, address1),
                              Factor(address2) * Wraps(data, address2)))
  {
    hide Congruent, WordSum, RestWords, Folded;
    FallsShort(data, address1, f1);
    FallsShort(data, address2, f2);
    if f1 != 0 && f2 != 0 {
      EqualShortfall(f1, f2, Factor(address1) * Wraps(data, address1), Factor(address2) * Wraps(data, address2),
          WordSum(data));
    }
  }

  /** Without wrap-around, so for all data up to 16 bytes below 16 GiB, equal bytes have equal checksums
      at every two addresses. */
  lemma AlignmentIndependent(data: seq<byte>, address1: nat, address2: nat, f1: nat, f2: nat)
    requires |data| <= 0x3_FFFF_FFF0
    requires Folded(Total(data, address1) % WORD64, address1, f1)
    requires Folded(Total(data, address2) % WORD64, address2, f2)
    ensures f1 == f2 == Residue(WordSum(data))
  {
    hide Folded, RestWords, WordSum;
    NoWrap(data, address1);
    NoWrap(data, address2);
    ChecksumIsWordSum(data, address1, f1);
    ChecksumIsWordSum(data, address2, f2);
  }

  lemma SwapZero()
    ensures Swap16(0) == 0
  {
  }

  /** The last word of data made of ones, when count bytes are left. */
  function LastOnes(count: nat): nat {
    if count == 0 then 0 else if count == 1 then 0xff00_0000 else if count == 2 then 0xffff_0000 else 0xffff_ff00
  }

  lemma {:induction false} AllOnes(data: seq<byte>, at: nat, address: nat)
    requires at <= |data| && (address + at) % 4 == 0 && forall i :: 0 <= i < |data| ==> data[i] == 255
    ensures RestWords(data, at, address) == (|data| - at) / 4 * 0xffff_ffff + LastOnes((|data| - at) % 4)
    decreases |data| - at
  {
    if at + 4 <= |data| {
      AllOnes(data, at + 4, address);
      assert (|data| - at) / 4 == (|data| - (at + 4)) / 4 + 1;
    } else if at < |data| {
      assert CountAt(data, at, address) == |data| - at;
      NothingRests(data, address);
    }
  }

  /** Just over 16 GiB of ones. */
  ghost predicate LongOnes(data: seq<byte>) {
    |data| == 0x4_0000_0004 && forall i :: 0 <= i < |data| ==> data[i] == 255
  }

  /** They wrap the accumulator around once, at an aligned address and at the next. */
  lemma LongTotals(data: seq<byte>)
    requires LongOnes(data)
    ensures Total(data, 0) == Total(data, 1) == WORD64 + 65534
  {
    hide RestWords, Partial;
    AllOnes(data, 0, 0);
    LongTail(data);
  }

  /** At the next address: three bytes and then whole words but for the last byte. */
  lemma LongTail(data: seq<byte>)
    requires LongOnes(data)
    ensures RestWords(data, 0, 1) == 0x00ff_ffff + 0x1_0000_0000 * 0xffff_ffff + 0xff00_0000
  {
    hide RestWords, Partial;
    HeadOrTail(data, 0, 1);
    ThreeOnes(data);
    AllOnes(data, 3, 1);
  }

  lemma ThreeOnes(data: seq<byte>)
    requires LongOnes(data)
    ensures CountAt(data, 0, 1) == 3 && Partial(data, 0, 1, 3) == 0x00ff_ffff
  {
  }

  /** At an aligned address their checksum is not that of RFC 1071. */
  lemma TooLong(data: seq<byte>, f: nat)
    requires LongOnes(data) && Folded(Total(data, 0) % WORD64, 0, f)
    ensures f != Residue(WordSum(data))
  {
    hide RestWords, Folded;
    LongTotals(data);
    CorrectIff(data, 0, f);
  }

  /** And at the next address it is another one. */
  lemma AlignmentMatters(data: seq<byte>, f0: nat, f1: nat)
    requires LongOnes(data) && Folded(Total(data, 0) % WORD64, 0, f0) && Folded(Total(data, 1) % WORD64, 1, f1)
    ensures f0 != f1
  {
    hide RestWords, Folded;
    LongTotals(data);
    AlignmentIff(data, 0, 1, f0, f1);
    ResidueIsUnique(1, 256);
  }
}
