/** 64-bit bitmaps: single bits, masks, and the bit-trick count of ones. */
module Popcount {

  // ----- single bits --------------------------------------------------------------------------

  /** The word with bit i alone. */
  function One(i: nat): bv64
    requires i < 64
  {
    Shifted(i as bv6)
  }

  function And(x: bv64, m: bv64): bv64 {
    x & m
  }

  function Or(x: bv64, m: bv64): bv64 {
    x | m
  }

  function AndNot(x: bv64, m: bv64): bv64 {
    x & !m
  }

  predicate Has(x: bv64, i: nat)
    requires i < 64
  {
    And(x, One(i)) != 0
  }

  /** The number of ones below position k. */
  ghost function Ones(x: bv64, k: nat): (n: nat)
    requires k <= 64
    ensures n <= k
  {
    if k == 0 then 0 else Ones(x, k - 1) + if Has(x, k - 1) then 1 else 0
  }

  lemma {:induction false} IndexOrder(i: nat, j: nat)
    requires i < j < 64
    ensures (i as bv6) < (j as bv6)
  {
    Successor(j - 1);
    if i + 1 < j {
      IndexOrder(i, j - 1);
    }
    AfterSmaller((j - 1) as bv6);
  }

  lemma AfterSmaller(b: bv6)
    requires b < 63
    ensures b < b + 1
  {
  }

  function Shifted(a: bv6): bv64 {
    (1 as bv64) << a
  }

  lemma BitOrder(a: bv6, b: bv6)
    requires a < b
    ensures And(Shifted(a), Shifted(b)) == 0 && And(Shifted(b), Shifted(a)) == 0
    ensures And(Shifted(a), Shifted(b) - 1) == Shifted(a)
    ensures And(Shifted(b), Shifted(a) - 1) == 0
  {
  }

  lemma OneAlone(a: bv6)
    ensures Shifted(a) != 0 && And(Shifted(a), Shifted(a)) == Shifted(a)
    ensures And(Shifted(a), Shifted(a) - 1) == 0
  {
  }

  /** Two single bits are disjoint unless equal, and the mask below bit j holds exactly the lower ones. */
  lemma TwoBits(i: nat, j: nat)
    requires i < 64 && j < 64
    ensures And(One(i), One(j)) == if i == j then One(i) else 0
    ensures And(One(i), One(j) - 1) == if i < j then One(i) else 0
    ensures One(i) != 0
  {
    hide And, Shifted;
    OneAlone(i as bv6);
    if i < j {
      IndexOrder(i, j);
      BitOrder(i as bv6, j as bv6);
    } else if j < i {
      IndexOrder(j, i);
      BitOrder(j as bv6, i as bv6);
    }
  }

  lemma ApartOr(x: bv64, p: bv64, q: bv64)
    requires And(p, q) == 0
    ensures And(Or(x, p), q) == And(x, q)
  {
    assert And(Or(x, p), q) == Or(And(x, q), And(p, q));
  }

  lemma ApartAndNot(x: bv64, p: bv64, q: bv64)
    requires And(p, q) == 0
    ensures And(AndNot(x, p), q) == And(x, q)
  {
    assert And(AndNot(x, p), q) == AndNot(And(x, q), And(p, q));
  }

  lemma ApartAnd(x: bv64, p: bv64, q: bv64)
    requires And(p, q) == 0
    ensures And(And(x, p), q) == 0
  {
    assert And(And(x, p), q) == And(x, And(p, q));
  }

  lemma Same(x: bv64, p: bv64)
    requires p != 0
    ensures And(Or(x, p), p) != 0 && And(AndNot(x, p), p) == 0
  {
  }

  lemma Covered(x: bv64, m: bv64, q: bv64)
    requires And(q, m) == q
    ensures And(And(x, m), q) == And(x, q)
  {
  }

  lemma Commutes(p: bv64, q: bv64)
    ensures And(p, q) == And(q, p)
  {
  }

  /** Setting and clearing bit i, seen at bit j. */
  lemma BitOps(x: bv64, i: nat, j: nat)
    requires i < 64 && j < 64
    ensures Has(Or(x, One(i)), j) <==> i == j || Has(x, j)
    ensures Has(AndNot(x, One(i)), j) <==> i != j && Has(x, j)
  {
    hide One, And, Or, AndNot;
    TwoBits(i, j);
    if i == j {
      Same(x, One(i));
    } else {
      ApartOr(x, One(i), One(j));
      ApartAndNot(x, One(i), One(j));
    }
  }

  lemma MaskOp(x: bv64, i: nat, j: nat)
    requires i < 64 && j < 64
    ensures Has(And(x, One(i) - 1), j) <==> j < i && Has(x, j)
  {
    hide One, And, Or, AndNot;
    TwoBits(j, i);
    if j < i {
      Covered(x, One(i) - 1, One(j));
    } else {
      Commutes(One(i) - 1, One(j));
      ApartAnd(x, One(i) - 1, One(j));
    }
  }

  lemma {:induction false} OnesSame(x: bv64, y: bv64, k: nat)
    requires k <= 64 && forall j :: 0 <= j < k ==> Has(x, j) == Has(y, j)
    ensures Ones(x, k) == Ones(y, k)
  {
    hide Has;
    if k > 0 {
      OnesSame(x, y, k - 1);
    }
  }

  lemma {:induction false} OnesNone(x: bv64, i: nat, k: nat)
    requires i <= k <= 64 && forall j :: i <= j < k ==> !Has(x, j)
    ensures Ones(x, k) == Ones(x, i)
  {
    hide Has;
    if k > i {
      OnesNone(x, i, k - 1);
    }
  }

  /** The ones of a word masked below bit i are its ones below i. */
  lemma OnesMasked(x: bv64, i: nat)
    requires i < 64
    ensures Ones(And(x, One(i) - 1), 64) == Ones(x, i)
  {
    hide Has, One, And;
    var y := And(x, One(i) - 1);
    forall j | 0 <= j < 64 ensures Has(y, j) <==> j < i && Has(x, j) {
      MaskOp(x, i, j);
    }
    OnesSame(y, x, i);
    OnesNone(y, i, 64);
  }

  lemma {:induction false} OnesGrow(x: bv64, i: nat, k: nat)
    requires i <= k <= 64
    ensures Ones(x, i) <= Ones(x, k)
    ensures i < k && Has(x, i) ==> Ones(x, i) < Ones(x, k)
  {
    hide Has;
    if i < k {
      OnesGrow(x, i, k - 1);
    }
  }

  /** Setting or clearing bit i moves the count of everything above it by one. */
  lemma {:induction false} OnesChange(x: bv64, i: nat, k: nat)
    requires i < 64 && k <= 64
    ensures !Has(x, i) ==> Ones(Or(x, One(i)), k) == Ones(x, k) + if i < k then 1 else 0
    ensures Has(x, i) ==> Ones(AndNot(x, One(i)), k) == Ones(x, k) - if i < k then 1 else 0
  {
    hide Has, One, Or, AndNot;
    if k > 0 {
      OnesChange(x, i, k - 1);
      BitOps(x, i, k - 1);
    }
  }

  // ----- shifting the word down ---------------------------------------------------------------

  function Down(x: bv64): bv64 {
    x >> 1
  }

  predicate Odd(x: bv64) {
    x & 1 == 1
  }

  lemma DownAnd(x: bv64, m: bv64)
    ensures And(Down(x), Down(m)) == Down(And(x, m))
  {
  }

  lemma DownShifted(b: bv6, c: bv6)
    requires b < 63 && c == b + 1
    ensures Down(Shifted(c)) == Shifted(b)
  {
  }

  lemma ZeroOrBit(x: bv64, b: bv6)
    ensures And(x, Shifted(b)) == 0 || And(x, Shifted(b)) == Shifted(b)
  {
  }

  lemma DownZero()
    ensures Down(0) == 0 && Shifted(0) == 1
  {
  }

  lemma DownBit(x: bv64, b: bv6, c: bv6)
    requires b < 63 && c == b + 1
    ensures And(Down(x), Shifted(b)) == 0 <==> And(x, Shifted(c)) == 0
  {
    hide And, Down, Shifted;
    DownAnd(x, Shifted(c));
    DownShifted(b, c);
    ZeroOrBit(x, c);
    DownZero();
    OneAlone(b);
    OneAlone(c);
  }

  lemma DownLess(x: bv64)
    requires x != 0
    ensures Down(x) < x
  {
  }

  lemma OddBit(x: bv64)
    ensures Odd(x) <==> And(x, 1) == 1
    ensures And(0, x) == 0
  {
  }

  lemma LastBit(x: bv64)
    ensures Odd(x) <==> And(x, Shifted(0)) != 0
    ensures x != 0 ==> Down(x) < x
    ensures And(0, x) == 0
  {
    hide And, Down, Shifted, Odd;
    OddBit(x);
    DownZero();
    ZeroOrBit(x, 0);
    if x != 0 {
      DownLess(x);
    }
  }

  lemma Successor(j: nat)
    requires j < 63
    ensures (j as bv6) < 63 && (j + 1) as bv6 == (j as bv6) + 1
  {
    var b := j as bv6;
    assert b as nat == j;
    NextIsLarger(b);
  }

  lemma NextIsLarger(b: bv6)
    requires b as nat < 63
    ensures b < 63 && (b + 1) as nat == b as nat + 1
  {
  }

  lemma DownHas(x: bv64, j: nat)
    requires j < 63
    ensures Has(Down(x), j) <==> Has(x, j + 1)
  {
    hide And, Down, Shifted;
    Successor(j);
    DownBit(x, j as bv6, (j + 1) as bv6);
  }

  lemma OddHas(x: bv64)
    ensures Odd(x) <==> Has(x, 0)
    ensures x != 0 ==> Down(x) < x
    ensures forall j :: 0 <= j < 64 ==> !Has(0, j)
  {
    hide And, Odd, Shifted;
    LastBit(x);
    forall j | 0 <= j < 64 ensures !Has(0, j) {
      LastBit(One(j));
    }
  }

  // ----- the bit trick ------------------------------------------------------------------------

  function Pairs(x: bv64): bv64 {
    x - ((x >> 1) & 0x5555_5555_5555_5555)
  }

  function Nibbles(x: bv64): bv64 {
    (x & 0x3333_3333_3333_3333) + ((x >> 2) & 0x3333_3333_3333_3333)
  }

  function Bytes(x: bv64): bv64 {
    (x + (x >> 4)) & 0x0f0f_0f0f_0f0f_0f0f
  }

  function Gather(x: bv64): bv64 {
    (x * 0x0101_0101_0101_0101) >> 56
  }

  function FallbackPopcountll(x: bv64): nat {
    Num(Gather(Bytes(Nibbles(Pairs(x)))))
  }

  /** The field of x at position i under mask m. */
  function Cut(x: bv64, i: bv6, m: bv64): bv64 {
    (x >> i) & m
  }

  function Add(a: bv64, b: bv64): bv64 {
    a + b
  }

  /** The number in a narrow field. */
  function Num(a: bv64): nat {
    (a & 255) as bv8 as nat
  }

  function Val(x: bv64, i: bv6, m: bv64): nat {
    Num(Cut(x, i, m))
  }

  lemma Plus(a: bv8, b: bv8)
    requires a <= 63 && b <= 63
    ensures (a + b) as nat == a as nat + b as nat
  {
    assert (a + b) as nat <= 126;
    assert a as nat <= 63 && b as nat <= 63;
  }

  lemma Narrow(a: bv64, b: bv64)
    requires a <= 63 && b <= 63
    ensures ((a + b) & 255) as bv8 == ((a & 255) as bv8) + ((b & 255) as bv8)
    ensures ((a & 255) as bv8) <= 63 && ((b & 255) as bv8) <= 63
  {
  }

  lemma Sum(a: bv64, b: bv64)
    requires a <= 63 && b <= 63
    ensures Num(Add(a, b)) == Num(a) + Num(b)
  {
    Narrow(a, b);
    Plus((a & 255) as bv8, (b & 255) as bv8);
  }

  // Step by step: two-bit, four-bit and eight-bit fields hold the counts of their bits.

  /** The pair sums without arithmetic: low bits by exclusive or, high bits by and. */
  function HalfAdded(x: bv64): bv64 {
    ((x ^ (x >> 1)) & 0x5555_5555_5555_5555) | ((x & (x >> 1) & 0x5555_5555_5555_5555) << 1)
  }

  lemma PairsHalfAdd(x: bv64)
    ensures Pairs(x) == HalfAdded(x)
  {
  }

  function Xor(a: bv64, b: bv64): bv64 {
    a ^ b
  }

  function Join(low: bv64, high: bv64): bv64 {
    low | (high << 1)
  }

  lemma LowBit(x: bv64, i: bv6)
    requires i & 1 == 0
    ensures Cut(HalfAdded(x), i, 1) == Xor(Cut(x, i, 1), Cut(x, i + 1, 1))
  {
  }

  lemma HighBit(x: bv64, i: bv6)
    requires i & 1 == 0
    ensures Cut(HalfAdded(x), i + 1, 1) == And(Cut(x, i, 1), Cut(x, i + 1, 1))
  {
  }

  lemma TwoBitField(p: bv64, i: bv6)
    requires i & 1 == 0
    ensures Cut(p, i, 3) == Join(Cut(p, i, 1), Cut(p, i + 1, 1))
  {
  }

  lemma BitAdd(a: bv64, b: bv64)
    requires a <= 1 && b <= 1
    ensures Add(a, b) == Join(Xor(a, b), And(a, b))
  {
  }

  lemma PairBits(x: bv64, i: bv6, j: bv6)
    requires i & 1 == 0 && j == i + 1
    ensures Cut(Pairs(x), i, 3) == Add(Cut(x, i, 1), Cut(x, j, 1))
  {
    hide Pairs, HalfAdded, Cut, Add, Join, Xor, And;
    PairsHalfAdd(x);
    LowBit(x, i);
    HighBit(x, i);
    TwoBitField(HalfAdded(x), i);
    BitLow(x, i);
    BitLow(x, j);
    BitAdd(Cut(x, i, 1), Cut(x, j, 1));
  }

  lemma BitLow(x: bv64, i: bv6)
    ensures Cut(x, i, 1) <= 1
  {
  }

  lemma PairVal(x: bv64, i: bv6, j: bv6)
    requires i & 1 == 0 && j == i + 1
    ensures Val(Pairs(x), i, 3) == Val(x, i, 1) + Val(x, j, 1)
  {
    hide Pairs, Cut, Add, Num;
    PairBits(x, i, j);
    BitLow(x, i);
    BitLow(x, j);
    Sum(Cut(x, i, 1), Cut(x, j, 1));
  }

  lemma PairsFit(x: bv64)
    ensures Pairs(x) & (Pairs(x) >> 1) & 0x5555_5555_5555_5555 == 0
  {
  }

  lemma NibbleBits(x: bv64, i: bv6)
    requires i & 3 == 0 && x & (x >> 1) & 0x5555_5555_5555_5555 == 0
    ensures Cut(Nibbles(x), i, 15) == Add(Cut(x, i, 3), Cut(x, i + 2, 3))
    ensures Cut(x, i, 3) <= 63 && Cut(x, i + 2, 3) <= 63
  {
  }

  lemma NibbleVal(x: bv64, i: bv6, j: bv6)
    requires i & 3 == 0 && j == i + 2 && x & (x >> 1) & 0x5555_5555_5555_5555 == 0
    ensures Val(Nibbles(x), i, 15) == Val(x, i, 3) + Val(x, j, 3)
  {
    hide Nibbles, Cut, Add, Num;
    NibbleBits(x, i);
    Sum(Cut(x, i, 3), Cut(x, j, 3));
  }

  lemma NibblesFit(x: bv64)
    requires x & (x >> 1) & 0x5555_5555_5555_5555 == 0
    ensures Nibbles(x) & 0x7777_7777_7777_7777 == Nibbles(x)
  {
  }

  lemma ByteBits(x: bv64, i: bv6)
    requires i & 7 == 0 && x & 0x7777_7777_7777_7777 == x
    ensures Cut(Bytes(x), i, 255) == Add(Cut(x, i, 15), Cut(x, i + 4, 15))
    ensures Cut(x, i, 15) <= 63 && Cut(x, i + 4, 15) <= 63
  {
  }

  lemma ByteVal(x: bv64, i: bv6, j: bv6)
    requires i & 7 == 0 && j == i + 4 && x & 0x7777_7777_7777_7777 == x
    ensures Val(Bytes(x), i, 255) == Val(x, i, 15) + Val(x, j, 15)
  {
    hide Bytes, Cut, Add, Num;
    ByteBits(x, i);
    Sum(Cut(x, i, 15), Cut(x, j, 15));
  }

  // The product with 0x0101010101010101 = 0x101 * 0x10001 * 0x100000001 adds the bytes up by halves.

  function TopByte(z: bv64): bv64 {
    (z * 0x1_0000_0001) >> 56
  }

  function TopOfFour(y: bv64): bv64 {
    TopByte(y * 0x1_0001)
  }

  function TopOfEight(x: bv64): bv64 {
    TopOfFour(x * 0x101)
  }

  lemma Factored(x: bv64)
    ensures Gather(x) == TopByte(x * 0x0101_0101)
  {
  }

  lemma Refactored(x: bv64)
    ensures TopByte(x * 0x0101_0101) == TopOfEight(x)
  {
    hide TopByte;
    assert TopOfFour(x * 0x101) == TopByte(x * 0x0101_0101);
  }

  lemma DoubledBits(x: bv64, y: bv64, i: bv6, j: bv6)
    requires i & 7 == 0 && i >= 8 && j == i - 8 && x & 0x0f0f_0f0f_0f0f_0f0f == x && y == x * 0x101
    ensures Cut(y, i, 255) == Add(Cut(x, i, 255), Cut(x, j, 255))
    ensures Cut(x, i, 255) <= 63 && Cut(x, j, 255) <= 63
  {
  }

  lemma QuadrupledBits(y: bv64, z: bv64, i: bv6, j: bv6)
    requires i & 7 == 0 && i >= 16 && j == i - 16 && y & 0x1f1f_1f1f_1f1f_1f1f == y && z == y * 0x1_0001
    ensures Cut(z, i, 255) == Add(Cut(y, i, 255), Cut(y, j, 255))
    ensures Cut(y, i, 255) <= 63 && Cut(y, j, 255) <= 63
  {
  }

  lemma TopBits(z: bv64)
    requires z & 0x3f3f_3f3f_3f3f_3f3f == z
    ensures TopByte(z) == Add(Cut(z, 56, 255), Cut(z, 24, 255))
    ensures Cut(z, 56, 255) <= 63 && Cut(z, 24, 255) <= 63
  {
  }

  lemma DoubledFits(x: bv64, y: bv64)
    requires x & 0x0f0f_0f0f_0f0f_0f0f == x && y == x * 0x101
    ensures y & 0x1f1f_1f1f_1f1f_1f1f == y
  {
  }

  lemma QuadrupledFits(y: bv64, z: bv64)
    requires y & 0x1f1f_1f1f_1f1f_1f1f == y && z == y * 0x1_0001
    ensures z & 0x3f3f_3f3f_3f3f_3f3f == z
  {
  }

  lemma DoubledVal(x: bv64, y: bv64, i: bv6, j: bv6)
    requires i & 7 == 0 && i >= 8 && j == i - 8 && x & 0x0f0f_0f0f_0f0f_0f0f == x && y == x * 0x101
    ensures Val(y, i, 255) == Val(x, i, 255) + Val(x, j, 255)
  {
    hide Cut, Add, Num;
    DoubledBits(x, y, i, j);
    Sum(Cut(x, i, 255), Cut(x, j, 255));
  }

  lemma QuadrupledVal(y: bv64, z: bv64, i: bv6, j: bv6)
    requires i & 7 == 0 && i >= 16 && j == i - 16 && y & 0x1f1f_1f1f_1f1f_1f1f == y && z == y * 0x1_0001
    ensures Val(z, i, 255) == Val(y, i, 255) + Val(y, j, 255)
  {
    hide Cut, Add, Num;
    QuadrupledBits(y, z, i, j);
    Sum(Cut(y, i, 255), Cut(y, j, 255));
  }

  lemma TopVal(z: bv64)
    requires z & 0x3f3f_3f3f_3f3f_3f3f == z
    ensures Num(TopByte(z)) == Val(z, 56, 255) + Val(z, 24, 255)
  {
    hide Cut, Add, Num, TopByte;
    TopBits(z);
    Sum(Cut(z, 56, 255), Cut(z, 24, 255));
  }

  lemma FourVal(y: bv64, z: bv64)
    requires y & 0x1f1f_1f1f_1f1f_1f1f == y && z == y * 0x1_0001
    ensures Num(TopOfFour(y)) == Val(y, 56, 255) + Val(y, 40, 255) + Val(y, 24, 255) + Val(y, 8, 255)
  {
    hide Val, Num, TopByte;
    QuadrupledFits(y, z);
    TopVal(z);
    QuadrupledVal(y, z, 56, 40);
    QuadrupledVal(y, z, 24, 8);
  }

  ghost function ByteSum(x: bv64): nat {
    Val(x, 56, 255) + Val(x, 48, 255) + Val(x, 40, 255) + Val(x, 32, 255)
    + Val(x, 24, 255) + Val(x, 16, 255) + Val(x, 8, 255) + Val(x, 0, 255)
  }

  lemma EightVal(x: bv64, y: bv64)
    requires x & 0x0f0f_0f0f_0f0f_0f0f == x && y == x * 0x101
    ensures Num(TopOfEight(x)) == ByteSum(x)
  {
    hide Val, Num, TopOfFour;
    DoubledFits(x, y);
    FourVal(y, y * 0x1_0001);
    DoubledVal(x, y, 56, 48);
    DoubledVal(x, y, 40, 32);
    DoubledVal(x, y, 24, 16);
    DoubledVal(x, y, 8, 0);
  }

  lemma GatherIsTop(x: bv64)
    ensures Gather(x) == TopOfEight(x)
  {
    hide TopOfEight, TopByte, Gather;
    Factored(x);
    Refactored(x);
  }

  lemma GatherAdds(x: bv64)
    requires x & 0x0f0f_0f0f_0f0f_0f0f == x
    ensures Num(Gather(x)) == ByteSum(x)
  {
    hide Num, TopOfEight, Gather, ByteSum;
    GatherIsTop(x);
    EightVal(x, x * 0x101);
  }

  // ----- ones, byte by byte -------------------------------------------------------------------

  lemma BytesFit(x: bv64)
    ensures Bytes(x) & 0x0f0f_0f0f_0f0f_0f0f == Bytes(x)
  {
  }

  lemma NibbleHolds(x: bv64, i: bv6, j: bv6, k: bv6, l: bv6)
    requires i & 3 == 0 && j == i + 1 && k == i + 2 && l == i + 3
    ensures Val(Nibbles(Pairs(x)), i, 15) == Val(x, i, 1) + Val(x, j, 1) + Val(x, k, 1) + Val(x, l, 1)
  {
    hide Val, Nibbles, Pairs;
    PairsFit(x);
    NibbleVal(Pairs(x), i, k);
    PairVal(x, i, j);
    PairVal(x, k, l);
  }

  lemma ByteHolds(x: bv64, i: bv6)
    requires i & 7 == 0
    ensures Val(Bytes(Nibbles(Pairs(x))), i, 255) == Val(Nibbles(Pairs(x)), i, 15) + Val(Nibbles(Pairs(x)), i + 4, 15)
  {
    hide Val, Bytes, Nibbles, Pairs;
    PairsFit(x);
    NibblesFit(Pairs(x));
    ByteVal(Nibbles(Pairs(x)), i, i + 4);
  }

  lemma BitShift(x: bv64, b: bv6)
    ensures x & ((1 as bv64) << b) != 0 ==> (x >> b) & 1 == 1
    ensures x & ((1 as bv64) << b) == 0 ==> (x >> b) & 1 == 0
  {
  }

  lemma BitCut(x: bv64, b: bv6)
    ensures Cut(x, b, 1) == if And(x, Shifted(b)) != 0 then 1 else 0
  {
    BitShift(x, b);
  }

  lemma NumBit()
    ensures Num(0) == 0 && Num(1) == 1
  {
  }

  lemma SameIndex(i: nat, b: bv6)
    requires i == b as nat
    ensures i < 64 && One(i) == Shifted(b)
  {
    hide Shifted;
  }

  lemma BitVal(x: bv64, i: nat, b: bv6)
    requires i == b as nat && i < 64
    ensures Val(x, b, 1) == if Has(x, i) then 1 else 0
  {
    hide Num, Cut, And, Shifted, One;
    SameIndex(i, b);
    BitCut(x, b);
    NumBit();
  }

  lemma NextIndex(i: nat, b: bv6)
    requires i == b as nat && b & 3 == 0
    ensures i + 3 < 64 && (b + 1) as nat == i + 1 && (b + 2) as nat == i + 2 && (b + 3) as nat == i + 3
  {
  }

  lemma NibbleOnes(x: bv64, i: nat, b: bv6)
    requires i == b as nat && b & 3 == 0
    ensures i + 4 <= 64 && Ones(x, i + 4) == Ones(x, i) + Val(Nibbles(Pairs(x)), b, 15)
  {
    hide Val, Nibbles, Pairs, Has;
    NextIndex(i, b);
    NibbleHolds(x, b, b + 1, b + 2, b + 3);
    BitVal(x, i, b);
    BitVal(x, i + 1, b + 1);
    BitVal(x, i + 2, b + 2);
    BitVal(x, i + 3, b + 3);
    assert Ones(x, i + 2) == Ones(x, i) + Val(x, b, 1) + Val(x, b + 1, 1);
  }

  lemma ByteOnes(x: bv64, i: nat, b: bv6, c: bv6)
    requires i == b as nat && i + 4 == c as nat && b & 7 == 0 && c & 3 == 0 && c == b + 4
    ensures i + 8 <= 64 && Ones(x, i + 8) == Ones(x, i) + Val(Bytes(Nibbles(Pairs(x))), b, 255)
  {
    hide Val, Bytes, Nibbles, Pairs, Has, Ones;
    ByteHolds(x, b);
    NibbleOnes(x, i, b);
    NibbleOnes(x, i + 4, c);
  }

  /** The bit trick counts the ones. */
  lemma PopcountIsOnes(x: bv64)
    ensures FallbackPopcountll(x) == Ones(x, 64)
  {
    hide Val, Bytes, Nibbles, Pairs, Ones, Gather;
    BytesFit(Nibbles(Pairs(x)));
    GatherAdds(Bytes(Nibbles(Pairs(x))));
    ByteOnes(x, 0, 0, 4);
    ByteOnes(x, 8, 8, 12);
    ByteOnes(x, 16, 16, 20);
    ByteOnes(x, 24, 24, 28);
    ByteOnes(x, 32, 32, 36);
    ByteOnes(x, 40, 40, 44);
    ByteOnes(x, 48, 48, 52);
    ByteOnes(x, 56, 56, 60);
    assert Ones(x, 0) == 0;
  }
}
