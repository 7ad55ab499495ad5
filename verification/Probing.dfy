/** Quadratic probing modulo a power of two: the steps 1, 2, 3, ... add up to triangular numbers, and
    these hit every residue. */
module Probing {
  import opened Common
  import opened GrowthPolicy

  function Triangle(p: nat): nat {
    if p == 0 then 0 else Triangle(p - 1) + p
  }

  /** The bucket of the p-th probe from h in a table of n buckets. */
  function Probe(h: nat, p: nat, n: nat): (b: nat)
    requires n > 0
    ensures b < n
  {
    (h + Triangle(p)) % n
  }

  lemma {:induction false} TriangleForm(p: nat)
    ensures 2 * Triangle(p) == p * (p + 1)
  {
    if p > 0 {
      TriangleForm(p - 1);
    }
  }

  ghost predicate Divides(d: nat, x: int)
    requires d > 0
  {
    x % d == 0
  }

  /** A power of two that divides a product with an odd factor divides the other factor. */
  lemma {:induction false} OddFactor(j: nat, a: nat, b: nat)
    requires b % 2 == 1 && Divides(Pow2(j), a * b)
    ensures Divides(Pow2(j), a)
  {
    if j > 0 {
      var p := Pow2(j - 1);
      Halve(a * b, p);
      ProductParity(a, b);
      assert a * b == 2 * ((a / 2) * b);
      OddFactor(j - 1, a / 2, b);
      Twice(a / 2, p);
    }
  }

  lemma Halve(x: nat, p: nat)
    requires p > 0 && Divides(2 * p, x)
    ensures x % 2 == 0 && Divides(p, x / 2)
  {
    ModHalves(x, p);
  }

  lemma Twice(x: nat, p: nat)
    requires p > 0 && Divides(p, x)
    ensures Divides(2 * p, 2 * x)
  {
    ModHalves(2 * x, p);
  }

  lemma ProductParity(a: nat, b: nat)
    requires b % 2 == 1 && (a * b) % 2 == 0
    ensures a % 2 == 0
  {
    var c := b / 2;
    assert a * b == 2 * (a * c) + a by {
      assert b == 2 * c + 1;
    }
  }

  lemma SameResidue(x: nat, y: nat, n: nat)
    requires n > 0 && x <= y && x % n == y % n
    ensures Divides(n, y - x)
  {
    var q := y / n - x / n;
    assert y - x == n * q + 0 by {
      assert x == n * (x / n) + x % n && y == n * (y / n) + y % n;
      assert n * (y / n) - n * (x / n) == n * (y / n - x / n);
    }
    DivModUnique(y - x, n, q, 0);
  }

  lemma NoSmallMultiple(x: nat, d: nat)
    requires 0 < x < d
    ensures !Divides(d, x)
  {
  }

  /** A power of two divides no product of an odd and an even factor that are both below it. */
  lemma NoSmallProduct(a: nat, b: nat, k: nat)
    requires 0 < a < Pow2(k) && 0 < b < Pow2(k) && (a + b) % 2 == 1
    ensures !Divides(Pow2(k), a * b)
  {
    hide Divides, Pow2;
    NoSmallMultiple(a, Pow2(k));
    NoSmallMultiple(b, Pow2(k));
    if Divides(Pow2(k), a * b) {
      if b % 2 == 1 {
        OddFactor(k, a, b);
      } else {
        assert a * b == b * a;
        OddFactor(k, b, a);
      }
    }
  }

  lemma EqualProbes(h: nat, p: nat, q: nat, n: nat)
    requires p < q && n > 0 && Probe(h, p, n) == Probe(h, q, n)
    ensures Divides(2 * n, (q - p) * (q + p + 1))
  {
    hide Divides, Triangle;
    TriangleGrows(p, q);
    SameResidue(h + Triangle(p), h + Triangle(q), n);
    Twice(Triangle(q) - Triangle(p), n);
    TriangleForm(p);
    TriangleForm(q);
    Factors(p, q);
  }

  /** The first n probes are all different. */
  lemma ProbesDiffer(h: nat, p: nat, q: nat, k: nat)
    requires p < q < Pow2(k)
    ensures Probe(h, p, Pow2(k)) != Probe(h, q, Pow2(k))
  {
    hide Probe, Divides;
    NoSmallProduct(q - p, q + p + 1, k + 1);
    if Probe(h, p, Pow2(k)) == Probe(h, q, Pow2(k)) {
      EqualProbes(h, p, q, Pow2(k));
    }
  }

  lemma {:induction false} TriangleGrows(p: nat, q: nat)
    requires p <= q
    ensures Triangle(p) <= Triangle(q)
  {
    if p < q {
      TriangleGrows(p, q - 1);
    }
  }

  lemma Factors(p: nat, q: nat)
    requires p < q
    ensures q * (q + 1) - p * (p + 1) == (q - p) * (q + p + 1) == (q + p + 1) * (q - p)
  {
  }

  ghost function ProbedTo(h: nat, m: nat, n: nat): set<nat>
    requires n > 0
  {
    set p | 0 <= p < m :: Probe(h, p, n)
  }

  lemma {:induction false} ProbedSize(h: nat, m: nat, k: nat)
    requires m <= Pow2(k)
    ensures |ProbedTo(h, m, Pow2(k))| == m
  {
    if m > 0 {
      var n := Pow2(k);
      ProbedSize(h, m - 1, k);
      forall p | 0 <= p < m - 1 ensures Probe(h, p, n) != Probe(h, m - 1, n) {
        ProbesDiffer(h, p, m - 1, k);
      }
      assert ProbedTo(h, m, n) == ProbedTo(h, m - 1, n) + {Probe(h, m - 1, n)};
    }
  }

  /** The first n probes visit every bucket. */
  lemma ProbesCover(h: nat, k: nat, b: nat) returns (p: nat)
    requires b < Pow2(k)
    ensures p < Pow2(k) && Probe(h, p, Pow2(k)) == b
  {
    hide Probe, Pow2;
    var n := Pow2(k);
    ProbedSize(h, n, k);
    RangeSize(n);
    forall x | x in ProbedTo(h, n, n) ensures x in Range(n) {
      assert IsIndex(x, n);
    }
    SubsetSize(ProbedTo(h, n, n), Range(n));
    assert IsIndex(b, n) && b in Range(n);
    assert b in ProbedTo(h, n, n);
    p :| 0 <= p < n && Probe(h, p, n) == b;
  }

  /** The second n probes visit the buckets of the first n backwards. */
  lemma ProbesMirror(h: nat, p: nat, n: nat)
    requires p < n
    ensures Probe(h, 2 * n - 1 - p, n) == Probe(h, p, n)
  {
    var q := 2 * n - 1 - p;
    TriangleForm(p);
    TriangleForm(q);
    MirrorForm(p, n);
    assert Triangle(q) == Triangle(p) + n * (q - p);
    AddMultiple(h + Triangle(p), q - p, n);
  }

  lemma MirrorForm(p: nat, n: nat)
    requires p < n
    ensures var q := 2 * n - 1 - p; q * (q + 1) == p * (p + 1) + 2 * (n * (q - p))
  {
    var q := 2 * n - 1 - p;
    Factors(p, q);
    assert q + p + 1 == 2 * n;
  }

  lemma AddMultiple(x: nat, c: nat, n: nat)
    requires n > 0
    ensures (x + n * c) % n == x % n
  {
    assert x + n * c == n * (x / n + c) + x % n by {
      assert x == n * (x / n) + x % n;
      assert n * (x / n + c) == n * (x / n) + n * c;
    }
    DivModUnique(x + n * c, n, x / n + c, x % n);
  }

  /** One step of the probe loop. */
  lemma ProbeNext(h: nat, p: nat, n: nat, mask: nat)
    requires n > 0 && MaskFits(mask, n)
    ensures BitAnd(Probe(h, p, n) + (p + 1), mask) == Probe(h, p + 1, n)
  {
    var k: nat :| n == Pow2(k);
    MaskIsMod(Probe(h, p, n) + (p + 1), k);
    ModAdd(h + Triangle(p), p + 1, n);
  }

  lemma ModAdd(x: nat, y: nat, n: nat)
    requires n > 0
    ensures (x % n + y) % n == (x + y) % n
  {
    AddMultiple(x % n + y, x / n, n);
    assert x == n * (x / n) + x % n;
  }
}
