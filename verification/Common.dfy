/** What several components share: the square of a number, the positions of a value in a list, what
    occurs in a list, and sizes of sets. */
module Common {

  function Square(a: real): (r: real)
    ensures r >= 0.0
  {
    a * a
  }

  /** The positions below k at which a holds c, in order. */
  ghost function Members(a: seq<nat>, c: nat, k: nat): (m: seq<nat>)
    requires k <= |a|
    ensures |m| <= k
    ensures forall i :: 0 <= i < |m| ==> m[i] < k && a[m[i]] == c
  {
    if k == 0 then [] else if a[k - 1] == c then Members(a, c, k - 1) + [k - 1] else Members(a, c, k - 1)
  }

  lemma MembersNext(a: seq<nat>, c: nat, k: nat)
    requires k <= |a|
    ensures Members(a, c, k)
         == if k == 0 then [] else if a[k - 1] == c then Members(a, c, k - 1) + [k - 1] else Members(a, c, k - 1)
  {
  }

  predicate IsIndex(i: int, n: nat) {
    0 <= i < n
  }

  /** The indices 0, ..., n - 1. */
  function Range(n: nat): set<int> {
    set i | 0 <= i < n && IsIndex(i, n)
  }

  lemma {:induction false} RangeSize(n: nat)
    ensures |Range(n)| == n
  {
    if n > 0 {
      RangeSize(n - 1);
      assert Range(n) == Range(n - 1) + {n - 1};
    }
  }

  /** What occurs in a list. */
  ghost function Elements(s: seq<nat>): set<nat> {
    set x | x in s
  }

  lemma ElementsOne(x: nat)
    ensures Elements([x]) == {x}
  {
  }

  lemma ElementsSnoc(s: seq<nat>, x: nat)
    ensures Elements(s + [x]) == Elements(s) + {x}
  {
  }

  lemma ElementsNext(s: seq<nat>, k: nat)
    requires k < |s|
    ensures Elements(s[..k + 1]) == Elements(s[..k]) + {s[k]}
  {
    assert s[..k + 1] == s[..k] + [s[k]];
  }

  lemma SubsetSize<T>(a: set<T>, b: set<T>)
    requires a <= b
    ensures |a| <= |b| && (|a| == |b| ==> a == b)
  {
    assert b == a + (b - a);
    assert |b| == |a| + |b - a|;
  }
}
