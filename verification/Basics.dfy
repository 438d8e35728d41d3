/** Facts about sequences, sets and products that several parts use. */
module Basics {
  predicate Distinct<T(==)>(s: seq<T>)
  {
    forall i, j :: 0 <= i < j < |s| ==> s[i] != s[j]
  }

  lemma {:induction false} SubsetSize<T>(a: set<T>, b: set<T>)
    requires a <= b
    ensures |a| <= |b|
  {
    if a != {} {
      var x :| x in a;
      SubsetSize(a - {x}, b - {x});
    }
  }

  /** The `n` numbers from `lo` on. */
  ghost function Numbers(lo: nat, n: nat): (s: set<nat>)
    ensures |s| == n && forall r :: r in s <==> lo <= r < lo + n
  {
    if n == 0 then {} else Numbers(lo, n - 1) + {lo + n - 1}
  }

  lemma OneMore(a: nat, n: nat)
    ensures (a + 1) * n == a * n + n
  {
  }

  /** A multiple other than zero is at least the number away from zero. */
  lemma NoMultiple(x: int, d: nat)
    ensures x >= 1 ==> x * d >= d
    ensures x <= -1 ==> x * d + d <= 0
  {
    if x >= 1 { assert (x - 1) * d >= 0; }
    if x <= -1 { assert (-1 - x) * d >= 0; }
  }
}
