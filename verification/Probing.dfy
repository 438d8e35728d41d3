/** Double hashing: the probe sequence through a table, and when it reaches every slot. */
module Probing {
  import opened Basics

  /** `nls_uint32`. */
  const UINT32: int := 0x1_0000_0000

  /** The next slot, computed without leaving 32 bits: the step wraps round the end of the table. */
  function NextSlot(idx: nat, incr: nat, size: nat): nat
    requires idx < size && 0 < incr < size
  {
    if idx >= size - incr then idx - (size - incr) else idx + incr
  }

  /** The slot after `k` steps. */
  function Slot(idx: nat, incr: nat, size: nat, k: nat): (s: nat)
    requires size > 0
    ensures s < size
  {
    (idx + k * incr) % size
  }

  lemma SlotZero(idx: nat, incr: nat, size: nat)
    requires idx < size
    ensures Slot(idx, incr, size, 0) == idx
  {
  }

  /** `q` copies of `d` do not matter modulo `d`. */
  lemma ModPlus(r: nat, q: nat, d: nat)
    requires d > 0
    ensures (r + q * d) % d == r % d
  {
    var x: int := (r + q * d) / d - r / d - q;
    assert r + q * d == ((r + q * d) / d) * d + (r + q * d) % d;
    assert r == (r / d) * d + r % d;
    assert x * d == r % d - (r + q * d) % d;
    NoMultiple(x, d);
  }

  /** The wrapping step is addition modulo the size, and stays within 32 bits. */
  lemma StepIsAddition(idx: nat, incr: nat, size: nat, k: nat)
    requires idx < size < UINT32 && 0 < incr < size
    ensures NextSlot(Slot(idx, incr, size, k), incr, size) == Slot(idx, incr, size, k + 1)
    ensures var s := Slot(idx, incr, size, k);
            0 <= size - incr < UINT32 && (s < size - incr ==> s + incr < UINT32)
  {
    ModStep(idx + k * incr, incr, size);
    OneMore(k, incr);
  }

  lemma ModStep(n: nat, incr: nat, size: nat)
    requires 0 < incr < size
    ensures (n + incr) % size == if n % size + incr >= size then n % size + incr - size else n % size + incr
  {
    var s, q := n % size, n / size;
    assert n == s + q * size;
    ModPlus(s + incr, q, size);
    WrapOnce(s + incr, size);
    assert n + incr == (s + incr) + q * size;
  }

  lemma WrapOnce(x: nat, size: nat)
    requires x < 2 * size
    ensures x % size == if x >= size then x - size else x
  {
    if x >= size { ModPlus(x - size, 1, size); }
  }

  // ----- when the probe sequence reaches every slot -----

  predicate Divides(d: nat, n: nat)
    requires d > 0
  {
    n % d == 0
  }

  /** No number above 1 divides both. */
  ghost predicate Coprime(a: nat, b: nat)
  {
    forall d: nat :: d > 1 && Divides(d, a) ==> !Divides(d, b)
  }

  ghost predicate Prime(n: nat)
  {
    n > 1 && forall d: nat :: 1 < d < n ==> !Divides(d, n)
  }

  /** A prime size is coprime to every step the hash produces. */
  lemma PrimeSizeIsCoprime(size: nat, incr: nat)
    requires Prime(size) && 0 < incr < size
    ensures Coprime(size, incr)
  {
    forall d: nat | d > 1 && Divides(d, size)
      ensures !Divides(d, incr)
    {
      DivisorBound(d, size);
      if d == size {
        assert incr % d == incr;
      }
    }
  }

  lemma DivisorBound(d: nat, n: nat)
    requires d > 0 && n > 0 && Divides(d, n)
    ensures d <= n
  {
  }

  /** The least number of steps after which the probe sequence is back where it started. */
  lemma LeastPeriod(incr: nat, size: nat) returns (p: nat)
    requires size > 0
    ensures 0 < p <= size && (p * incr) % size == 0
    ensures forall q :: 0 < q < p ==> (q * incr) % size != 0
  {
    p := 1;
    ModPlus(0, incr, size);
    assert size * incr == 0 + incr * size;
    while (p * incr) % size != 0
      invariant 0 < p <= size && forall q :: 0 < q < p ==> (q * incr) % size != 0
      decreases size - p
    {
      p := p + 1;
    }
  }

  /** The period divides the size, so for a coprime step it is the size. */
  lemma CoprimeFullPeriod(incr: nat, size: nat)
    requires size > 0 && Coprime(size, incr)
    ensures forall q :: 0 < q < size ==> (q * incr) % size != 0
  {
    var p := LeastPeriod(incr, size);
    PeriodDividesSize(p, incr, size);
    var e, t := size / p, (p * incr) / size;
    assert size == p * e && p * incr == size * t;
    Cancel(p, incr, e * t) by { Regroup(p, e, t); }
    MultipleIsDivisible(e, p);
    MultipleIsDivisible(e, t);
    assert e * p == p * e;
    if e > 1 {
      assert Divides(e, size);
    }
    assert e >= 1;
  }

  lemma Regroup(p: nat, e: nat, t: nat)
    ensures (p * e) * t == p * (e * t)
  {
  }

  lemma Cancel(p: nat, a: nat, b: nat)
    requires p > 0 && p * a == p * b
    ensures a == b
  {
    var x: int := a - b;
    assert x * p == p * a - p * b;
    NoMultiple(x, p);
  }

  lemma MultipleIsDivisible(d: nat, k: nat)
    ensures d > 0 ==> (d * k) % d == 0
  {
    if d > 0 {
      ModPlus(0, k, d);
      assert d * k == k * d;
    }
  }

  lemma PeriodDividesSize(p: nat, incr: nat, size: nat)
    requires 0 < p <= size && (p * incr) % size == 0
    requires forall q :: 0 < q < p ==> (q * incr) % size != 0
    ensures size % p == 0
  {
    var r := size % p;
    Division(size, p);
    Division(p * incr, size);
    PeriodStep(size, p, incr, size / p, r, (p * incr) / size);
    RestDivides(size, incr, (size / p) * ((p * incr) / size), r * incr);
  }

  lemma Division(n: nat, d: nat)
    requires d > 0
    ensures n == (n / d) * d + n % d && n % d < d
  {
  }

  lemma PeriodStep(size: nat, p: nat, incr: nat, a: nat, r: nat, c: nat)
    requires size == a * p + r && p * incr == c * size
    ensures size * incr == (a * c) * size + r * incr
  {
    Split(a, p, r, incr);
    Regroup(a, c, size);
  }

  lemma RestDivides(size: nat, incr: nat, m: nat, rest: nat)
    requires size > 0 && size * incr == m * size + rest
    ensures rest % size == 0
  {
    ModPlus(rest, m, size);
    ModPlus(0, incr, size);
    assert size * incr == 0 + incr * size;
  }

  lemma Split(a: nat, p: nat, r: nat, incr: nat)
    ensures (a * p + r) * incr == a * (p * incr) + r * incr
  {
  }

  /** Within one period no slot is visited twice. */
  lemma SlotsDistinct(idx: nat, incr: nat, size: nat, i: nat, j: nat)
    requires size > 0 && Coprime(size, incr) && i < j < size
    ensures Slot(idx, incr, size, i) != Slot(idx, incr, size, j)
  {
    CoprimeFullPeriod(incr, size);
    var a, b := idx + i * incr, idx + j * incr;
    assert b == a + (j - i) * incr by { Spread(i, j, incr); }
    SameRemainder(a, (j - i) * incr, size);
    assert ((j - i) * incr) % size != 0;
  }

  lemma Spread(i: nat, j: nat, incr: nat)
    requires i <= j
    ensures j * incr == i * incr + (j - i) * incr
  {
  }

  lemma SameRemainder(a: nat, d: nat, size: nat)
    requires size > 0
    ensures a % size == (a + d) % size ==> d % size == 0
  {
    var q: int := (a + d) / size - a / size;
    assert a == (a / size) * size + a % size;
    assert a + d == ((a + d) / size) * size + (a + d) % size;
    if a % size == (a + d) % size {
      assert d == q * size;
      NoMultiple(q, size);
      ModPlus(0, q, size);
    }
  }

  /** The slots visited in the first `k` probes. */
  ghost function Visited(idx: nat, incr: nat, size: nat, k: nat): set<nat>
    requires size > 0
  {
    if k == 0 then {} else Visited(idx, incr, size, k - 1) + {Slot(idx, incr, size, k - 1)}
  }

  lemma {:induction false} VisitedAt(idx: nat, incr: nat, size: nat, k: nat, x: nat) returns (j: nat)
    requires size > 0 && x in Visited(idx, incr, size, k)
    ensures j < k && x == Slot(idx, incr, size, j)
  {
    if x == Slot(idx, incr, size, k - 1) { j := k - 1; } else { j := VisitedAt(idx, incr, size, k - 1, x); }
  }

  lemma NotRevisited(idx: nat, incr: nat, size: nat, k: nat)
    requires size > 0 && Coprime(size, incr) && k < size
    ensures Slot(idx, incr, size, k) !in Visited(idx, incr, size, k)
  {
    var x := Slot(idx, incr, size, k);
    if x in Visited(idx, incr, size, k) {
      var j := VisitedAt(idx, incr, size, k, x);
      SlotsDistinct(idx, incr, size, j, k);
      assert false;
    }
  }

  lemma {:induction false} VisitedBelow(idx: nat, incr: nat, size: nat, k: nat)
    requires size > 0
    ensures Visited(idx, incr, size, k) <= Numbers(0, size)
  {
    if k > 0 { VisitedBelow(idx, incr, size, k - 1); }
  }

  lemma {:induction false} VisitedCount(idx: nat, incr: nat, size: nat, k: nat)
    requires size > 0 && Coprime(size, incr) && k <= size
    ensures |Visited(idx, incr, size, k)| == k
  {
    if k > 0 {
      VisitedCount(idx, incr, size, k - 1);
      NotRevisited(idx, incr, size, k - 1);
    }
  }

  lemma {:induction false} FullSubset(a: set<nat>, b: set<nat>)
    requires a <= b && |a| == |b|
    ensures a == b
  {
    if x :| x in b && x !in a {
      SubsetSize(a, b - {x});
      assert false;
    }
  }

  /** With a coprime step every slot is probed within `size` steps. */
  lemma EverySlotReached(idx: nat, incr: nat, size: nat, x: nat) returns (k: nat)
    requires x < size && Coprime(size, incr)
    ensures k < size && Slot(idx, incr, size, k) == x
  {
    VisitedCount(idx, incr, size, size);
    VisitedBelow(idx, incr, size, size);
    FullSubset(Visited(idx, incr, size, size), Numbers(0, size));
    k := VisitedAt(idx, incr, size, size, x);
  }

  /** With a common divisor the probes keep to one residue class, so the slot next to the first is never
      reached: a lookup could run for ever although that slot is free. */
  lemma CommonDivisorMisses(idx: nat, incr: nat, size: nat, d: nat, k: nat)
    requires idx < size && d > 1 && Divides(d, size) && Divides(d, incr)
    ensures Slot(idx, incr, size, k) != (idx + 1) % size
  {
    ResidueKept(idx, k, incr, d);
    ResidueOfRemainder(idx + k * incr, size, d);
    ResidueOfRemainder(idx + 1, size, d);
    NextResidue(idx, d);
  }

  lemma ResidueOfRemainder(n: nat, size: nat, d: nat)
    requires d > 0 && size > 0 && Divides(d, size)
    ensures (n % size) % d == n % d
  {
    assert n == n % size + (n / size) * size;
    ResidueKept(n % size, n / size, size, d);
  }

  lemma ResidueKept(x: nat, k: nat, m: nat, d: nat)
    requires d > 0 && Divides(d, m)
    ensures (x + k * m) % d == x % d
  {
    assert m == (m / d) * d;
    Regroup(k, m / d, d);
    ModPlus(x, k * (m / d), d);
  }

  lemma NextResidue(x: nat, d: nat)
    requires d > 1
    ensures (x + 1) % d != x % d
  {
    SameRemainder(x, 1, d);
    assert 1 % d == 1;
  }

  /** A probe sequence reaches every slot exactly when step and size are coprime. */
  lemma ReachesAllIffCoprime(idx: nat, incr: nat, size: nat)
    requires idx < size
    ensures Coprime(size, incr) <==> forall x :: 0 <= x < size ==> Reached(idx, incr, size, x)
  {
    if Coprime(size, incr) {
      forall x | 0 <= x < size ensures Reached(idx, incr, size, x) {
        var k := EverySlotReached(idx, incr, size, x);
      }
    } else {
      var d: nat :| d > 1 && Divides(d, size) && Divides(d, incr);
      forall k: nat ensures Slot(idx, incr, size, k) != (idx + 1) % size {
        CommonDivisorMisses(idx, incr, size, d, k);
      }
      assert !Reached(idx, incr, size, (idx + 1) % size);
    }
  }

  ghost predicate Reached(idx: nat, incr: nat, size: nat, x: nat)
    requires size > 0
  {
    exists k: nat :: Slot(idx, incr, size, k) == x
  }
}
