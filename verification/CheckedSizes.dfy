/** Size arithmetic that saturates instead of wrapping around, and decimal numbers read with it. */
module CheckedSizes {
  import opened Numerals

  const SIZE_MAX: nat := 0xFFFF_FFFF_FFFF_FFFF

  newtype Size = x: int | 0 <= x <= 0xFFFF_FFFF_FFFF_FFFF

  function Wrapped(x: nat): Size { (x % (SIZE_MAX + 1)) as Size }

  function Min(a: nat, b: nat): nat { if a < b then a else b }

  /** `xsum` detects the wrap-around by comparing the sum with an addend. */
  function Xsum(a: Size, b: Size): (r: Size)
    ensures r as nat == Min(a as nat + b as nat, SIZE_MAX)
  {
    var sum := Wrapped(a as nat + b as nat);
    if sum >= a then sum else SIZE_MAX as Size
  }

  function Xsum4(a: Size, b: Size, c: Size, d: Size): (r: Size)
    ensures r as nat == Min(a as nat + b as nat + c as nat + d as nat, SIZE_MAX)
  {
    Xsum(Xsum(Xsum(a, b), c), d)
  }

  function Xtimes(n: Size, e: Size): (r: Size)
    requires e > 0
    ensures r as nat == Min(n as nat * e as nat, SIZE_MAX)
  {
    var limit := SIZE_MAX / e as nat;
    QuotientBound(n as nat, e as nat, SIZE_MAX);
    if n as nat <= limit then (n as nat * e as nat) as Size else SIZE_MAX as Size
  }

  lemma QuotientBound(n: nat, e: nat, m: nat)
    requires e > 0
    ensures n <= m / e <==> n * e <= m
  {
    var q := m / e;
    assert m == q * e + m % e;
    if n <= q { MoreTimes(n, q, e); } else { MoreTimes(q + 1, n, e); }
  }

  lemma MoreTimes(a: nat, b: nat, e: nat)
    requires a <= b
    ensures a * e <= b * e
  {
    assert (b - a) * e >= 0;
  }

  predicate Overflows(size: Size) { size as nat == SIZE_MAX }

  // ----- decimal numbers -----

  /** Reads digits with saturating arithmetic. */
  method ReadNumber(s: string) returns (n: Size)
    requires Digits(s)
    ensures n as nat == Min(Decimal(s), SIZE_MAX)
  {
    n := 0;
    var i := 0;
    while i < |s|
      invariant i <= |s|
      invariant n as nat == Min(Decimal(s[..i]), SIZE_MAX)
    {
      assert s[..i + 1][..i] == s[..i];
      n := Xsum(Xtimes(n, 10), Digit(s[i]) as Size);
      i := i + 1;
    }
    assert s[..i] == s;
  }

  /** The numbers accepted as argument positions. */
  predicate GoodPosition(s: string)
    requires Digits(s)
  {
    1 <= Decimal(s) < SIZE_MAX
  }

  /** The parser's tests accept exactly the positions from 1 to `SIZE_MAX - 1`. */
  method CheckPosition(s: string) returns (ok: bool, index: Size)
    requires Digits(s)
    ensures ok <==> GoodPosition(s)
    ensures ok ==> index as nat == Decimal(s) - 1 && !Overflows(index)
  {
    var n := ReadNumber(s);
    if n == 0 || Overflows(n) {
      return false, 0;
    }
    return true, n - 1;
  }
}
