/** Plane vectors, and the quadratic that says how far a moving disc is from a circle. */
module Motion {
  datatype Vec = Vec(x: real, y: real)
  {
    function Plus(v: Vec): Vec { Vec(x + v.x, y + v.y) }
    function Minus(v: Vec): Vec { Vec(x - v.x, y - v.y) }
    function Times(k: real): Vec { Vec(k * x, k * y) }
    function Dot(v: Vec): real { x * v.x + y * v.y }
    /** The signed area that the two vectors span. */
    function Vedge(v: Vec): real { x * v.y - y * v.x }
    function LengthSqr(): real { x * x + y * y }
  }

  /** Where something at `pos` with velocity `vel` is after the time `t`. */
  function Moved(pos: Vec, vel: Vec, t: real): Vec { pos.Plus(vel.Times(t)) }

  function Sqr(x: real): real { x * x }

  ghost predicate IsRoot(sqrt: real -> real)
  {
    forall x :: x >= 0.0 ==> sqrt(x) >= 0.0 && sqrt(x) * sqrt(x) == x
  }

  // ----- real arithmetic -----

  lemma ProductPositive(a: real, b: real)
    requires a > 0.0
    ensures a * b > 0.0 <==> b > 0.0
    ensures a * b == 0.0 <==> b == 0.0
  {
    if b < 0.0 { assert a * -b > 0.0; }
  }

  lemma SquareOrder(p: real, q: real)
    requires p >= 0.0 && q >= 0.0
    ensures p * p < q * q <==> p < q
    ensures p * p == q * q <==> p == q
  {
    if p < q {
      ProductPositive(q - p, q + p);
      assert q * q - p * p == (q - p) * (q + p);
    } else if q < p {
      ProductPositive(p - q, q + p);
      assert p * p - q * q == (p - q) * (p + q);
    }
  }

  lemma SquareNonNegative(x: real)
    ensures x * x >= 0.0
    ensures x * x == (-x) * (-x)
  {
    if x < 0.0 { assert (-x) * (-x) >= 0.0; }
  }

  lemma Difference(x: real, y: real)
    ensures (x - y) * (x - y) == x * x - 2.0 * (x * y) + y * y
  {
  }

  /** `|x| < q` by squares. */
  lemma AbsOrder(x: real, q: real)
    requires q >= 0.0
    ensures x * x < q * q <==> -q < x < q
    ensures x * x == q * q <==> x == q || x == -q
  {
    SquareNonNegative(x);
    if x >= 0.0 { SquareOrder(x, q); } else { SquareOrder(-x, q); }
  }

  // ----- the squared distance from a moving point -----

  /** The squared distance, less `rr`, after the time `t`: `a` is the squared distance at the start, `b` the dot
      product of velocity and direction, `v` the squared speed. */
  function Gap(a: real, b: real, v: real, rr: real, t: real): real
  {
    a - 2.0 * t * b + t * t * v - rr
  }

  function Discriminant(a: real, b: real, v: real, rr: real): real
  {
    b * b + v * (rr - a)
  }

  lemma CompleteSquare(a: real, b: real, v: real, rr: real, t: real)
    ensures v * Gap(a, b, v, rr, t) == (v * t - b) * (v * t - b) - Discriminant(a, b, v, rr)
  {
    var s := v * t;
    assert (s - b) * (s - b) == s * s - 2.0 * (s * b) + b * b;
    assert v * (2.0 * t * b) == 2.0 * (s * b);
    assert v * (t * t * v) == s * s;
    var g := a - rr;
    assert v * (rr - a) == -(v * g);
    assert v * (g - 2.0 * t * b + t * t * v) == v * g - v * (2.0 * t * b) + v * (t * t * v);
    assert Gap(a, b, v, rr, t) == g - 2.0 * t * b + t * t * v;
  }

  /** The gap is closed, open or crossed as the square says. */
  lemma GapSign(a: real, b: real, v: real, rr: real, t: real, q: real)
    requires v > 0.0 && q >= 0.0 && q * q == Discriminant(a, b, v, rr)
    ensures Gap(a, b, v, rr, t) > 0.0 <==> v * t - b > q || v * t - b < -q
    ensures Gap(a, b, v, rr, t) == 0.0 <==> v * t - b == q || v * t - b == -q
  {
    CompleteSquare(a, b, v, rr, t);
    ProductPositive(v, Gap(a, b, v, rr, t));
    AbsOrder(v * t - b, q);
  }

  lemma Quotient(n: real, v: real, t: real)
    requires v > 0.0
    ensures v * (n / v) == n
    ensures t < n / v <==> v * t < n
  {
    ProductPositive(v, n / v - t);
    assert v * (n / v - t) == v * (n / v) - v * t;
  }
}
