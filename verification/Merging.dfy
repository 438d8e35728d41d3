/** Two shots that meet become one, or none. */
module Merging {
  import opened Motion

  datatype Missile = Missile(velocity: Vec, energy: real)
  {
    /** Moves, and has some energy. */
    predicate Live() { velocity != Vec(0.0, 0.0) && energy > 0.0 }
  }

  datatype Outcome = Stopped | Merged(missile: Missile)

  function Length(v: Vec, sqrt: real -> real): real { sqrt(v.LengthSqr()) }

  function Unit(v: Vec, sqrt: real -> real): Vec
    requires Length(v, sqrt) != 0.0
  {
    Vec(v.x / Length(v, sqrt), v.y / Length(v, sqrt))
  }

  function MeanVelocity(a: Missile, b: Missile): Vec
    requires a.energy + b.energy != 0.0
  {
    var sum := a.velocity.Times(a.energy).Plus(b.velocity.Times(b.energy));
    Vec(sum.x / (a.energy + b.energy), sum.y / (a.energy + b.energy))
  }

  /** What is left of the two energies in the new direction. */
  function EnergyAlong(a: Missile, b: Missile, direction: Vec, sqrt: real -> real): real
    requires Length(a.velocity, sqrt) != 0.0 && Length(b.velocity, sqrt) != 0.0
  {
    Unit(a.velocity, sqrt).Times(a.energy).Plus(Unit(b.velocity, sqrt).Times(b.energy)).Dot(direction)
  }

  lemma LengthPositive(v: Vec, sqrt: real -> real)
    requires IsRoot(sqrt) && v != Vec(0.0, 0.0)
    ensures Length(v, sqrt) > 0.0
  {
    NotStill(v);
    var n := sqrt(v.LengthSqr());
    assert n * n == v.LengthSqr();
  }

  lemma NotStill(v: Vec)
    requires v != Vec(0.0, 0.0)
    ensures v.LengthSqr() > 0.0
  {
    ZeroSquares(v.x, v.y);
  }

  /** The first shot carries on with the mean velocity, weighted by energy, unless that leaves it too slow or too
      weak. */
  function Merge(a: Missile, b: Missile, minEnergy: real, shotSpeed: real, sqrt: real -> real): Outcome
    requires IsRoot(sqrt) && a.Live() && b.Live() && shotSpeed > 0.0
  {
    var mean := MeanVelocity(a, b);
    LengthPositive(a.velocity, sqrt);
    LengthPositive(b.velocity, sqrt);
    if Length(mean, sqrt) < shotSpeed * 0.5 then Stopped
    else
      var energy := EnergyAlong(a, b, Unit(mean, sqrt), sqrt);
      if energy < minEnergy then Stopped else Merged(Missile(mean, energy))
  }

  // ----- what merging keeps -----

  lemma RootSquare(v: Vec, sqrt: real -> real)
    requires IsRoot(sqrt)
    ensures Length(v, sqrt) * Length(v, sqrt) == v.x * v.x + v.y * v.y
  {
    SquareNonNegative(v.x);
    SquareNonNegative(v.y);
  }

  lemma UnitLength(v: Vec, sqrt: real -> real)
    requires IsRoot(sqrt) && Length(v, sqrt) > 0.0
    ensures Unit(v, sqrt).LengthSqr() == 1.0
  {
    var n := Length(v, sqrt);
    RootSquare(v, sqrt);
    UnitSquares(v.x, v.y, n);
  }

  lemma UnitSquares(x: real, y: real, n: real)
    requires n > 0.0 && n * n == x * x + y * y
    ensures (x / n) * (x / n) + (y / n) * (y / n) == 1.0
  {
    var u, w := x / n, y / n;
    Scaled(x, u, n);
    Scaled(y, w, n);
    ProductPositive(n, n);
    SumOfSquares(n * n, u * u, w * w, x * x, y * y);
  }

  lemma Scaled(x: real, u: real, n: real)
    requires n > 0.0 && u == x / n
    ensures (n * n) * (u * u) == x * x
  {
    assert u * n == x;
    assert (n * n) * (u * u) == (u * n) * (u * n);
  }

  lemma SumOfSquares(n: real, p: real, q: real, x: real, y: real)
    requires n > 0.0 && n * p == x && n * q == y && n == x + y
    ensures p + q == 1.0
  {
    ProductPositive(n, p + q - 1.0);
    assert n * (p + q - 1.0) == n * p + n * q - n;
  }

  lemma ZeroSquares(x: real, y: real)
    ensures x * x + y * y == 0.0 ==> x == 0.0 && y == 0.0
    ensures x * x + y * y >= 0.0
  {
    ZeroSquare(x);
    ZeroSquare(y);
  }

  lemma ZeroSquare(x: real)
    ensures x * x >= 0.0 && (x * x == 0.0 ==> x == 0.0)
  {
    if x > 0.0 { ProductPositive(x, x); }
    if x < 0.0 { ProductPositive(-x, -x); }
  }

  /** Unit vectors agree fully only if they are the same. */
  lemma UnitDot(u: Vec, w: Vec)
    requires u.LengthSqr() == 1.0 && w.LengthSqr() == 1.0
    ensures u.Dot(w) <= 1.0 && (u.Dot(w) == 1.0 <==> u == w)
  {
    UnitProducts(u.x, u.y, w.x, w.y);
  }

  lemma UnitProducts(a: real, b: real, c: real, d: real)
    requires a * a + b * b == 1.0 && c * c + d * d == 1.0
    ensures a * c + b * d <= 1.0 && (a * c + b * d == 1.0 <==> a == c && b == d)
  {
    Difference(a, c);
    Difference(b, d);
    ZeroSquares(a - c, b - d);
  }

  lemma EnergySplits(p: Vec, q: Vec, e: real, f: real, d: Vec)
    ensures p.Times(e).Plus(q.Times(f)).Dot(d) == e * p.Dot(d) + f * q.Dot(d)
  {
    assert (e * p.x + f * q.x) * d.x == e * (p.x * d.x) + f * (q.x * d.x);
    assert (e * p.y + f * q.y) * d.y == e * (p.y * d.y) + f * (q.y * d.y);
    assert e * p.Dot(d) == e * (p.x * d.x) + e * (p.y * d.y);
    assert f * q.Dot(d) == f * (q.x * d.x) + f * (q.y * d.y);
  }

  lemma AtMost(e: real, c: real)
    requires e > 0.0 && c <= 1.0
    ensures e * c <= e && (e * c == e <==> c == 1.0)
  {
    ProductPositive(e, 1.0 - c);
    assert e * (1.0 - c) == e - e * c;
  }

  lemma Shares(e: real, f: real, c: real, d: real)
    requires e > 0.0 && f > 0.0 && c <= 1.0 && d <= 1.0
    ensures e * c + f * d <= e + f && (e * c + f * d == e + f <==> c == 1.0 && d == 1.0)
  {
    AtMost(e, c);
    AtMost(f, d);
  }

  /** The merged shot has the mean velocity of both, weighted by their energies.  Its energy is at least the required
      one and at most the sum, which is reached only if both flew in the same direction; it is fast enough, and can
      merge again. */
  lemma MergeKeeps(a: Missile, b: Missile, minEnergy: real, shotSpeed: real, sqrt: real -> real)
    requires IsRoot(sqrt) && a.Live() && b.Live() && shotSpeed > 0.0
    requires Merge(a, b, minEnergy, shotSpeed, sqrt).Merged?
    ensures Length(a.velocity, sqrt) > 0.0 && Length(b.velocity, sqrt) > 0.0
    ensures
      var m := Merge(a, b, minEnergy, shotSpeed, sqrt).missile;
      && m.velocity.Times(a.energy + b.energy) == a.velocity.Times(a.energy).Plus(b.velocity.Times(b.energy))
      && minEnergy <= m.energy <= a.energy + b.energy && shotSpeed * 0.5 <= Length(m.velocity, sqrt)
      && (m.energy == a.energy + b.energy <==>
            Unit(a.velocity, sqrt) == Unit(m.velocity, sqrt) == Unit(b.velocity, sqrt))
      && (minEnergy > 0.0 ==> m.Live())
  {
    var m := Merge(a, b, minEnergy, shotSpeed, sqrt).missile;
    MeanIsMean(a, b);
    EnergyBound(a, b, m.velocity, sqrt);
    if m.velocity == Vec(0.0, 0.0) {
      NoLength(sqrt);
    }
  }

  lemma NoLength(sqrt: real -> real)
    requires IsRoot(sqrt)
    ensures Length(Vec(0.0, 0.0), sqrt) == 0.0
  {
    RootSquare(Vec(0.0, 0.0), sqrt);
    ZeroSquare(Length(Vec(0.0, 0.0), sqrt));
  }

  lemma MeanIsMean(a: Missile, b: Missile)
    requires a.energy + b.energy > 0.0
    ensures MeanVelocity(a, b).Times(a.energy + b.energy) == a.velocity.Times(a.energy).Plus(b.velocity.Times(b.energy))
  {
  }

  lemma EnergyBound(a: Missile, b: Missile, mean: Vec, sqrt: real -> real)
    requires IsRoot(sqrt) && a.Live() && b.Live() && Length(mean, sqrt) > 0.0
    ensures Length(a.velocity, sqrt) > 0.0 && Length(b.velocity, sqrt) > 0.0
    ensures
      var d := Unit(mean, sqrt);
      && EnergyAlong(a, b, d, sqrt) <= a.energy + b.energy
      && (EnergyAlong(a, b, d, sqrt) == a.energy + b.energy <==> Unit(a.velocity, sqrt) == d == Unit(b.velocity, sqrt))
  {
    LengthPositive(a.velocity, sqrt);
    LengthPositive(b.velocity, sqrt);
    var p, q, d := Unit(a.velocity, sqrt), Unit(b.velocity, sqrt), Unit(mean, sqrt);
    UnitLength(a.velocity, sqrt);
    UnitLength(b.velocity, sqrt);
    UnitLength(mean, sqrt);
    UnitDot(p, d);
    UnitDot(q, d);
    EnergySplits(p, q, a.energy, b.energy, d);
    Shares(a.energy, b.energy, p.Dot(d), q.Dot(d));
  }

  // ----- when shots merge -----

  /** The velocities weighted by the energies. */
  function Weighted(a: Missile, b: Missile): Vec { a.velocity.Times(a.energy).Plus(b.velocity.Times(b.energy)) }

  /** The energies, each in the direction of its shot. */
  function Directed(a: Missile, b: Missile, sqrt: real -> real): Vec
    requires Length(a.velocity, sqrt) != 0.0 && Length(b.velocity, sqrt) != 0.0
  {
    Unit(a.velocity, sqrt).Times(a.energy).Plus(Unit(b.velocity, sqrt).Times(b.energy))
  }

  /** `w` is at least `m` times the root of `square`. */
  predicate Reaches(w: real, m: real, square: real)
  {
    if m >= 0.0 then w >= 0.0 && w * w >= m * m * square else w >= 0.0 || w * w <= m * m * square
  }

  lemma SquareOrder(x: real, y: real)
    requires x >= 0.0 && y >= 0.0
    ensures x >= y <==> x * x >= y * y
  {
    assert x * x - y * y == (x - y) * (x + y);
    if x > y {
      ProductPositive(x - y, x + y);
    } else if x < y {
      ProductPositive(y - x, x + y);
      assert (y - x) * (x + y) == y * y - x * x;
    }
  }

  lemma RootReached(w: real, m: real, r: real, square: real)
    requires r > 0.0 && r * r == square
    ensures w >= m * r <==> Reaches(w, m, square)
  {
    var t := m * r;
    assert t * t == m * m * square by { SquareOfProduct(m, r); }
    if m >= 0.0 {
      if m > 0.0 {
        ProductPositive(m, r);
      }
      if w >= 0.0 {
        SquareOrder(w, t);
      }
    } else {
      ProductPositive(-m, r);
      assert (-m) * r == -t;
      if w < 0.0 {
        SquareOrder(-t, -w);
        assert (-w) * (-w) == w * w && (-t) * (-t) == t * t;
      }
    }
  }

  lemma SquareOfProduct(m: real, r: real)
    ensures (m * r) * (m * r) == m * m * (r * r)
  {
  }

  lemma WeightedIsScaled(a: Missile, b: Missile)
    requires a.energy + b.energy > 0.0
    ensures Weighted(a, b) == MeanVelocity(a, b).Times(a.energy + b.energy)
  {
    MeanIsMean(a, b);
  }

  /** The length of the weighted sum. */
  function Reach(a: Missile, b: Missile, sqrt: real -> real): real
    requires a.energy + b.energy > 0.0
  {
    (a.energy + b.energy) * Length(MeanVelocity(a, b), sqrt)
  }

  lemma ReachSquare(a: Missile, b: Missile, sqrt: real -> real)
    requires IsRoot(sqrt) && a.energy + b.energy > 0.0
    ensures Length(MeanVelocity(a, b), sqrt) >= 0.0
    ensures Reach(a, b, sqrt) * Reach(a, b, sqrt) == Weighted(a, b).LengthSqr()
  {
    hide Length, MeanVelocity, Weighted;
    var mean := MeanVelocity(a, b);
    LengthNonNegative(mean, sqrt);
    RootSquare(mean, sqrt);
    WeightedIsScaled(a, b);
    SquaresScale(a.energy + b.energy, mean, Weighted(a, b), Length(mean, sqrt));
  }

  lemma LengthNonNegative(v: Vec, sqrt: real -> real)
    requires IsRoot(sqrt)
    ensures Length(v, sqrt) >= 0.0
  {
    SquareNonNegative(v.x);
    SquareNonNegative(v.y);
  }

  lemma SquaresScale(e: real, v: Vec, w: Vec, n: real)
    requires w == v.Times(e) && n * n == v.x * v.x + v.y * v.y
    ensures (e * n) * (e * n) == w.LengthSqr()
  {
    assert (e * n) * (e * n) == (e * e) * (n * n);
    assert (e * v.x) * (e * v.x) == (e * e) * (v.x * v.x);
    assert (e * v.y) * (e * v.y) == (e * e) * (v.y * v.y);
  }

  lemma AlongIsDot(a: Missile, b: Missile, direction: Vec, sqrt: real -> real)
    requires Length(a.velocity, sqrt) != 0.0 && Length(b.velocity, sqrt) != 0.0
    ensures EnergyAlong(a, b, direction, sqrt) == Directed(a, b, sqrt).Dot(direction)
  {
  }

  /** The energy along the mean velocity, times the length of the weighted sum. */
  lemma AlongMean(a: Missile, b: Missile, sqrt: real -> real)
    requires IsRoot(sqrt) && a.Live() && b.Live() && Length(MeanVelocity(a, b), sqrt) > 0.0
    ensures Length(a.velocity, sqrt) > 0.0 && Length(b.velocity, sqrt) > 0.0
    ensures EnergyAlong(a, b, Unit(MeanVelocity(a, b), sqrt), sqrt) * Reach(a, b, sqrt)
         == Directed(a, b, sqrt).Dot(Weighted(a, b))
  {
    hide Length, Unit, MeanVelocity, Weighted, Directed, EnergyAlong;
    LengthPositive(a.velocity, sqrt);
    LengthPositive(b.velocity, sqrt);
    WeightedIsScaled(a, b);
    AlongIsDot(a, b, Unit(MeanVelocity(a, b), sqrt), sqrt);
    UnitScales(Directed(a, b, sqrt), MeanVelocity(a, b), Weighted(a, b), a.energy + b.energy, sqrt);
  }

  lemma UnitScales(d: Vec, mean: Vec, w: Vec, e: real, sqrt: real -> real)
    requires Length(mean, sqrt) > 0.0 && w == mean.Times(e)
    ensures d.Dot(Unit(mean, sqrt)) * (e * Length(mean, sqrt)) == d.Dot(w)
  {
    DotScales(d, mean, w, Length(mean, sqrt), e);
  }

  lemma DotScales(d: Vec, mean: Vec, w: Vec, n: real, e: real)
    requires n > 0.0 && w == mean.Times(e)
    ensures d.Dot(Vec(mean.x / n, mean.y / n)) * (e * n) == d.Dot(w)
  {
    var x, y := mean.x / n, mean.y / n;
    assert x * n == mean.x && y * n == mean.y;
    assert (d.x * x + d.y * y) * (e * n) == d.x * (e * (x * n)) + d.y * (e * (y * n));
  }

  lemma Quotient(q: real, r: real, w: real, m: real)
    requires r > 0.0 && q * r == w
    ensures q >= m <==> w >= m * r
  {
    assert (q - m) * r == w - m * r;
    assert (m - q) * r == m * r - w;
    if q > m {
      ProductPositive(q - m, r);
    } else if q < m {
      ProductPositive(m - q, r);
    }
  }

  lemma FastEnough(n: real, e: real, speed: real, square: real)
    requires n >= 0.0 && e > 0.0 && speed > 0.0 && (e * n) * (e * n) == square
    ensures n >= speed * 0.5 <==> 4.0 * square >= (speed * e) * (speed * e)
  {
    Quotient(n, e, e * n, speed * 0.5);
    ProductPositive(speed, e);
    SquareOrder(e * n, speed * 0.5 * e);
    assert (speed * 0.5 * e) * (speed * 0.5 * e) == 0.25 * ((speed * e) * (speed * e));
  }

  lemma EnoughEnergy(a: Missile, b: Missile, minEnergy: real, sqrt: real -> real)
    requires IsRoot(sqrt) && a.Live() && b.Live() && Length(MeanVelocity(a, b), sqrt) > 0.0
    ensures Length(a.velocity, sqrt) > 0.0 && Length(b.velocity, sqrt) > 0.0
    ensures EnergyAlong(a, b, Unit(MeanVelocity(a, b), sqrt), sqrt) >= minEnergy <==>
              Reaches(Directed(a, b, sqrt).Dot(Weighted(a, b)), minEnergy, Weighted(a, b).LengthSqr())
  {
    assert a.energy + b.energy > 0.0;
    ReachPositive(a, b, sqrt);
    hide *;
    AlongMean(a, b, sqrt);
    ReachSquare(a, b, sqrt);
    var r, w := Reach(a, b, sqrt), Directed(a, b, sqrt).Dot(Weighted(a, b));
    Quotient(EnergyAlong(a, b, Unit(MeanVelocity(a, b), sqrt), sqrt), r, w, minEnergy);
    RootReached(w, minEnergy, r, Weighted(a, b).LengthSqr());
  }

  lemma ReachPositive(a: Missile, b: Missile, sqrt: real -> real)
    requires a.energy + b.energy > 0.0 && Length(MeanVelocity(a, b), sqrt) > 0.0
    ensures Reach(a, b, sqrt) > 0.0
  {
    ProductPositive(a.energy + b.energy, Length(MeanVelocity(a, b), sqrt));
  }

  lemma EnoughSpeed(a: Missile, b: Missile, shotSpeed: real, sqrt: real -> real)
    requires IsRoot(sqrt) && a.energy + b.energy > 0.0 && shotSpeed > 0.0
    ensures
      var full := shotSpeed * (a.energy + b.energy);
      Length(MeanVelocity(a, b), sqrt) >= shotSpeed * 0.5 <==> 4.0 * Weighted(a, b).LengthSqr() >= full * full
  {
    var e, n := a.energy + b.energy, Length(MeanVelocity(a, b), sqrt);
    var square := Weighted(a, b).LengthSqr();
    ReachSquare(a, b, sqrt);
    assert e * n == Reach(a, b, sqrt);
    hide *;
    FastEnough(n, e, shotSpeed, square);
  }

  /** Two shots merge exactly if their weighted sum is at least half the speed of a shot with both energies, and the
      energies directed along it reach the least energy of a shot. */
  lemma MergesIff(a: Missile, b: Missile, minEnergy: real, shotSpeed: real, sqrt: real -> real)
    requires IsRoot(sqrt) && a.Live() && b.Live() && shotSpeed > 0.0
    ensures Length(a.velocity, sqrt) > 0.0 && Length(b.velocity, sqrt) > 0.0
    ensures
      var w, full := Weighted(a, b), shotSpeed * (a.energy + b.energy);
      Merge(a, b, minEnergy, shotSpeed, sqrt).Merged? <==>
        4.0 * w.LengthSqr() >= full * full
        && Reaches(Directed(a, b, sqrt).Dot(w), minEnergy, w.LengthSqr())
  {
    hide Reaches, EnergyAlong, Directed, Weighted, MeanVelocity, Length, Unit;
    LengthPositive(a.velocity, sqrt);
    LengthPositive(b.velocity, sqrt);
    EnoughSpeed(a, b, shotSpeed, sqrt);
    if Length(MeanVelocity(a, b), sqrt) >= shotSpeed * 0.5 {
      EnoughEnergy(a, b, minEnergy, sqrt);
    }
  }
}
