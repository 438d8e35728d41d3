/** When a moving disc first touches the arena's shapes. */
module Contact {
  import opened Motion

  /** Stands for a time that never comes. */
  const INFINITY: real := 1.0e10

  datatype Shape =
    | Line(start: Vec, direction: Vec, length: real, thickness: real)
    | Circle(center: Vec, radius: real)
    | InnerCircle(center: Vec, radius: real)

  datatype Contact = Never | At(time: real)
  {
    function Time(): real { if At? then time else INFINITY }
  }

  function Later(t: real): (r: real)
    ensures r >= 0.0
  {
    if t > 0.0 then t else 0.0
  }

  /** The time at which the gap closes; see `Gap` for the parameters. */
  function ClosingTime(a: real, b: real, v: real, rr: real, sqrt: real -> real): Contact
    requires v == 0.0 ==> b == 0.0
  {
    var root := Discriminant(a, b, v, rr);
    if root < 0.0 || b <= 0.0 then Never else At(Later((b - sqrt(root)) / v))
  }

  /** The time at which a gap the other way opens. */
  function OpeningTime(a: real, b: real, v: real, rr: real, sqrt: real -> real): Contact
  {
    if v == 0.0 then Never else At(Later((b + sqrt(Discriminant(a, b, v, rr))) / v))
  }

  function CircleContact(c: Shape, pos: Vec, vel: Vec, size: real, sqrt: real -> real): Contact
    requires c.Circle?
  {
    var y := c.center.Minus(pos);
    var r := size + c.radius;
    Still(vel);
    ClosingTime(y.LengthSqr(), vel.Dot(y), vel.LengthSqr(), Sqr(r), sqrt)
  }

  function InnerContact(c: Shape, pos: Vec, vel: Vec, size: real, sqrt: real -> real): Contact
    requires c.InnerCircle?
  {
    var y := c.center.Minus(pos);
    var r := size - c.radius;
    OpeningTime(y.LengthSqr(), vel.Dot(y), vel.LengthSqr(), Sqr(r), sqrt)
  }

  /** Nothing is hit when the velocity is parallel to the line. */
  function LineContact(l: Shape, pos: Vec, vel: Vec, size: real): Contact
    requires l.Line?
  {
    var y := l.start.Minus(pos);
    WallTime(l.direction.Vedge(y), l.direction.Vedge(vel), vel.Vedge(y), vel.Dot(l.direction), -y.Dot(l.direction),
             size + l.thickness, l.length)
  }

  function WallTime(uy: real, w: real, vy: real, g: real, a: real, d: real, length: real): Contact
  {
    if w == 0.0 then Never
    else
      var det := 1.0 / w;
      if uy * det < 0.0 then Never
      else
        var side := if det > 0.0 then d else -d;
        var t := (uy - side) * det;
        var s := (vy - side * g) * det;
        if s < 0.0 || s > length then Never
        else if t < 0.0 && (a < 0.0 || a > length) then Never
        else At(Later(t))
  }

  function ShapeContact(shape: Shape, pos: Vec, vel: Vec, size: real, sqrt: real -> real): Contact
  {
    match shape
    case Line(_, _, _, _) => LineContact(shape, pos, vel, size)
    case Circle(_, _) => CircleContact(shape, pos, vel, size, sqrt)
    case InnerCircle(_, _) => InnerContact(shape, pos, vel, size, sqrt)
  }

  // ----- circles -----

  /** How much of the squared distance between `pos` and the centre is left beyond `reach`. */
  function Room(center: Vec, reach: real, pos: Vec): real
  {
    center.Minus(pos).LengthSqr() - Sqr(reach)
  }

  lemma RoomIsGap(center: Vec, reach: real, pos: Vec, vel: Vec, t: real)
    ensures Room(center, reach, Moved(pos, vel, t)) ==
            Gap(center.Minus(pos).LengthSqr(), vel.Dot(center.Minus(pos)), vel.LengthSqr(), Sqr(reach), t)
  {
    var y := center.Minus(pos);
    var w := center.Minus(Moved(pos, vel, t));
    assert w.x == y.x - t * vel.x && w.y == y.y - t * vel.y;
    RoomAxis(y.x, vel.x, t);
    RoomAxis(y.y, vel.y, t);
    assert t * t * vel.LengthSqr() == t * t * (vel.x * vel.x) + t * t * (vel.y * vel.y);
    assert 2.0 * t * vel.Dot(y) == 2.0 * t * (vel.x * y.x) + 2.0 * t * (vel.y * y.y);
  }

  lemma RoomAxis(y: real, v: real, t: real)
    ensures (y - t * v) * (y - t * v) == y * y - 2.0 * t * (v * y) + t * t * (v * v)
  {
    var s := t * v;
    assert (y - s) * (y - s) == y * y - 2.0 * (s * y) + s * s;
    assert s * s == t * t * (v * v);
    assert s * y == t * (v * y);
  }

  lemma Still(vel: Vec)
    ensures vel.LengthSqr() >= 0.0
    ensures vel.LengthSqr() == 0.0 ==> vel == Vec(0.0, 0.0)
  {
    SquareNonNegative(vel.x);
    SquareNonNegative(vel.y);
    if vel.x > 0.0 { ProductPositive(vel.x, vel.x); }
    if vel.x < 0.0 { ProductPositive(-vel.x, -vel.x); }
    if vel.y > 0.0 { ProductPositive(vel.y, vel.y); }
    if vel.y < 0.0 { ProductPositive(-vel.y, -vel.y); }
  }

  lemma StillDot(vel: Vec, y: Vec)
    ensures vel.LengthSqr() >= 0.0 && (vel.LengthSqr() == 0.0 <==> vel == Vec(0.0, 0.0))
    ensures vel.LengthSqr() == 0.0 ==> vel.Dot(y) == 0.0
  {
    Still(vel);
    if vel == Vec(0.0, 0.0) { assert 0.0 * y.x == 0.0 && 0.0 * y.y == 0.0; }
  }

  /** `f` is zero at the time `t` and not before. */
  ghost predicate FirstZero(f: real -> real, t: real)
  {
    t >= 0.0 && f(t) == 0.0 && forall u :: 0.0 <= u < t ==> f(u) != 0.0
  }

  lemma SameZeros(f: real -> real, g: real -> real, t: real)
    requires forall u :: f(u) == g(u)
    ensures FirstZero(f, t) <==> FirstZero(g, t)
  {
  }

  lemma FirstZeroOf(contact: Contact, f: real -> real, t: real)
    requires contact.At? ==> contact.time >= 0.0 && f(contact.time) == 0.0
    requires forall u :: u >= 0.0 && (contact.At? ==> u < contact.time) ==> f(u) != 0.0
    ensures contact == At(t) <==> FirstZero(f, t)
  {
  }

  /** The room left at each time of a free flight. */
  function RoomInFlight(center: Vec, reach: real, pos: Vec, vel: Vec): real -> real
  {
    t => Room(center, reach, Moved(pos, vel, t))
  }

  function GapInTime(a: real, b: real, v: real, rr: real): real -> real
  {
    t => Gap(a, b, v, rr, t)
  }

  lemma RoomIsGapAt(center: Vec, reach: real, pos: Vec, vel: Vec, t: real)
    ensures
      var y := center.Minus(pos);
      RoomInFlight(center, reach, pos, vel)(t) == GapInTime(y.LengthSqr(), vel.Dot(y), vel.LengthSqr(), Sqr(reach))(t)
  {
    RoomIsGap(center, reach, pos, vel, t);
  }

  lemma RoomZeros(center: Vec, reach: real, pos: Vec, vel: Vec, t: real)
    ensures
      var y := center.Minus(pos);
      FirstZero(RoomInFlight(center, reach, pos, vel), t) <==>
        FirstZero(GapInTime(y.LengthSqr(), vel.Dot(y), vel.LengthSqr(), Sqr(reach)), t)
  {
    var y := center.Minus(pos);
    var f := RoomInFlight(center, reach, pos, vel);
    var g := GapInTime(y.LengthSqr(), vel.Dot(y), vel.LengthSqr(), Sqr(reach));
    forall u
      ensures f(u) == g(u)
    {
      RoomIsGapAt(center, reach, pos, vel, u);
    }
    SameZeros(f, g, t);
  }

  /** A gap that is open at the start is first closed at the smaller root of the quadratic, and only when
      approaching with a real root. */
  lemma GapCloses(a: real, b: real, v: real, rr: real, q: real, t: real)
    requires v > 0.0 && q >= 0.0 && q * q == Discriminant(a, b, v, rr) && a > rr && b > 0.0
    ensures (b - q) / v > 0.0
    ensures Gap(a, b, v, rr, (b - q) / v) == 0.0
    ensures t < (b - q) / v ==> Gap(a, b, v, rr, t) > 0.0
  {
    ProductPositive(v, a - rr);
    assert v * (a - rr) == -(v * (rr - a));
    SquareOrder(q, b);
    Quotient(b - q, v, 0.0);
    Quotient(b - q, v, t);
    GapSign(a, b, v, rr, (b - q) / v, q);
    GapSign(a, b, v, rr, t, q);
  }

  lemma GapStaysOpen(a: real, b: real, v: real, rr: real, t: real)
    requires v >= 0.0 && a > rr && t >= 0.0 && (v == 0.0 ==> b == 0.0)
    requires Discriminant(a, b, v, rr) < 0.0 || b <= 0.0
    ensures Gap(a, b, v, rr, t) > 0.0
  {
    if b <= 0.0 {
      assert t * -b >= 0.0;
      assert 2.0 * t * b == -2.0 * (t * -b);
      assert t * t * v >= 0.0;
    } else {
      CompleteSquare(a, b, v, rr, t);
      SquareNonNegative(v * t - b);
      ProductPositive(v, Gap(a, b, v, rr, t));
    }
  }

  lemma ClosingTimeIsFirst(a: real, b: real, v: real, rr: real, sqrt: real -> real, t: real)
    requires IsRoot(sqrt) && v >= 0.0 && (v == 0.0 ==> b == 0.0) && a > rr
    ensures
      var contact := ClosingTime(a, b, v, rr, sqrt);
      && (contact.At? ==> contact.time > 0.0 && Gap(a, b, v, rr, contact.time) == 0.0)
      && (t >= 0.0 && (contact.At? ==> t < contact.time) ==> Gap(a, b, v, rr, t) > 0.0)
  {
    var root := Discriminant(a, b, v, rr);
    if root < 0.0 || b <= 0.0 {
      if t >= 0.0 {
        GapStaysOpen(a, b, v, rr, t);
      }
    } else {
      GapCloses(a, b, v, rr, sqrt(root), t);
    }
  }

  lemma ClosingTimeIsZero(a: real, b: real, v: real, rr: real, sqrt: real -> real, t: real)
    requires IsRoot(sqrt) && v >= 0.0 && (v == 0.0 ==> b == 0.0) && a > rr
    ensures ClosingTime(a, b, v, rr, sqrt) == At(t) <==> FirstZero(GapInTime(a, b, v, rr), t)
  {
    var contact := ClosingTime(a, b, v, rr, sqrt);
    var f := GapInTime(a, b, v, rr);
    ClosingTimeIsFirst(a, b, v, rr, sqrt, 0.0);
    forall u | u >= 0.0 && (contact.At? ==> u < contact.time)
      ensures f(u) != 0.0
    {
      ClosingTimeIsFirst(a, b, v, rr, sqrt, u);
    }
    FirstZeroOf(contact, f, t);
  }

  /** A disc that starts outside a circle: the computed contact is the first touch, and up to it, or for ever if
      there is none, the disc stays outside. */
  lemma CircleContactIsFirst(c: Shape, pos: Vec, vel: Vec, size: real, sqrt: real -> real, t: real)
    requires c.Circle? && IsRoot(sqrt) && Room(c.center, size + c.radius, pos) > 0.0
    ensures
      var contact := CircleContact(c, pos, vel, size, sqrt);
      && (contact == At(t) <==> FirstZero(RoomInFlight(c.center, size + c.radius, pos, vel), t))
      && (t >= 0.0 && (contact.At? ==> t < contact.time) ==> RoomInFlight(c.center, size + c.radius, pos, vel)(t) > 0.0)
      && (contact.At? ==> contact.time > 0.0)
  {
    hide ClosingTime, CircleContact, FirstZero;
    var a, b, v, rr := CircleGap(c, pos, vel, size, sqrt, t);
    ClosingTimeIsFirst(a, b, v, rr, sqrt, t);
    ClosingTimeIsZero(a, b, v, rr, sqrt, t);
  }

  /** The flight past a circle in the terms of the quadratic. */
  lemma CircleGap(c: Shape, pos: Vec, vel: Vec, size: real, sqrt: real -> real, t: real)
    returns (a: real, b: real, v: real, rr: real)
    requires c.Circle? && Room(c.center, size + c.radius, pos) > 0.0
    ensures v >= 0.0 && (v == 0.0 ==> b == 0.0) && a > rr
    ensures CircleContact(c, pos, vel, size, sqrt) == ClosingTime(a, b, v, rr, sqrt)
    ensures FirstZero(RoomInFlight(c.center, size + c.radius, pos, vel), t) <==> FirstZero(GapInTime(a, b, v, rr), t)
    ensures RoomInFlight(c.center, size + c.radius, pos, vel)(t) == Gap(a, b, v, rr, t)
  {
    hide FirstZero, ClosingTime, OpeningTime, Gap, Discriminant, Sqr, Vec.Dot, Vec.LengthSqr;
    var y, r := c.center.Minus(pos), size + c.radius;
    a, b, v, rr := y.LengthSqr(), vel.Dot(y), vel.LengthSqr(), Sqr(r);
    StillDot(vel, y);
    RoomZeros(c.center, r, pos, vel, t);
    RoomIsGapAt(c.center, r, pos, vel, t);
  }

  /** A disc that already touches a circle hits it at once if it approaches, and otherwise never. */
  lemma CircleContactOverlapping(c: Shape, pos: Vec, vel: Vec, size: real, sqrt: real -> real)
    requires c.Circle? && IsRoot(sqrt) && Room(c.center, size + c.radius, pos) <= 0.0
    ensures CircleContact(c, pos, vel, size, sqrt) == if vel.Dot(c.center.Minus(pos)) > 0.0 then At(0.0) else Never
  {
    var y := c.center.Minus(pos);
    var r := size + c.radius;
    Still(vel);
    ClosingTimeOverlapping(y.LengthSqr(), vel.Dot(y), vel.LengthSqr(), Sqr(r), sqrt);
  }

  lemma ClosingTimeOverlapping(a: real, b: real, v: real, rr: real, sqrt: real -> real)
    requires IsRoot(sqrt) && v >= 0.0 && (v == 0.0 ==> b == 0.0) && a <= rr
    ensures ClosingTime(a, b, v, rr, sqrt) == if b > 0.0 then At(0.0) else Never
  {
    if b > 0.0 {
      var root := Discriminant(a, b, v, rr);
      assert v * (rr - a) >= 0.0;
      assert b * b >= 0.0;
      SquareOrder(sqrt(root), b);
      Quotient(b - sqrt(root), v, 0.0);
    }
  }

  // ----- inner circles -----

  lemma GapOpens(a: real, b: real, v: real, rr: real, q: real, t: real)
    requires v > 0.0 && q >= 0.0 && q * q == Discriminant(a, b, v, rr) && a < rr && t >= 0.0
    ensures (b + q) / v > 0.0
    ensures Gap(a, b, v, rr, (b + q) / v) == 0.0
    ensures t < (b + q) / v ==> Gap(a, b, v, rr, t) < 0.0
  {
    ProductPositive(v, rr - a);
    AbsOrder(b, q);
    Quotient(b + q, v, 0.0);
    Quotient(b + q, v, t);
    assert v * t >= 0.0;
    GapSign(a, b, v, rr, (b + q) / v, q);
    GapSign(a, b, v, rr, t, q);
  }

  lemma InnerRoot(a: real, b: real, v: real, rr: real)
    requires v > 0.0 && a < rr
    ensures Discriminant(a, b, v, rr) >= 0.0
  {
    ProductPositive(v, rr - a);
    SquareNonNegative(b);
  }

  lemma OpeningTimeIsFirst(a: real, b: real, v: real, rr: real, sqrt: real -> real, t: real)
    requires IsRoot(sqrt) && v >= 0.0 && (v == 0.0 ==> b == 0.0) && a < rr
    ensures
      var contact := OpeningTime(a, b, v, rr, sqrt);
      && (contact.At? ==> contact.time > 0.0 && Gap(a, b, v, rr, contact.time) == 0.0)
      && (t >= 0.0 && (contact.At? ==> t < contact.time) ==> Gap(a, b, v, rr, t) < 0.0)
  {
    if v > 0.0 {
      InnerRoot(a, b, v, rr);
      var q := sqrt(Discriminant(a, b, v, rr));
      GapOpens(a, b, v, rr, q, 0.0);
      if t >= 0.0 {
        GapOpens(a, b, v, rr, q, t);
      }
    }
  }

  lemma OpeningTimeIsZero(a: real, b: real, v: real, rr: real, sqrt: real -> real, t: real)
    requires IsRoot(sqrt) && v >= 0.0 && (v == 0.0 ==> b == 0.0) && a < rr
    ensures OpeningTime(a, b, v, rr, sqrt) == At(t) <==> FirstZero(GapInTime(a, b, v, rr), t)
  {
    var contact := OpeningTime(a, b, v, rr, sqrt);
    var f := GapInTime(a, b, v, rr);
    OpeningTimeIsFirst(a, b, v, rr, sqrt, 0.0);
    forall u | u >= 0.0 && (contact.At? ==> u < contact.time)
      ensures f(u) != 0.0
    {
      OpeningTimeIsFirst(a, b, v, rr, sqrt, u);
    }
    FirstZeroOf(contact, f, t);
  }

  /** A disc that starts inside an inner circle: the computed contact is the first touch, and up to it, or for
      ever if the disc does not move, it stays inside. */
  lemma InnerContactIsFirst(c: Shape, pos: Vec, vel: Vec, size: real, sqrt: real -> real, t: real)
    requires c.InnerCircle? && IsRoot(sqrt) && Room(c.center, size - c.radius, pos) < 0.0
    ensures
      var contact := InnerContact(c, pos, vel, size, sqrt);
      && (contact == At(t) <==> FirstZero(RoomInFlight(c.center, size - c.radius, pos, vel), t))
      && (t >= 0.0 && (contact.At? ==> t < contact.time) ==> RoomInFlight(c.center, size - c.radius, pos, vel)(t) < 0.0)
      && (contact.Never? <==> vel == Vec(0.0, 0.0))
      && (contact.At? ==> contact.time > 0.0)
  {
    hide InnerContact, FirstZero, Gap;
    var a, b, v, rr := InnerGap(c, pos, vel, size, sqrt, t);
    OpeningTimeIsFirst(a, b, v, rr, sqrt, t);
    OpeningTimeIsZero(a, b, v, rr, sqrt, t);
  }

  /** The flight within an inner circle in the terms of the quadratic. */
  lemma InnerGap(c: Shape, pos: Vec, vel: Vec, size: real, sqrt: real -> real, t: real)
    returns (a: real, b: real, v: real, rr: real)
    requires c.InnerCircle? && Room(c.center, size - c.radius, pos) < 0.0
    ensures v >= 0.0 && (v == 0.0 ==> b == 0.0) && (v == 0.0 <==> vel == Vec(0.0, 0.0)) && a < rr
    ensures InnerContact(c, pos, vel, size, sqrt) == OpeningTime(a, b, v, rr, sqrt)
    ensures FirstZero(RoomInFlight(c.center, size - c.radius, pos, vel), t) <==> FirstZero(GapInTime(a, b, v, rr), t)
    ensures RoomInFlight(c.center, size - c.radius, pos, vel)(t) == Gap(a, b, v, rr, t)
  {
    hide FirstZero, ClosingTime, OpeningTime, Gap, Discriminant, Sqr, Vec.Dot, Vec.LengthSqr;
    var y, r := c.center.Minus(pos), size - c.radius;
    a, b, v, rr := y.LengthSqr(), vel.Dot(y), vel.LengthSqr(), Sqr(r);
    StillDot(vel, y);
    RoomZeros(c.center, r, pos, vel, t);
    RoomIsGapAt(c.center, r, pos, vel, t);
  }
}
