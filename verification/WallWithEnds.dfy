/** A wall line with the circles that the arena puts at its two ends: together they are first touched exactly when a
    moving disc comes to the distance `reach`, its size and half the wall's thickness, from the line. */
module WallWithEnds {
  import opened Motion
  import opened Contact
  import opened WallContact

  function PointOn(l: Shape, s: real): Vec
    requires l.Line?
  {
    l.start.Plus(l.direction.Times(s))
  }

  function Tip(l: Shape): Vec
    requires l.Line?
  {
    PointOn(l, l.length)
  }

  /** A disc at `p` is further than `reach` from every point of the line. */
  ghost predicate Free(l: Shape, reach: real, p: Vec)
    requires l.Line?
  {
    forall s :: OnSegment(l, s) ==> Room(PointOn(l, s), reach, p) > 0.0
  }

  /** A disc at `p` is at the distance `reach` from some point of the line. */
  ghost predicate Touches(l: Shape, reach: real, p: Vec)
    requires l.Line?
  {
    exists s :: OnSegment(l, s) && Room(PointOn(l, s), reach, p) == 0.0
  }

  predicate Sound(l: Shape, size: real)
  {
    l.Line? && l.direction.LengthSqr() == 1.0 && l.length >= 0.0 && size + l.thickness >= 0.0
  }

  // ----- distance from a point of the line -----

  /** Pythagoras: by projection and offset. */
  lemma RoomByParts(l: Shape, s: real, reach: real, p: Vec)
    requires l.Line? && l.direction.LengthSqr() == 1.0
    ensures Room(PointOn(l, s), reach, p) == Sqr(Along(l, p) - s) + Sqr(Offset(l, p)) - Sqr(reach)
  {
    var q, u := p.Minus(l.start), l.direction;
    var y := PointOn(l, s).Minus(p);
    assert y.x == s * u.x - q.x && y.y == s * u.y - q.y;
    Pythagoras(u.x, u.y, q.x, q.y, s);
  }

  lemma Pythagoras(a: real, b: real, x: real, y: real, s: real)
    requires a * a + b * b == 1.0
    ensures (s * a - x) * (s * a - x) + (s * b - y) * (s * b - y) == Sqr(a * x + b * y - s) + Sqr(a * y - b * x)
  {
    var h, o := a * x + b * y, a * y - b * x;
    Difference(s * a, x);
    Difference(s * b, y);
    Difference(h, s);
    Lagrange(a, b, x, y);
    assert (s * a) * (s * a) == s * s * (a * a) && (s * b) * (s * b) == s * s * (b * b);
    assert s * s * (a * a) + s * s * (b * b) == s * s * (a * a + b * b);
    assert (s * a) * x == s * (a * x) && (s * b) * y == s * (b * y);
    assert s * h == s * (a * x) + s * (b * y);
  }

  lemma Lagrange(a: real, b: real, x: real, y: real)
    requires a * a + b * b == 1.0
    ensures (a * x + b * y) * (a * x + b * y) + (a * y - b * x) * (a * y - b * x) == x * x + y * y
  {
    assert (a * x + b * y) * (a * x + b * y) + (a * y - b * x) * (a * y - b * x)
        == (a * a + b * b) * (x * x + y * y);
  }

  // ----- how a straight flight gets over the line -----

  lemma Rising(o: real, w: real, s: real, t: real)
    requires s <= t
    ensures if w >= 0.0 then Uniform(o, w)(s) <= Uniform(o, w)(t) else Uniform(o, w)(s) >= Uniform(o, w)(t)
  {
    if s < t && w != 0.0 { Strictly(o, w, s, t); }
  }

  lemma Between(o: real, w: real, d: real, s: real, u: real, t: real)
    requires s <= u <= t && Abs(Uniform(o, w)(s)) <= d && Abs(Uniform(o, w)(t)) <= d
    ensures Abs(Uniform(o, w)(u)) <= d
  {
    Rising(o, w, s, u);
    Rising(o, w, u, t);
  }

  /** The time between `s` and `t` at which the value is `b`. */
  lemma Passes(a: real, g: real, s: real, t: real, b: real) returns (u: real)
    requires s <= t
    requires Uniform(a, g)(s) <= b <= Uniform(a, g)(t) || Uniform(a, g)(t) <= b <= Uniform(a, g)(s)
    ensures s <= u <= t && Uniform(a, g)(u) == b
  {
    if g == 0.0 {
      u := s;
      assert s * g == 0.0 && t * g == 0.0;
    } else {
      u := (b - a) / g;
      Dividing(b - a, g);
      Rising(a, g, s, t);
      if u < s { Strictly(a, g, u, s); }
      if u > t { Strictly(a, g, t, u); }
    }
  }

  lemma Strictly(a: real, g: real, s: real, t: real)
    requires s < t && g != 0.0
    ensures if g > 0.0 then Uniform(a, g)(s) < Uniform(a, g)(t) else Uniform(a, g)(s) > Uniform(a, g)(t)
  {
    hide Product, Uniform;
    UniformAt(a, g, s);
    UniformAt(a, g, t);
    ProductOrder(g, s, t);
  }

  function Product(x: real, y: real): real { x * y }

  lemma UniformAt(a: real, g: real, s: real)
    ensures Uniform(a, g)(s) == a + Product(s, g)
  {
  }

  lemma ProductOrder(g: real, s: real, t: real)
    requires s < t && g != 0.0
    ensures if g > 0.0 then Product(s, g) < Product(t, g) else Product(s, g) > Product(t, g)
  {
    var d := t - s;
    assert d * g == t * g - s * g;
    if g > 0.0 {
      ProductPositive(d, g);
    } else {
      ProductPositive(d, -g);
      assert d * -g == -(d * g);
    }
  }

  /** When the strip is entered that holds the offset at the time `t`. */
  lemma EntersBefore(o: real, w: real, d: real, t: real) returns (e: real)
    requires d >= 0.0 && Abs(o) > d && t >= 0.0 && Abs(Uniform(o, w)(t)) <= d
    ensures 0.0 <= e <= t && Enters(Uniform(o, w), d, e)
  {
    if w == 0.0 || (w > 0.0 <==> o > 0.0) {
      NeverEnters(o, w, d, t);
      assert false;
    }
    e := EntryTime(o, w, d);
    EntryTimeEnters(o, w, d, e);
    EntryIsFirst(o, w, d, t);
  }

  /** Whoever is over the line at the time `t`, but not at the start, has come in over an end, or through the side. */
  lemma ComesOver(o: real, w: real, a: real, g: real, d: real, length: real, t: real) returns (u: real, b: real)
    requires d >= 0.0 && length >= 0.0 && t >= 0.0
    requires Abs(Uniform(o, w)(t)) <= d && 0.0 <= Uniform(a, g)(t) <= length
    requires !(Abs(o) <= d && 0.0 <= a <= length)
    ensures 0.0 <= u <= t && (b == 0.0 || b == length)
    ensures || (Abs(o) > d && Enters(Uniform(o, w), d, u) && 0.0 <= Uniform(a, g)(u) <= length)
            || (Abs(Uniform(o, w)(u)) <= d && Uniform(a, g)(u) == b)
  {
    var s := 0.0;
    assert Uniform(o, w)(0.0) == o && Uniform(a, g)(0.0) == a;
    if Abs(o) > d {
      s := EntersBefore(o, w, d, t);
    }
    u, b := s, 0.0;
    if !(0.0 <= Uniform(a, g)(s) <= length) {
      b := if Uniform(a, g)(s) < 0.0 then 0.0 else length;
      u := Passes(a, g, s, t, b);
      Between(o, w, d, s, u, t);
    }
  }

  // ----- the three contacts together -----

  function Sooner(a: Contact, b: Contact): Contact
  {
    if a.Never? then b else if b.Never? || a.time <= b.time then a else b
  }

  /** The soonest of the contacts with the line and with the circles at its ends. */
  function Soonest(l: Shape, pos: Vec, vel: Vec, size: real, sqrt: real -> real): Contact
    requires l.Line?
  {
    Sooner(LineContact(l, pos, vel, size),
           Sooner(CircleContact(Circle(l.start, l.thickness), pos, vel, size, sqrt),
                  CircleContact(Circle(Tip(l), l.thickness), pos, vel, size, sqrt)))
  }

  predicate Before(t: real, contact: Contact) { contact.At? ==> t < contact.time }

  lemma EndsAreClear(l: Shape, reach: real, p: Vec)
    requires l.Line? && l.length >= 0.0 && Free(l, reach, p)
    ensures Room(PointOn(l, 0.0), reach, p) > 0.0 && Room(Tip(l), reach, p) > 0.0 && PointOn(l, 0.0) == l.start
  {
    assert OnSegment(l, 0.0) && OnSegment(l, l.length);
  }

  /** Free is: clear of both ends, and not over the line within reach. */
  lemma FreeByParts(l: Shape, reach: real, p: Vec)
    requires l.Line? && l.direction.LengthSqr() == 1.0 && l.length >= 0.0 && reach >= 0.0
    ensures Free(l, reach, p) <==>
              && Room(PointOn(l, 0.0), reach, p) > 0.0 && Room(Tip(l), reach, p) > 0.0
              && !(OnSegment(l, Along(l, p)) && Abs(Offset(l, p)) <= reach)
  {
    var a, o := Along(l, p), Offset(l, p);
    if Free(l, reach, p) {
      EndsAreClear(l, reach, p);
      if OnSegment(l, a) {
        RoomByParts(l, a, reach, p);
        AbsSquare(o, reach);
      }
    } else {
      var s :| OnSegment(l, s) && Room(PointOn(l, s), reach, p) <= 0.0;
      NearestPoint(l, reach, p, s);
    }
  }

  lemma AbsSquare(o: real, d: real)
    requires d >= 0.0
    ensures Sqr(o) <= Sqr(d) <==> Abs(o) <= d
    ensures Sqr(o) == Sqr(d) <==> Abs(o) == d
  {
    AbsOrder(o, d);
  }

  lemma NearestPoint(l: Shape, reach: real, p: Vec, s: real)
    requires l.Line? && l.direction.LengthSqr() == 1.0 && reach >= 0.0
    requires OnSegment(l, s) && Room(PointOn(l, s), reach, p) <= 0.0
    ensures Room(PointOn(l, 0.0), reach, p) <= 0.0 || Room(Tip(l), reach, p) <= 0.0
            || (OnSegment(l, Along(l, p)) && Abs(Offset(l, p)) <= reach)
  {
    hide Sqr, Abs;
    var a, o := Along(l, p), Offset(l, p);
    RoomByParts(l, s, reach, p);
    RoomByParts(l, 0.0, reach, p);
    RoomByParts(l, l.length, reach, p);
    if a < 0.0 {
      Further(a - 0.0, a - s);
    } else if a > l.length {
      Further(a - l.length, a - s);
    } else {
      Further(0.0, a - s);
      AbsSquare(o, reach);
    }
  }

  lemma Further(x: real, y: real)
    requires y <= x <= 0.0 || 0.0 <= x <= y || x == 0.0
    ensures Sqr(x) <= Sqr(y) && (x == 0.0 ==> Sqr(x) == 0.0)
  {
    SquareNonNegative(x);
    SquareNonNegative(y);
    if x > 0.0 { SquareOrder(x, y); }
    if x < 0.0 { SquareOrder(-x, -y); }
  }

  // ----- the first touch -----

  /** Whoever is over the line at the time `t`, having started free, has touched the line's side or an end before. */
  lemma TouchedBefore(l: Shape, pos: Vec, vel: Vec, size: real, t: real) returns (u: real, b: real)
    requires Sound(l, size) && Free(l, size + l.thickness, pos) && t >= 0.0
    requires OnSegment(l, Along(l, Moved(pos, vel, t))) && Abs(Offset(l, Moved(pos, vel, t))) <= size + l.thickness
    ensures 0.0 <= u <= t && (b == 0.0 || b == l.length)
    ensures LineContact(l, pos, vel, size) == At(u)
        || Room(PointOn(l, b), size + l.thickness, Moved(pos, vel, u)) <= 0.0
  {
    var o, w, a, g, d := Offset(l, pos), l.direction.Vedge(vel), Along(l, pos), l.direction.Dot(vel),
        size + l.thickness;
    FreeByParts(l, d, pos);
    OffsetInFlight(l, pos, vel, t);
    u, b := ComesOver(o, w, a, g, d, l.length, t);
    OffsetInFlight(l, pos, vel, u);
    if Abs(Uniform(o, w)(u)) <= d && Uniform(a, g)(u) == b {
      OverEnd(l, d, Moved(pos, vel, u), b);
    } else {
      LineContactIsStrip(l, pos, vel, size);
      StripContactIsEntry(o, w, a, g, d, l.length, u);
    }
  }

  lemma OverEnd(l: Shape, reach: real, p: Vec, b: real)
    requires l.Line? && l.direction.LengthSqr() == 1.0 && reach >= 0.0 && Along(l, p) == b && Abs(Offset(l, p)) <= reach
    ensures Room(PointOn(l, b), reach, p) <= 0.0
  {
    RoomByParts(l, b, reach, p);
    AbsSquare(Offset(l, p), reach);
    assert Sqr(b - b) == 0.0;
  }

  /** Before the soonest of the three contacts the flight stays free of the whole wall. */
  lemma StaysFree(l: Shape, pos: Vec, vel: Vec, size: real, sqrt: real -> real, t: real)
    requires Sound(l, size) && IsRoot(sqrt) && Free(l, size + l.thickness, pos)
    requires t >= 0.0 && Before(t, Soonest(l, pos, vel, size, sqrt))
    ensures Free(l, size + l.thickness, Moved(pos, vel, t))
  {
    var d := size + l.thickness;
    EndsStayClear(l, pos, vel, size, sqrt, t);
    FreeByParts(l, d, Moved(pos, vel, t));
    if OnSegment(l, Along(l, Moved(pos, vel, t))) && Abs(Offset(l, Moved(pos, vel, t))) <= d {
      var u, b := TouchedBefore(l, pos, vel, size, t);
      EndsStayClear(l, pos, vel, size, sqrt, u);
      assert false;
    }
  }

  lemma EndsStayClear(l: Shape, pos: Vec, vel: Vec, size: real, sqrt: real -> real, t: real)
    requires Sound(l, size) && IsRoot(sqrt) && Free(l, size + l.thickness, pos)
    requires t >= 0.0 && Before(t, Soonest(l, pos, vel, size, sqrt))
    ensures Room(PointOn(l, 0.0), size + l.thickness, Moved(pos, vel, t)) > 0.0
    ensures Room(Tip(l), size + l.thickness, Moved(pos, vel, t)) > 0.0
  {
    EndsAreClear(l, size + l.thickness, pos);
    CircleContactIsFirst(Circle(l.start, l.thickness), pos, vel, size, sqrt, t);
    CircleContactIsFirst(Circle(Tip(l), l.thickness), pos, vel, size, sqrt, t);
  }

  lemma LineTouches(l: Shape, pos: Vec, vel: Vec, size: real, t: real)
    requires Sound(l, size) && Free(l, size + l.thickness, pos) && LineContact(l, pos, vel, size) == At(t)
    ensures t > 0.0 && Touches(l, size + l.thickness, Moved(pos, vel, t))
  {
    var d, p := size + l.thickness, Moved(pos, vel, t);
    FreeByParts(l, d, pos);
    if Abs(Offset(l, pos)) > d {
      LineContactIsEntry(l, pos, vel, size, t);
      assert Enters(OffsetOver(l, pos, vel), d, t) && Abs(OffsetOver(l, pos, vel)(t)) == d;
      RoomByParts(l, Along(l, p), d, p);
      AbsSquare(Offset(l, p), d);
      AtStart(pos, vel);
    } else {
      LineContactOverlapping(l, pos, vel, size);
      assert false;
    }
  }

  lemma AtStart(pos: Vec, vel: Vec)
    ensures Moved(pos, vel, 0.0) == pos
  {
  }

  lemma CircleTouches(l: Shape, s: real, pos: Vec, vel: Vec, size: real, sqrt: real -> real, t: real)
    requires Sound(l, size) && IsRoot(sqrt) && OnSegment(l, s) && Room(PointOn(l, s), size + l.thickness, pos) > 0.0
    requires CircleContact(Circle(PointOn(l, s), l.thickness), pos, vel, size, sqrt) == At(t)
    ensures t > 0.0 && Touches(l, size + l.thickness, Moved(pos, vel, t))
  {
    var c := Circle(PointOn(l, s), l.thickness);
    CircleContactIsFirst(c, pos, vel, size, sqrt, t);
    assert FirstZero(RoomInFlight(c.center, size + l.thickness, pos, vel), t);
    assert RoomInFlight(c.center, size + l.thickness, pos, vel)(t) == 0.0;
  }

  /** The soonest of the three contacts is the first moment at which the disc touches the wall. */
  lemma WallContactIsFirst(l: Shape, pos: Vec, vel: Vec, size: real, sqrt: real -> real, t: real)
    requires Sound(l, size) && IsRoot(sqrt) && Free(l, size + l.thickness, pos)
    ensures
      var contact := Soonest(l, pos, vel, size, sqrt);
      && (contact.At? ==> contact.time > 0.0 && Touches(l, size + l.thickness, Moved(pos, vel, contact.time)))
      && (t >= 0.0 && Before(t, contact) ==> Free(l, size + l.thickness, Moved(pos, vel, t)))
  {
    var contact := Soonest(l, pos, vel, size, sqrt);
    if contact.At? {
      SoonestTouches(l, pos, vel, size, sqrt, contact.time);
    }
    if t >= 0.0 && Before(t, contact) {
      StaysFree(l, pos, vel, size, sqrt, t);
    }
  }

  lemma SoonestTouches(l: Shape, pos: Vec, vel: Vec, size: real, sqrt: real -> real, t: real)
    requires Sound(l, size) && IsRoot(sqrt) && Free(l, size + l.thickness, pos)
    requires Soonest(l, pos, vel, size, sqrt) == At(t)
    ensures t > 0.0 && Touches(l, size + l.thickness, Moved(pos, vel, t))
  {
    EndsAreClear(l, size + l.thickness, pos);
    if LineContact(l, pos, vel, size) == At(t) {
      LineTouches(l, pos, vel, size, t);
    } else if CircleContact(Circle(l.start, l.thickness), pos, vel, size, sqrt) == At(t) {
      CircleTouches(l, 0.0, pos, vel, size, sqrt, t);
    } else {
      CircleTouches(l, l.length, pos, vel, size, sqrt, t);
    }
  }
}
