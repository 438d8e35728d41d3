/** When a moving disc runs into the side of a wall line. */
module WallContact {
  import opened Motion
  import opened Contact

  /** The signed distance of `p` from the line through the wall. */
  function Offset(l: Shape, p: Vec): real
    requires l.Line?
  {
    l.direction.Vedge(p.Minus(l.start))
  }

  /** Where along the wall `p` projects. */
  function Along(l: Shape, p: Vec): real
    requires l.Line?
  {
    l.direction.Dot(p.Minus(l.start))
  }

  function Abs(x: real): real { if x < 0.0 then -x else x }

  predicate OnSegment(l: Shape, along: real)
    requires l.Line?
  {
    0.0 <= along <= l.length
  }

  /** Uniform motion on a line. */
  function Uniform(o: real, w: real): real -> real
  {
    t => o + t * w
  }

  lemma OffsetInFlight(l: Shape, pos: Vec, vel: Vec, t: real)
    requires l.Line?
    ensures Offset(l, Moved(pos, vel, t)) == Uniform(Offset(l, pos), l.direction.Vedge(vel))(t)
    ensures Along(l, Moved(pos, vel, t)) == Uniform(Along(l, pos), l.direction.Dot(vel))(t)
  {
    var p, u, v := pos.Minus(l.start), l.direction, vel;
    var q := Moved(pos, vel, t).Minus(l.start);
    assert q.x == p.x + t * v.x && q.y == p.y + t * v.y;
    InFlightAxis(u.x, p.y, v.y, t);
    InFlightAxis(u.y, p.x, v.x, t);
    InFlightAxis(u.x, p.x, v.x, t);
    InFlightAxis(u.y, p.y, v.y, t);
    assert t * u.Vedge(v) == t * (u.x * v.y) - t * (u.y * v.x);
    assert t * u.Dot(v) == t * (u.x * v.x) + t * (u.y * v.y);
  }

  lemma InFlightAxis(u: real, p: real, v: real, t: real)
    ensures u * (p + t * v) == u * p + t * (u * v)
  {
  }

  // ----- the strip around a line, in numbers -----

  /** The time at which `o + t * w` reaches distance `d` on its way through zero. */
  function EntryTime(o: real, w: real, d: real): real
    requires w != 0.0
  {
    (-o - (if w > 0.0 then d else -d)) / w
  }

  /** The wall's contact by the offset `o` and its speed `w`, the projection `a` and its speed `g`. */
  function StripContact(o: real, w: real, a: real, g: real, d: real, length: real): Contact
  {
    if w == 0.0 || -o / w < 0.0 then Never
    else
      var e := EntryTime(o, w, d);
      if !(0.0 <= Uniform(a, g)(e) <= length) then Never
      else if e < 0.0 && !(0.0 <= a <= length) then Never
      else At(Later(e))
  }

  lemma Dividing(n: real, w: real)
    requires w != 0.0
    ensures n / w * w == n
    ensures n / w == n * (1.0 / w)
    ensures n / w >= 0.0 <==> if w > 0.0 then n >= 0.0 else n <= 0.0
    ensures n / w > 0.0 <==> if w > 0.0 then n > 0.0 else n < 0.0
  {
    var q := n / w;
    assert q * w == n;
    var i := 1.0 / w;
    assert i * w == 1.0;
    assert n * i == q * (w * i);
    if w > 0.0 { ProductPositive(w, q); } else { ProductPositive(-w, q); assert -w * q == -n; }
  }

  lemma InverseSign(w: real)
    requires w != 0.0
    ensures 1.0 / w > 0.0 <==> w > 0.0
  {
    Dividing(1.0, w);
  }

  lemma WallTimeIsStrip(uy: real, w: real, vy: real, g: real, a: real, d: real, length: real)
    requires vy == g * uy + w * a
    ensures WallTime(uy, w, vy, g, a, d, length) == StripContact(-uy, w, a, g, d, length)
  {
    if w != 0.0 {
      hide EntryTime, Uniform;
      EntryComputed(uy, w, vy, g, a, d);
      assert uy == -(-uy);
    }
  }

  /** The source's terms by their meaning. */
  lemma EntryComputed(uy: real, w: real, vy: real, g: real, a: real, d: real)
    requires w != 0.0 && vy == g * uy + w * a
    ensures
      var det := 1.0 / w;
      var side := if det > 0.0 then d else -d;
      && (uy * det < 0.0 <==> -(-uy) / w < 0.0)
      && (uy - side) * det == EntryTime(-uy, w, d)
      && (vy - side * g) * det == Uniform(a, g)(EntryTime(-uy, w, d))
  {
    var side := if w > 0.0 then d else -d;
    InverseSign(w);
    Dividing(uy, w);
    Dividing(uy - side, w);
    EntryPoint(vy, g, uy, w, a, side);
  }

  /** The computed contact in terms of offset and projection. */
  lemma LineContactIsStrip(l: Shape, pos: Vec, vel: Vec, size: real)
    requires l.Line? && l.direction.LengthSqr() == 1.0
    ensures LineContact(l, pos, vel, size) ==
            StripContact(Offset(l, pos), l.direction.Vedge(vel), Along(l, pos), l.direction.Dot(vel),
                         size + l.thickness, l.length)
  {
    var y := l.start.Minus(pos);
    var u := l.direction;
    Sides(l, pos);
    SideIdentity(u, vel, y);
    Commutes(u, vel);
    WallTimeIsStrip(u.Vedge(y), u.Vedge(vel), vel.Vedge(y), vel.Dot(u), -y.Dot(u), size + l.thickness, l.length);
  }

  lemma Commutes(u: Vec, v: Vec)
    ensures u.Dot(v) == v.Dot(u)
  {
  }

  lemma Sides(l: Shape, pos: Vec)
    requires l.Line?
    ensures l.direction.Vedge(l.start.Minus(pos)) == -Offset(l, pos)
    ensures -l.start.Minus(pos).Dot(l.direction) == Along(l, pos)
  {
    var y, p := l.start.Minus(pos), pos.Minus(l.start);
    assert y.x == -p.x && y.y == -p.y;
    Negated(l.direction.x, p.x);
    Negated(l.direction.x, p.y);
    Negated(l.direction.y, p.x);
    Negated(l.direction.y, p.y);
  }

  lemma Negated(a: real, b: real)
    ensures a * -b == -(a * b) && -b * a == -(a * b)
  {
  }

  /** The identity by which the source computes the projection at the contact. */
  lemma SideIdentity(u: Vec, v: Vec, y: Vec)
    requires u.LengthSqr() == 1.0
    ensures v.Vedge(y) == u.Dot(v) * u.Vedge(y) + u.Vedge(v) * -y.Dot(u)
  {
    var a, b, c, d := u.x, u.y, v.x, v.y;
    assert (a * c + b * d) * (a * y.y - b * y.x) - (a * d - b * c) * (y.x * a + y.y * b)
        == (a * a + b * b) * (c * y.y - d * y.x);
  }

  lemma EntryPoint(vy: real, g: real, uy: real, w: real, a: real, side: real)
    requires w != 0.0 && vy == g * uy + w * a
    ensures (vy - side * g) * (1.0 / w) == a + (uy - side) / w * g
  {
    var i := 1.0 / w;
    assert i * w == 1.0;
    Dividing(uy - side, w);
    assert (g * uy + w * a - side * g) * i == g * (uy - side) * i + (w * i) * a;
    assert g * (uy - side) * i == ((uy - side) * i) * g;
  }

  // ----- what the contact means -----

  /** `f` comes to distance `d` from zero at the time `t`, having been further away before. */
  ghost predicate Enters(f: real -> real, d: real, t: real)
  {
    t >= 0.0 && Abs(f(t)) == d && forall u :: 0.0 <= u < t ==> Abs(f(u)) > d
  }

  lemma EntersOnce(f: real -> real, d: real, e: real, t: real)
    requires e >= 0.0 && Abs(f(e)) == d
    requires forall u :: 0.0 <= u < e ==> Abs(f(u)) > d
    ensures Enters(f, d, t) <==> t == e
  {
  }

  function OffsetOver(l: Shape, pos: Vec, vel: Vec): real -> real
    requires l.Line?
  {
    t => Offset(l, Moved(pos, vel, t))
  }

  /** Outside the strip until the entry time, at distance `d` then. */
  lemma EntryIsFirst(o: real, w: real, d: real, u: real)
    requires w != 0.0 && d >= 0.0 && Abs(o) > d && (w > 0.0 <==> o < 0.0)
    ensures EntryTime(o, w, d) > 0.0
    ensures Abs(Uniform(o, w)(EntryTime(o, w, d))) == d
    ensures u < EntryTime(o, w, d) ==> Abs(Uniform(o, w)(u)) > d
  {
    var e := EntryTime(o, w, d);
    Dividing(-o - (if w > 0.0 then d else -d), w);
    if u < e {
      if w > 0.0 { ProductPositive(w, e - u); } else { ProductPositive(-w, e - u); }
      assert (e - u) * w == e * w - u * w;
    }
  }

  lemma NeverEnters(o: real, w: real, d: real, u: real)
    requires d >= 0.0 && Abs(o) > d && u >= 0.0 && (w != 0.0 ==> (w > 0.0 <==> o > 0.0))
    ensures Abs(Uniform(o, w)(u)) > d
  {
    if w >= 0.0 { assert u * w >= 0.0; } else { assert u * -w >= 0.0; assert u * w == -(u * -w); }
  }

  lemma EntryTimeEnters(o: real, w: real, d: real, t: real)
    requires w != 0.0 && d >= 0.0 && Abs(o) > d && (w > 0.0 <==> o < 0.0)
    ensures EntryTime(o, w, d) > 0.0
    ensures Enters(Uniform(o, w), d, t) <==> t == EntryTime(o, w, d)
  {
    var f, e := Uniform(o, w), EntryTime(o, w, d);
    forall u
      ensures e > 0.0 && Abs(f(e)) == d
      ensures u < e ==> Abs(f(u)) > d
    {
      EntryIsFirst(o, w, d, u);
    }
    EntersOnce(f, d, e, t);
  }

  /** From outside the strip, the contact is the moment at which the strip is entered over the wall. */
  lemma StripContactIsEntry(o: real, w: real, a: real, g: real, d: real, length: real, t: real)
    requires d >= 0.0 && Abs(o) > d
    ensures StripContact(o, w, a, g, d, length) == At(t) <==>
              Enters(Uniform(o, w), d, t) && 0.0 <= Uniform(a, g)(t) <= length
  {
    if w != 0.0 {
      Dividing(-o, w);
    }
    if w != 0.0 && (w > 0.0 <==> o < 0.0) {
      EntryTimeEnters(o, w, d, t);
    } else if t >= 0.0 {
      NeverEnters(o, w, d, t);
    }
  }

  /** From outside the wall's strip: the disc hits the wall exactly when its centre comes to the distance
      `size + thickness` over the wall, having been further away before. */
  lemma LineContactIsEntry(l: Shape, pos: Vec, vel: Vec, size: real, t: real)
    requires l.Line? && l.direction.LengthSqr() == 1.0
    requires size + l.thickness >= 0.0 && Abs(Offset(l, pos)) > size + l.thickness
    ensures LineContact(l, pos, vel, size) == At(t) <==>
              && Enters(OffsetOver(l, pos, vel), size + l.thickness, t)
              && OnSegment(l, Along(l, Moved(pos, vel, t)))
  {
    LineContactIsStrip(l, pos, vel, size);
    var o, w, a, g := Offset(l, pos), l.direction.Vedge(vel), Along(l, pos), l.direction.Dot(vel);
    StripContactIsEntry(o, w, a, g, size + l.thickness, l.length, t);
    OffsetInFlight(l, pos, vel, t);
    EntersInFlight(l, pos, vel, size + l.thickness, t);
  }

  lemma EntersInFlight(l: Shape, pos: Vec, vel: Vec, d: real, t: real)
    requires l.Line?
    ensures Enters(OffsetOver(l, pos, vel), d, t) <==>
              Enters(Uniform(Offset(l, pos), l.direction.Vedge(vel)), d, t)
  {
    var f, h := OffsetOver(l, pos, vel), Uniform(Offset(l, pos), l.direction.Vedge(vel));
    forall u
      ensures f(u) == h(u)
    {
      OffsetInFlight(l, pos, vel, u);
    }
    SameEntries(f, h, d, t);
  }

  lemma SameEntries(f: real -> real, h: real -> real, d: real, t: real)
    requires forall u :: f(u) == h(u)
    ensures Enters(f, d, t) <==> Enters(h, d, t)
  {
  }

  /** A disc already within the strip hits the wall at once, exactly if it heads for the middle line and projects
      on the wall both now and where it came into the strip. */
  lemma LineContactOverlapping(l: Shape, pos: Vec, vel: Vec, size: real)
    requires l.Line? && l.direction.LengthSqr() == 1.0
    requires size + l.thickness >= 0.0 && Abs(Offset(l, pos)) <= size + l.thickness
    ensures
      var o, w := Offset(l, pos), l.direction.Vedge(vel);
      LineContact(l, pos, vel, size) ==
        if && w != 0.0 && (if w > 0.0 then o <= 0.0 else o >= 0.0)
           && OnSegment(l, Along(l, pos))
           && OnSegment(l, Along(l, Moved(pos, vel, EntryTime(o, w, size + l.thickness))))
        then At(0.0) else Never
  {
    LineContactIsStrip(l, pos, vel, size);
    var o, w, a, g, d := Offset(l, pos), l.direction.Vedge(vel), Along(l, pos), l.direction.Dot(vel),
        size + l.thickness;
    if w != 0.0 {
      OffsetInFlight(l, pos, vel, EntryTime(o, w, d));
      StripOverlapping(o, w, a, g, d, l.length);
    }
  }

  lemma StripOverlapping(o: real, w: real, a: real, g: real, d: real, length: real)
    requires d >= 0.0 && Abs(o) <= d && w != 0.0
    ensures StripContact(o, w, a, g, d, length) ==
      if && (if w > 0.0 then o <= 0.0 else o >= 0.0)
         && 0.0 <= a <= length && 0.0 <= Uniform(a, g)(EntryTime(o, w, d)) <= length
      then At(0.0) else Never
  {
    var e := EntryTime(o, w, d);
    Dividing(-o, w);
    Dividing(-o - (if w > 0.0 then d else -d), w);
    if w > 0.0 ==> o <= 0.0 {
      assert w < 0.0 && o >= 0.0 ==> e <= 0.0;
    }
    if e == 0.0 {
      assert e * g == 0.0;
    }
  }
}
