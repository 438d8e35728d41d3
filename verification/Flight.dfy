/** The nearest collision among everything in the arena, the free flight of shots and the bouncing of robots. */
module Flight {
  import opened Motion
  import opened Contact
  import opened WallContact

  /** The arena's lists, searched in this order. */
  const ROBOT: nat := 0
  const SHOT: nat := 1
  const WALL: nat := 2
  const COOKIE: nat := 3
  const MINE: nat := 4
  const LAST_OBJECT_TYPE: nat := 5
  const NO_OBJECT: int := -1

  datatype Body = Body(id: int, shape: Shape)

  datatype Self = Nobody | Robot(id: int)

  /** Is the `i`-th body of list `k` one that the search looks at?  A robot does not look at itself. */
  predicate Faces(lists: seq<seq<Body>>, self: Self, k: nat, i: nat)
  {
    k < |lists| && i < |lists[k]| && !(k == ROBOT && self == Robot(lists[k][i].id))
  }

  function TimeTo(lists: seq<seq<Body>>, k: nat, i: nat, pos: Vec, dir: Vec, size: real, sqrt: real -> real): real
    requires k < |lists| && i < |lists[k]|
  {
    ShapeContact(lists[k][i].shape, pos, dir, size, sqrt).Time()
  }

  lemma TimeNonNegative(shape: Shape, pos: Vec, vel: Vec, size: real, sqrt: real -> real)
    ensures ShapeContact(shape, pos, vel, size, sqrt).Time() >= 0.0
  {
  }

  /** Does list position (`j`, `h`) come before (`k`, `i`)? */
  predicate Precedes(j: nat, h: nat, k: nat, i: nat)
  {
    j < k || (j == k && h < i)
  }

  /** The nearest of the bodies before (`k`, `i`), the first one among equals, or none within reach. */
  ghost predicate Nearest(lists: seq<seq<Body>>, self: Self, pos: Vec, dir: Vec, size: real, sqrt: real -> real,
                          k: nat, i: nat, dist: real, kind: int, index: nat)
  {
    && 0.0 <= dist <= INFINITY
    && (forall j: nat, h: nat :: Faces(lists, self, j, h) && Precedes(j, h, k, i) ==>
          dist <= TimeTo(lists, j, h, pos, dir, size, sqrt))
    && (if kind == NO_OBJECT then dist == INFINITY
        else
          && kind >= 0 && Faces(lists, self, kind, index) && Precedes(kind, index, k, i)
          && dist == TimeTo(lists, kind, index, pos, dir, size, sqrt) < INFINITY
          && forall j: nat, h: nat :: Faces(lists, self, j, h) && Precedes(j, h, kind, index) ==>
               dist < TimeTo(lists, j, h, pos, dir, size, sqrt))
  }

  method GetShortestDistance(lists: seq<seq<Body>>, pos: Vec, dir: Vec, size: real, self: Self, sqrt: real -> real)
    returns (dist: real, kind: int, index: nat)
    requires |lists| == LAST_OBJECT_TYPE
    ensures Nearest(lists, self, pos, dir, size, sqrt, LAST_OBJECT_TYPE, 0, dist, kind, index)
  {
    dist, kind, index := INFINITY, NO_OBJECT, 0;
    var k := ROBOT;
    while k < LAST_OBJECT_TYPE
      invariant k <= LAST_OBJECT_TYPE
      invariant Nearest(lists, self, pos, dir, size, sqrt, k, 0, dist, kind, index)
    {
      var i := 0;
      while i < |lists[k]|
        invariant i <= |lists[k]|
        invariant Nearest(lists, self, pos, dir, size, sqrt, k, i, dist, kind, index)
      {
        if k != ROBOT || self != Robot(lists[k][i].id) {
          var d := ShapeContact(lists[k][i].shape, pos, dir, size, sqrt).Time();
          TimeNonNegative(lists[k][i].shape, pos, dir, size, sqrt);
          assert d == TimeTo(lists, k, i, pos, dir, size, sqrt);
          NearestNext(lists, self, pos, dir, size, sqrt, k, i, dist, kind, index, d);
          if d < dist {
            kind, index, dist := k, i, d;
          }
        } else {
          NearestSkip(lists, self, pos, dir, size, sqrt, k, i, dist, kind, index);
        }
        i := i + 1;
      }
      NearestList(lists, self, pos, dir, size, sqrt, k, dist, kind, index);
      k := k + 1;
    }
  }

  lemma NearestNext(lists: seq<seq<Body>>, self: Self, pos: Vec, dir: Vec, size: real, sqrt: real -> real,
                    k: nat, i: nat, dist: real, kind: int, index: nat, d: real)
    requires Nearest(lists, self, pos, dir, size, sqrt, k, i, dist, kind, index)
    requires Faces(lists, self, k, i) && d == TimeTo(lists, k, i, pos, dir, size, sqrt) >= 0.0
    ensures if d < dist then Nearest(lists, self, pos, dir, size, sqrt, k, i + 1, d, k, i)
            else Nearest(lists, self, pos, dir, size, sqrt, k, i + 1, dist, kind, index)
  {
    hide TimeTo, Faces;
    forall j: nat, h: nat
      ensures Precedes(j, h, k, i + 1) <==> Precedes(j, h, k, i) || (j == k && h == i)
    {
    }
  }

  lemma NearestSkip(lists: seq<seq<Body>>, self: Self, pos: Vec, dir: Vec, size: real, sqrt: real -> real,
                    k: nat, i: nat, dist: real, kind: int, index: nat)
    requires Nearest(lists, self, pos, dir, size, sqrt, k, i, dist, kind, index) && !Faces(lists, self, k, i)
    ensures Nearest(lists, self, pos, dir, size, sqrt, k, i + 1, dist, kind, index)
  {
    forall j: nat, h: nat | Faces(lists, self, j, h)
      ensures Precedes(j, h, k, i + 1) <==> Precedes(j, h, k, i)
    {
    }
  }

  lemma NearestList(lists: seq<seq<Body>>, self: Self, pos: Vec, dir: Vec, size: real, sqrt: real -> real,
                    k: nat, dist: real, kind: int, index: nat)
    requires k < |lists| && Nearest(lists, self, pos, dir, size, sqrt, k, |lists[k]|, dist, kind, index)
    ensures Nearest(lists, self, pos, dir, size, sqrt, k + 1, 0, dist, kind, index)
  {
    forall j: nat, h: nat | Faces(lists, self, j, h)
      ensures Precedes(j, h, k + 1, 0) <==> Precedes(j, h, k, |lists[k]|)
    {
    }
  }

  // ----- free flight -----

  /** A disc of radius `size` at `p` is outside a circle, or inside an inner circle. */
  ghost predicate Clear(shape: Shape, p: Vec, size: real)
  {
    match shape
    case Circle(center, radius) => Room(center, size + radius, p) > 0.0
    case InnerCircle(center, radius) => Room(center, size - radius, p) < 0.0
    case Line(_, _, _, _) => true
  }

  /** Runs into a wall line at the time `t`, from outside its strip. */
  ghost predicate RunsInto(shape: Shape, pos: Vec, vel: Vec, size: real, t: real)
  {
    && shape.Line? && Abs(Offset(shape, pos)) > size + shape.thickness
    && Enters(OffsetOver(shape, pos, vel), size + shape.thickness, t)
    && OnSegment(shape, Along(shape, Moved(pos, vel, t)))
  }

  /** Wall directions are unit vectors. */
  predicate Proper(shape: Shape, size: real)
  {
    shape.Line? ==> shape.direction.LengthSqr() == 1.0 && shape.length >= 0.0 && size + shape.thickness >= 0.0
  }

  /** Before the time that the search gives, a flight touches nothing that it did not touch at the start. */
  lemma FlightIsFree(shape: Shape, pos: Vec, vel: Vec, size: real, sqrt: real -> real, t: real)
    requires IsRoot(sqrt) && Proper(shape, size)
    requires 0.0 <= t < INFINITY && t < ShapeContact(shape, pos, vel, size, sqrt).Time()
    ensures Clear(shape, pos, size) ==> Clear(shape, Moved(pos, vel, t), size)
    ensures !RunsInto(shape, pos, vel, size, t)
  {
    match shape
    case Line(_, _, _, _) => LineFlightIsFree(shape, pos, vel, size, t);
    case Circle(_, _) => if Clear(shape, pos, size) { CircleContactIsFirst(shape, pos, vel, size, sqrt, t); }
    case InnerCircle(_, _) => if Clear(shape, pos, size) { InnerContactIsFirst(shape, pos, vel, size, sqrt, t); }
  }

  lemma LineFlightIsFree(l: Shape, pos: Vec, vel: Vec, size: real, t: real)
    requires l.Line? && Proper(l, size)
    requires 0.0 <= t < INFINITY && t < LineContact(l, pos, vel, size).Time()
    ensures !RunsInto(l, pos, vel, size, t)
  {
    if RunsInto(l, pos, vel, size, t) {
      LineContactIsEntry(l, pos, vel, size, t);
      assert false;
    }
  }

  /** A shot does not collide with itself, although the search looks at it. */
  lemma ShotMissesItself(pos: Vec, vel: Vec, size: real, sqrt: real -> real)
    requires IsRoot(sqrt)
    ensures CircleContact(Circle(pos, size), pos, vel, size, sqrt) == Never
  {
    assert pos.Minus(pos) == Vec(0.0, 0.0);
    assert vel.Dot(Vec(0.0, 0.0)) == 0.0;
    SquareNonNegative(size + size);
    CircleContactOverlapping(Circle(pos, size), pos, vel, size, sqrt);
  }
}
