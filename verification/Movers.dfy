/** The moves of a shot and of a robot within one update. */
module Movers {
  import opened Motion
  import opened Contact
  import opened Flight
  import opened Merging
  import opened WallWithEnds

  datatype Hit = NoHit | Hit(kind: nat, index: nat)

  class Shot {
    var center: Vec
    var velocity: Vec
    var energy: real
    var id: int
    var alive: bool
    const radius: real

    ghost function View(): Missile reads this { Missile(velocity, energy) }

    /** Flies for the time step if nothing is nearer; any body that is nearer ends the shot, except another shot, with
        which it may merge.  `others` are the shots of the arena's list, `newId` the number of a merged shot. */
    method Move(timestep: real, lists: seq<seq<Body>>, others: seq<Missile>, minEnergy: real, shotSpeed: real,
                newId: int, sqrt: real -> real)
      returns (hit: Hit)
      requires IsRoot(sqrt) && |lists| == LAST_OBJECT_TYPE && 0.0 <= timestep < INFINITY && shotSpeed > 0.0
      requires forall k: nat, i: nat :: Faces(lists, Nobody, k, i) ==> Proper(lists[k][i].shape, radius)
      requires View().Live() && |others| == |lists[SHOT]| && forall i :: 0 <= i < |others| ==> others[i].Live()
      modifies this
      ensures hit.NoHit? ==>
        && center == Moved(old(center), velocity, timestep) && FreePath(lists, old(center), velocity, radius, timestep)
        && FreeOfWalls(lists, old(center), velocity, radius, timestep)
        && View() == old(View()) && alive == old(alive) && id == old(id)
      ensures hit.Hit? ==>
        && Faces(lists, Nobody, hit.kind, hit.index) && center == old(center)
        && TimeTo(lists, hit.kind, hit.index, center, old(velocity), radius, sqrt) <= timestep
        && forall k: nat, i: nat :: Faces(lists, Nobody, k, i) ==>
             TimeTo(lists, hit.kind, hit.index, center, old(velocity), radius, sqrt) <=
             TimeTo(lists, k, i, center, old(velocity), radius, sqrt)
      ensures hit.Hit? ==>
        var merged :=
          if hit.kind == SHOT then Merge(old(View()), others[hit.index], minEnergy, shotSpeed, sqrt) else Stopped;
        && alive == (old(alive) && merged.Merged?)
        && View() == (if merged.Merged? then merged.missile else old(View()))
        && id == (if merged.Merged? then newId else old(id))
    {
      var dist, kind, index := GetShortestDistance(lists, center, velocity, radius, Nobody, sqrt);
      if dist > timestep {
        PathIsFree(lists, center, velocity, radius, sqrt, dist, timestep, kind, index);
        WallsAreFree(lists, center, velocity, radius, sqrt, dist, timestep, kind, index);
        center := Moved(center, velocity, timestep);
        hit := NoHit;
      } else {
        if kind == SHOT {
          Collide(others[index], minEnergy, shotSpeed, newId, sqrt);
        } else {
          alive := false;
        }
        hit := Hit(kind, index);
      }
    }

    /** Meets another shot. */
    method Collide(other: Missile, minEnergy: real, shotSpeed: real, newId: int, sqrt: real -> real)
      requires IsRoot(sqrt) && View().Live() && other.Live() && shotSpeed > 0.0
      modifies this`velocity, this`energy, this`id, this`alive
      ensures
        var merged := Merge(old(View()), other, minEnergy, shotSpeed, sqrt);
        && alive == (old(alive) && merged.Merged?)
        && View() == (if merged.Merged? then merged.missile else old(View()))
        && id == (if merged.Merged? then newId else old(id))
    {
      var merged := Merge(Missile(velocity, energy), other, minEnergy, shotSpeed, sqrt);
      if merged.Merged? {
        velocity, energy, id := merged.missile.velocity, merged.missile.energy, newId;
      } else {
        alive := false;
      }
    }
  }

  /** During the whole time step a disc stays clear of what it was clear of, and runs into no wall line. */
  ghost predicate FreePath(lists: seq<seq<Body>>, pos: Vec, vel: Vec, size: real, timestep: real)
  {
    forall k: nat, i: nat, t :: Faces(lists, Nobody, k, i) && 0.0 <= t <= timestep ==>
      FreeOf(lists[k][i].shape, pos, vel, size, t)
  }

  ghost predicate FreeOf(shape: Shape, pos: Vec, vel: Vec, size: real, t: real)
  {
    && (Clear(shape, pos, size) ==> Clear(shape, Moved(pos, vel, t), size))
    && !RunsInto(shape, pos, vel, size, t)
  }

  lemma PathIsFree(lists: seq<seq<Body>>, pos: Vec, vel: Vec, size: real, sqrt: real -> real, dist: real,
                   timestep: real, kind: int, index: nat)
    requires IsRoot(sqrt) && |lists| == LAST_OBJECT_TYPE && timestep < dist
    requires Nearest(lists, Nobody, pos, vel, size, sqrt, LAST_OBJECT_TYPE, 0, dist, kind, index)
    requires forall k: nat, i: nat :: Faces(lists, Nobody, k, i) ==> Proper(lists[k][i].shape, size)
    ensures FreePath(lists, pos, vel, size, timestep)
  {
    forall k: nat, i: nat, t | Faces(lists, Nobody, k, i) && 0.0 <= t <= timestep
      ensures FreeOf(lists[k][i].shape, pos, vel, size, t)
    {
      assert Precedes(k, i, LAST_OBJECT_TYPE, 0);
      assert dist <= TimeTo(lists, k, i, pos, vel, size, sqrt);
      FlightIsFree(lists[k][i].shape, pos, vel, size, sqrt, t);
    }
  }

  /** The arena puts a circle of the wall's thickness at either end of a line. */
  ghost predicate HasEnds(lists: seq<seq<Body>>, l: Shape)
    requires |lists| == LAST_OBJECT_TYPE && l.Line?
  {
    && (exists i: nat :: Faces(lists, Nobody, WALL, i) && lists[WALL][i].shape == Circle(l.start, l.thickness))
    && (exists i: nat :: Faces(lists, Nobody, WALL, i) && lists[WALL][i].shape == Circle(Tip(l), l.thickness))
  }

  /** During the whole time step a disc stays free of every wall with ends that it was free of. */
  ghost predicate FreeOfWalls(lists: seq<seq<Body>>, pos: Vec, vel: Vec, size: real, timestep: real)
    requires |lists| == LAST_OBJECT_TYPE
  {
    forall i: nat, t :: Faces(lists, Nobody, WALL, i) && 0.0 <= t <= timestep ==>
      var l := lists[WALL][i].shape;
      l.Line? && HasEnds(lists, l) && Free(l, size + l.thickness, pos) ==>
        Free(l, size + l.thickness, Moved(pos, vel, t))
  }

  lemma WallsAreFree(lists: seq<seq<Body>>, pos: Vec, vel: Vec, size: real, sqrt: real -> real, dist: real,
                     timestep: real, kind: int, index: nat)
    requires IsRoot(sqrt) && |lists| == LAST_OBJECT_TYPE && timestep < dist
    requires Nearest(lists, Nobody, pos, vel, size, sqrt, LAST_OBJECT_TYPE, 0, dist, kind, index)
    requires forall k: nat, i: nat :: Faces(lists, Nobody, k, i) ==> Proper(lists[k][i].shape, size)
    ensures FreeOfWalls(lists, pos, vel, size, timestep)
  {
    forall i: nat, t | Faces(lists, Nobody, WALL, i) && 0.0 <= t <= timestep
      ensures
        var l := lists[WALL][i].shape;
        l.Line? && HasEnds(lists, l) && Free(l, size + l.thickness, pos) ==>
          Free(l, size + l.thickness, Moved(pos, vel, t))
    {
      var l := lists[WALL][i].shape;
      if l.Line? && HasEnds(lists, l) && Free(l, size + l.thickness, pos) {
        OneWallIsFree(lists, pos, vel, size, sqrt, dist, timestep, kind, index, i, l, t);
      }
    }
  }

  lemma NotBefore(lists: seq<seq<Body>>, pos: Vec, vel: Vec, size: real, sqrt: real -> real, dist: real, t: real,
                  kind: int, index: nat, i: nat, shape: Shape)
    requires |lists| == LAST_OBJECT_TYPE && t < dist && Faces(lists, Nobody, WALL, i) && lists[WALL][i].shape == shape
    requires Nearest(lists, Nobody, pos, vel, size, sqrt, LAST_OBJECT_TYPE, 0, dist, kind, index)
    ensures Before(t, ShapeContact(shape, pos, vel, size, sqrt))
  {
    assert Precedes(WALL, i, LAST_OBJECT_TYPE, 0);
    assert dist <= TimeTo(lists, WALL, i, pos, vel, size, sqrt);
  }

  lemma OneWallIsFree(lists: seq<seq<Body>>, pos: Vec, vel: Vec, size: real, sqrt: real -> real, dist: real,
                      timestep: real, kind: int, index: nat, i: nat, l: Shape, t: real)
    requires IsRoot(sqrt) && |lists| == LAST_OBJECT_TYPE && 0.0 <= t <= timestep < dist && Proper(l, size)
    requires Nearest(lists, Nobody, pos, vel, size, sqrt, LAST_OBJECT_TYPE, 0, dist, kind, index)
    requires Faces(lists, Nobody, WALL, i) && lists[WALL][i].shape == l && l.Line? && HasEnds(lists, l)
    requires Free(l, size + l.thickness, pos)
    ensures Free(l, size + l.thickness, Moved(pos, vel, t))
  {
    var j: nat :| Faces(lists, Nobody, WALL, j) && lists[WALL][j].shape == Circle(l.start, l.thickness);
    var h: nat :| Faces(lists, Nobody, WALL, h) && lists[WALL][h].shape == Circle(Tip(l), l.thickness);
    NotBefore(lists, pos, vel, size, sqrt, dist, t, kind, index, i, l);
    NotBefore(lists, pos, vel, size, sqrt, dist, t, kind, index, j, Circle(l.start, l.thickness));
    NotBefore(lists, pos, vel, size, sqrt, dist, t, kind, index, h, Circle(Tip(l), l.thickness));
    WallContactIsFirst(l, pos, vel, size, sqrt, t);
  }

  // ----- robots -----

  /** What the arena is like at one iteration of a robot's move, and what the collision then does to the robot. */
  datatype Scene = Scene(lists: seq<seq<Body>>, velocity: Vec, push: Vec, survives: bool)

  datatype Fault = NoFault | UnknownObject | TooManyBounces

  /** A stretch of straight motion, and the displacement at its end. */
  datatype Leg = Leg(time: real, velocity: Vec, push: Vec)

  function Duration(legs: seq<Leg>): real
  {
    if legs == [] then 0.0 else legs[0].time + Duration(legs[1..])
  }

  function End(pos: Vec, legs: seq<Leg>): Vec
    decreases |legs|
  {
    if legs == [] then pos
    else End(Moved(pos, legs[0].velocity, legs[0].time).Plus(legs[0].push), legs[1..])
  }

  /** What a robot meets, iteration by iteration. */
  datatype World = World(scenes: nat -> Scene, sqrt: real -> real, eps: real, id: int, radius: real)
  {
    ghost predicate Valid()
    {
      eps >= 0.0 && forall k :: |scenes(k).lists| == LAST_OBJECT_TYPE
    }

    ghost predicate Meets(iter: nat, pos: Vec, velocity: Vec, dist: real, kind: int)
    {
      exists index: nat ::
        Nearest(scenes(iter).lists, Flight.Robot(id), pos, velocity, radius, sqrt, LAST_OBJECT_TYPE, 0, dist, kind,
            index)
    }

    /** From iteration 11 on a leg takes at least `eps`. */
    function LegTime(iter: nat, dist: real): real
    {
      if iter > 10 && dist < eps then eps else dist
    }

    /** The first leg goes to the nearest body, and is the last one if the robot stops there; or it is free. */
    ghost predicate First(iter: nat, velocity: Vec, timestep: real, dist: real, kind: int, leg: Leg, only: bool)
    {
      && leg.velocity == velocity
      && if dist > timestep then leg.time == timestep && leg.push == Vec(0.0, 0.0) && only
         else
           && leg.time == LegTime(iter, dist) && leg.push == scenes(iter).push && kind != NO_OBJECT
           && (only <==> kind == ROBOT || !scenes(iter).survives || timestep <= leg.time)
    }

    /** `legs` is a move from `pos` that lasts until the time is used up or the robot stops; each leg but the first
        starts with the velocity after the collision. */
    ghost predicate Course(iter: nat, pos: Vec, velocity: Vec, timestep: real, legs: seq<Leg>)
      decreases |legs|
    {
      && legs != []
      && (exists dist, kind ::
            Meets(iter, pos, velocity, dist, kind) && First(iter, velocity, timestep, dist, kind, legs[0], |legs| == 1))
      && (|legs| > 1 ==>
            Course(iter + 1, Moved(pos, legs[0].velocity, legs[0].time).Plus(legs[0].push), scenes(iter).velocity,
                   timestep - legs[0].time, legs[1..]))
    }
  }

  /** How many times `eps` may be left at an iteration. */
  function Left(iter: nat): real { if iter <= 11 then 50.0 else 61.0 - iter as real }

  predicate Affordable(timestep: real, iter: nat, eps: real) { timestep <= Left(iter) * eps }

  class Robot {
    var center: Vec
    var velocity: Vec
    var alive: bool
    const id: int
    const radius: real

    /** One update of a living robot: never runs into the bounce limit, whatever it meets, and uses at most a
        fiftieth more than the time step. */
    method Move(timestep: real, scenes: nat -> Scene, sqrt: real -> real) returns (fault: Fault, ghost legs: seq<Leg>)
      requires alive && timestep >= 0.0 && forall k :: |scenes(k).lists| == LAST_OBJECT_TYPE
      modifies this
      ensures fault != TooManyBounces && (timestep < INFINITY ==> fault == NoFault)
      ensures fault == NoFault ==>
        && World(scenes, sqrt, timestep / 50.0, id, radius).Course(1, old(center), old(velocity), timestep, legs)
        && center == End(old(center), legs)
        && |legs| <= 60 && 0.0 <= Duration(legs) <= timestep + timestep / 50.0
    {
      assert Affordable(timestep, 1, timestep / 50.0);
      fault, legs := MoveFor(timestep, 1, World(scenes, sqrt, timestep / 50.0, id, radius));
    }

    /** The rest of the move from iteration `iter` on. */
    method MoveFor(timestep: real, iter: nat, world: World) returns (fault: Fault, ghost legs: seq<Leg>)
      requires world.Valid() && world.id == id && world.radius == radius
      requires alive && 1 <= iter && timestep >= 0.0 && Affordable(timestep, iter, world.eps)
      requires iter > 1 ==> timestep > 0.0
      modifies this
      decreases 61 - iter
      ensures fault != TooManyBounces && (timestep < INFINITY ==> fault == NoFault)
      ensures fault == NoFault ==>
        && world.Course(iter, old(center), old(velocity), timestep, legs) && center == End(old(center), legs)
        && iter + |legs| <= 61 && 0.0 <= Duration(legs) <= timestep + world.eps
    {
      WithinLimit(timestep, iter, world.eps);
      fault, legs := NoFault, [];
      var dist, kind := Search(iter, world);
      if dist > timestep {
        center := Moved(center, velocity, timestep);
        legs := [Leg(timestep, velocity, Vec(0.0, 0.0))];
        LastLeg(world, iter, old(center), velocity, timestep, dist, kind, legs[0]);
      } else {
        if kind == NO_OBJECT {
          fault := UnknownObject;
          return;
        }
        var time, remaining := Collide(iter, world, dist, kind, timestep);
        ghost var leg := Leg(time, old(velocity), world.scenes(iter).push);
        if iter > 65 {
          fault := TooManyBounces;
          return;
        }
        if alive && remaining > 0.0 {
          StepUsesEps(timestep, iter, world.eps, time);
          ghost var rest;
          fault, rest := MoveFor(remaining, iter + 1, world);
          legs := [leg] + rest;
          if fault == NoFault {
            MoreLegs(world, iter, old(center), old(velocity), timestep, dist, kind, leg, rest);
          }
        } else {
          legs := [leg];
          LastLeg(world, iter, old(center), old(velocity), timestep, dist, kind, leg);
        }
      }
    }

    method Search(iter: nat, world: World) returns (dist: real, kind: int)
      requires world.Valid() && world.id == id && world.radius == radius
      ensures world.Meets(iter, center, velocity, dist, kind)
      ensures 0.0 <= dist <= INFINITY && (kind == NO_OBJECT ==> dist == INFINITY)
    {
      var index;
      dist, kind, index := GetShortestDistance(world.scenes(iter).lists, center, velocity, radius, Flight.Robot(id),
          world.sqrt);
    }

    /** Moves up to the collision and lets it happen. */
    method Collide(iter: nat, world: World, dist: real, kind: int, timestep: real) returns (time: real, remaining: real)
      modifies this
      ensures time == world.LegTime(iter, dist)
      ensures remaining == if kind == ROBOT then 0.0 else timestep - time
      ensures center == Moved(old(center), old(velocity), time).Plus(world.scenes(iter).push)
      ensures velocity == world.scenes(iter).velocity && alive == (old(alive) && world.scenes(iter).survives)
    {
      time := dist;
      if iter > 10 && time < world.eps {
        time := world.eps;
      }
      remaining := timestep - time;
      center := Moved(center, velocity, time).Plus(world.scenes(iter).push);
      velocity := world.scenes(iter).velocity;
      alive := alive && world.scenes(iter).survives;
      if kind == ROBOT {
        remaining := 0.0;
      }
    }
  }

  lemma LastLeg(world: World, iter: nat, pos: Vec, velocity: Vec, timestep: real, dist: real, kind: int, leg: Leg)
    requires world.Meets(iter, pos, velocity, dist, kind)
    requires world.First(iter, velocity, timestep, dist, kind, leg, true)
    ensures world.Course(iter, pos, velocity, timestep, [leg])
    ensures End(pos, [leg]) == Moved(pos, leg.velocity, leg.time).Plus(leg.push) && Duration([leg]) == leg.time
  {
  }

  lemma MoreLegs(world: World, iter: nat, pos: Vec, velocity: Vec, timestep: real, dist: real, kind: int, leg: Leg,
                 rest: seq<Leg>)
    requires world.Meets(iter, pos, velocity, dist, kind)
    requires world.First(iter, velocity, timestep, dist, kind, leg, false)
    requires world.Course(iter + 1, Moved(pos, leg.velocity, leg.time).Plus(leg.push), world.scenes(iter).velocity,
                          timestep - leg.time, rest)
    ensures world.Course(iter, pos, velocity, timestep, [leg] + rest)
    ensures End(pos, [leg] + rest) == End(Moved(pos, leg.velocity, leg.time).Plus(leg.push), rest)
    ensures Duration([leg] + rest) == leg.time + Duration(rest)
  {
    var legs := [leg] + rest;
    assert legs[1..] == rest;
  }

  lemma WithinLimit(timestep: real, iter: nat, eps: real)
    requires eps >= 0.0 && 1 <= iter && Affordable(timestep, iter, eps) && (iter > 1 ==> timestep > 0.0)
    ensures iter <= 60
  {
    if iter > 60 {
      NonPositive(Left(iter), eps);
    }
  }

  lemma NonPositive(x: real, eps: real)
    requires x <= 0.0 && eps >= 0.0
    ensures x * eps <= 0.0
  {
    assert -x * eps >= 0.0;
  }

  lemma StepUsesEps(timestep: real, iter: nat, eps: real, dist: real)
    requires eps >= 0.0 && 1 <= iter && Affordable(timestep, iter, eps) && dist >= 0.0 && (iter > 10 ==> dist >= eps)
    ensures Affordable(timestep - dist, iter + 1, eps)
  {
    if iter > 10 {
      assert Left(iter + 1) == Left(iter) - 1.0;
      assert (Left(iter) - 1.0) * eps == Left(iter) * eps - eps;
    }
  }
}
