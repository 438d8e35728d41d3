/** Places and points of a game.  Robots may die at any time and together; they are counted out at the next
    update, and those still counted when the game ends are scored as a last group. */
module Scoring {
  import opened Basics

  /** A line of a robot's statistics: points and place, and the update that settled them. */
  datatype Award = Award(points: real, place: nat, round: nat)

  /** A robot within a game. */
  datatype Standing = Standing(alive: bool, unset: bool, awards: seq<Award>)
  {
    /** Alive, or dead without statistics. */
    predicate Counted() { alive || unset }

    predicate Ok(round: nat)
    {
      if Counted() then alive != unset && awards == [] else |awards| == 1 && awards[0].round < round
    }
  }

  function Points(robots: nat, left: nat, same: nat, timeout: bool): real
  {
    var adjust := if timeout then 2 * (same - 1) else same - 1;
    (robots - left) as real - adjust as real * 0.5
  }

  function Dead(s: Standing): Standing { if s.alive then s.(alive := false, unset := true) else s }

  function Scored(s: Standing, a: Award): Standing { s.(unset := false, awards := s.awards + [a]) }

  /** The standings once everybody dead without statistics gets the award `a`. */
  function Settle(st: seq<Standing>, a: Award): (r: seq<Standing>)
    ensures |r| == |st|
    ensures forall i :: 0 <= i < |st| ==> r[i] == if st[i].unset then Scored(st[i], a) else st[i]
  {
    if st == [] then []
    else
      var m := |st| - 1;
      Settle(st[..m], a) + [if st[m].unset then Scored(st[m], a) else st[m]]
  }

  /** The standings once everybody still counted dies and gets the award `a`. */
  function Finish(st: seq<Standing>, a: Award): (r: seq<Standing>)
    ensures |r| == |st|
    ensures forall i :: 0 <= i < |st| ==> r[i] == if st[i].Counted() then Scored(Dead(st[i]), a) else st[i]
  {
    if st == [] then []
    else
      var m := |st| - 1;
      Finish(st[..m], a) + [if st[m].Counted() then Scored(Dead(st[m]), a) else st[m]]
  }

  // ----- counting -----

  function Left(st: seq<Standing>): nat
  {
    if st == [] then 0 else Left(st[..|st| - 1]) + if st[|st| - 1].Counted() then 1 else 0
  }

  function Unset(st: seq<Standing>): nat
  {
    if st == [] then 0 else Unset(st[..|st| - 1]) + if st[|st| - 1].unset then 1 else 0
  }

  /** Sum of the points awarded. */
  function Total(st: seq<Standing>): real
  {
    if st == [] then 0.0
    else Total(st[..|st| - 1]) + if st[|st| - 1].awards == [] then 0.0 else st[|st| - 1].awards[0].points
  }

  /** Robots that outlive update `round`: not settled yet, or settled later. */
  function Outliving(st: seq<Standing>, round: nat): nat
  {
    if st == [] then 0
    else
      var s := st[|st| - 1];
      Outliving(st[..|st| - 1], round) + if s.awards == [] || s.awards[0].round > round then 1 else 0
  }

  predicate AllOk(st: seq<Standing>, round: nat) { forall i :: 0 <= i < |st| ==> st[i].Ok(round) }

  /** Everybody settled has the place behind those that outlive it. */
  predicate PlacesRight(st: seq<Standing>)
  {
    forall i :: 0 <= i < |st| && st[i].awards != [] ==>
      st[i].awards[0].place == 1 + Outliving(st, st[i].awards[0].round)
  }

  /** What the `m` places from the bottom are worth: 1 + 2 + ... + m. */
  function Pot(m: nat): real { if m == 0 then 0.0 else Pot(m - 1) + m as real }

  lemma {:induction false} PotIsHalfProduct(m: nat)
    ensures Pot(m) == m as real * (m + 1) as real * 0.5
  {
    if m > 0 {
      PotIsHalfProduct(m - 1);
      var x := (m - 1) as real;
      assert m as real == x + 1.0 && (m + 1) as real == x + 2.0;
      assert x * (x + 1.0) * 0.5 + (x + 1.0) == (x + 1.0) * (x + 2.0) * 0.5;
    }
  }

  /** `k` awards of `p` points. */
  function Times(k: nat, p: real): real { if k == 0 then 0.0 else Times(k - 1, p) + p }

  lemma {:induction false} TimesIsProduct(k: nat, p: real)
    ensures Times(k, p) == k as real * p
  {
    if k > 0 {
      TimesIsProduct(k - 1, p);
      Distribute((k - 1) as real, p);
    }
  }

  lemma Distribute(x: real, p: real)
    ensures (x + 1.0) * p == x * p + p
  {
  }

  lemma {:induction false} SettleCounts(st: seq<Standing>, a: Award)
    requires AllOk(st, a.round)
    ensures Unset(st) <= Left(st) && Left(Settle(st, a)) == Left(st) - Unset(st)
  {
    if st != [] {
      var m := |st| - 1;
      assert Settle(st, a)[..m] == Settle(st[..m], a);
      assert st[m].Ok(a.round);
      SettleCounts(st[..m], a);
    }
  }

  lemma {:induction false} SettleTotal(st: seq<Standing>, a: Award)
    requires AllOk(st, a.round)
    ensures Total(Settle(st, a)) == Total(st) + Times(Unset(st), a.points)
  {
    if st != [] {
      var m := |st| - 1;
      assert Settle(st, a)[..m] == Settle(st[..m], a);
      assert st[m].Ok(a.round);
      SettleTotal(st[..m], a);
    }
  }

  lemma SettleOk(st: seq<Standing>, a: Award)
    requires AllOk(st, a.round)
    ensures AllOk(Settle(st, a), a.round + 1)
  {
    assert forall i :: 0 <= i < |st| ==> st[i].Ok(a.round);
  }

  lemma {:induction false} SettleOutliving(st: seq<Standing>, a: Award, round: nat)
    requires AllOk(st, a.round) && round <= a.round
    ensures Outliving(Settle(st, a), round) == if round < a.round then Outliving(st, round) else Left(st) - Unset(st)
  {
    if st != [] {
      var m := |st| - 1;
      assert Settle(st, a)[..m] == Settle(st[..m], a);
      assert st[m].Ok(a.round);
      SettleOutliving(st[..m], a, round);
    }
  }

  lemma {:induction false} FinishTotal(st: seq<Standing>, a: Award)
    requires AllOk(st, a.round)
    ensures Left(Finish(st, a)) == 0 && Total(Finish(st, a)) == Total(st) + Times(Left(st), a.points)
  {
    if st != [] {
      var m := |st| - 1;
      assert Finish(st, a)[..m] == Finish(st[..m], a);
      assert st[m].Ok(a.round);
      FinishTotal(st[..m], a);
    }
  }

  lemma FinishOk(st: seq<Standing>, a: Award)
    requires AllOk(st, a.round)
    ensures AllOk(Finish(st, a), a.round + 1)
  {
    assert forall i :: 0 <= i < |st| ==> st[i].Ok(a.round);
  }

  lemma {:induction false} FinishOutliving(st: seq<Standing>, a: Award, round: nat)
    requires AllOk(st, a.round) && round <= a.round
    ensures Outliving(Finish(st, a), round) == if round < a.round then Outliving(st, round) else 0
  {
    if st != [] {
      var m := |st| - 1;
      assert Finish(st, a)[..m] == Finish(st[..m], a);
      assert st[m].Ok(a.round);
      FinishOutliving(st[..m], a, round);
    }
  }

  // ----- what every moment of a game keeps -----

  /** `left` robots of `|st|` are counted, and the points paid out are the bottom places' worth. */
  predicate Balanced(st: seq<Standing>, left: nat, round: nat)
  {
    AllOk(st, round) && left == Left(st) && left <= |st| && Total(st) == Pot(|st| - left) && PlacesRight(st)
  }

  /** An update that counts out `Unset(st)` robots with `rest` remaining keeps the balance. */
  lemma SettleKeepsBalance(st: seq<Standing>, left: nat, round: nat) returns (rest: nat)
    requires Balanced(st, left, round)
    ensures rest == left - Unset(st)
    ensures Balanced(Settle(st, Award(Points(|st|, rest, Unset(st), false), rest + 1, round)), rest, round + 1)
  {
    hide Settle, Unset, Left, Total, Pot, Times, PlacesRight, AllOk, Points;
    SettleCounts(st, Award(0.0, 0, round));
    rest := left - Unset(st);
    var a := Award(Points(|st|, rest, Unset(st), false), rest + 1, round);
    SettleCounts(st, a);
    SettleTotal(st, a);
    SettleOk(st, a);
    SettlePlaces(st, a);
    PotGrows(Settle(st, a), |st|, left, rest, Unset(st), a);
  }

  lemma PotGrows(r: seq<Standing>, n: nat, left: nat, rest: nat, m: nat, a: Award)
    requires |r| == n && rest + m == left <= n && a.points == Points(n, rest, m, false)
    requires AllOk(r, a.round + 1) && Left(r) == rest && PlacesRight(r)
        && Total(r) == Pot(n - left) + Times(m, a.points)
    ensures Balanced(r, rest, a.round + 1)
  {
    BatchWorth(n - left, m, a.points);
  }

  lemma SettlePlaces(st: seq<Standing>, a: Award)
    requires AllOk(st, a.round) && PlacesRight(st) && a.place == 1 + Left(st) - Unset(st)
    ensures PlacesRight(Settle(st, a))
  {
    var r := Settle(st, a);
    forall i | 0 <= i < |r| && r[i].awards != []
      ensures r[i].awards[0].place == 1 + Outliving(r, r[i].awards[0].round)
    {
      assert st[i].Ok(a.round);
      SettleOutliving(st, a, r[i].awards[0].round);
    }
  }

  /** A group of `m` gets the worth of the `m` places above the `b` lowest. */
  lemma BatchWorth(b: nat, m: nat, p: real)
    requires p == (b + m) as real - (m - 1) as real * 0.5
    ensures Pot(b + m) == Pot(b) + Times(m, p)
  {
    PotIsHalfProduct(b);
    PotIsHalfProduct(b + m);
    TimesIsProduct(m, p);
    BatchAlgebra(b as real, m as real, p);
  }

  lemma BatchAlgebra(x: real, y: real, p: real)
    requires p == x + y - (y - 1.0) * 0.5
    ensures (x + y) * (x + y + 1.0) * 0.5 == x * (x + 1.0) * 0.5 + y * p
  {
    assert (x + y) * (x + y + 1.0) == x * (x + 1.0) + y * (2.0 * x + y + 1.0);
    assert 2.0 * p == 2.0 * x + y + 1.0;
  }

  /** The points of a whole game of `n` robots that ends with `d` of them counted. */
  function FinalPot(n: nat, d: nat): real { (n - d + 1) as real * (n + d) as real * 0.5 }

  /** Ending the game with `left` robots counted: everybody left shares the first place, and the points of
      the whole game sum to (N - d + 1)(N + d) / 2. */
  lemma FinishBalance(st: seq<Standing>, left: nat, round: nat)
    requires Balanced(st, left, round)
    ensures var r := Finish(st, Award(Points(|st|, 0, left, true), 1, round));
            AllOk(r, round + 1) && Left(r) == 0 && PlacesRight(r)
            && Total(r) == FinalPot(|st|, left)
  {
    var a := Award(Points(|st|, 0, left, true), 1, round);
    FinishTotal(st, a);
    FinishOk(st, a);
    FinishPlaces(st, a);
    TimeoutWorth(|st|, left, a.points);
  }

  lemma FinishPlaces(st: seq<Standing>, a: Award)
    requires AllOk(st, a.round) && PlacesRight(st) && a.place == 1
    ensures PlacesRight(Finish(st, a))
  {
    var r := Finish(st, a);
    forall i | 0 <= i < |r| && r[i].awards != []
      ensures r[i].awards[0].place == 1 + Outliving(r, r[i].awards[0].round)
    {
      assert st[i].Ok(a.round);
      FinishOutliving(st, a, r[i].awards[0].round);
    }
  }

  lemma TimeoutWorth(n: nat, d: nat, p: real)
    requires d <= n && p == n as real - (2 * (d - 1)) as real * 0.5
    ensures Pot(n - d) + Times(d, p) == FinalPot(n, d)
  {
    PotIsHalfProduct(n - d);
    TimesIsProduct(d, p);
    TimeoutAlgebra(n as real, d as real, p);
  }

  lemma TimeoutAlgebra(x: real, y: real, p: real)
    requires p == x - (y - 1.0)
    ensures (x - y) * (x - y + 1.0) * 0.5 + y * p == (x - y + 1.0) * (x + y) * 0.5
  {
    assert p == x - y + 1.0;
    assert (x - y) * p + 2.0 * y * p == p * (x + y);
  }

  // ----- the objects -----

  class Robot {
    var alive: bool
    var deadButStatsNotSet: bool
    var statistics: seq<Award>

    constructor ()
      ensures !alive && !deadButStatsNotSet && statistics == []
    {
      alive, deadButStatsNotSet, statistics := false, false, [];
    }

    function View(): Standing
      reads this
    {
      Standing(alive, deadButStatsNotSet, statistics)
    }

    method Live()
      modifies this
      ensures View() == Standing(true, false, old(statistics))
    {
      alive := true;
      deadButStatsNotSet := false;
    }

    method Die()
      modifies this
      ensures View() == Dead(old(View()))
    {
      if alive {
        alive := false;
        deadButStatsNotSet := true;
      }
    }

    /** Books the points and the place; `left` robots are left in a game of `robots`. */
    method SetStats(robots: nat, left: nat, same: nat, timeout: bool, round: nat)
      modifies this
      ensures View() == Scored(old(View()), Award(Points(robots, left, same, timeout), left + 1, round))
    {
      deadButStatsNotSet := false;
      var adjust := same - 1;
      if timeout { adjust := adjust * 2; }
      var place := left + 1;
      var points := (robots - left) as real - adjust as real * 0.5;
      statistics := statistics + [Award(points, place, round)];
    }
  }

  /** The robots of one game, the ones still in the arena's list, and the number left. */
  class Game {
    const robots: seq<Robot>
    var listed: seq<nat>  // the arena's robot list, by position in `robots`
    var robotsLeft: nat
    var robotsKilledThisRound: nat
    var round: nat  // updates so far

    ghost function Views(): (st: seq<Standing>)
      reads robots
      ensures |st| == |robots| && forall i :: 0 <= i < |robots| ==> st[i] == robots[i].View()
    {
      seq(|robots|, i requires 0 <= i < |robots| reads robots => robots[i].View())
    }

    ghost predicate Separate()
    {
      forall i, j :: 0 <= i < j < |robots| ==> robots[i] != robots[j]
    }

    /** At every moment between updates: the list holds the counted robots, each once, and the books are
        balanced. */
    ghost predicate Valid()
      reads this, robots
    {
      && Separate()
      && Balanced(Views(), robotsLeft, round)
      && Lists(listed, Views()) && |listed| == robotsLeft
    }

    /** All robots come alive. */
    constructor (robots: seq<Robot>)
      requires forall i, j :: 0 <= i < j < |robots| ==> robots[i] != robots[j]
      modifies robots
      ensures Valid() && this.robots == robots && robotsLeft == |robots|
      ensures forall i :: 0 <= i < |robots| ==> robots[i].View() == Standing(true, false, [])
    {
      this.robots := robots;
      listed, robotsLeft, robotsKilledThisRound, round := [], 0, 0, 0;
      new;
      for i := 0 to |robots|
        invariant this.robots == robots && robotsLeft == i && round == 0
        invariant listed == seq(i, j => j)
        invariant forall j :: 0 <= j < i ==> robots[j].View() == Standing(true, false, [])
      {
        robots[i].statistics := [];
        robots[i].Live();
        listed := listed + [i];
        robotsLeft := robotsLeft + 1;
      }
      assert forall x: nat :: x < |robots| ==> listed[x] == x && Views()[x].Counted();
      assert forall x: nat :: x in listed ==> x < |robots|;
      FreshBalance(Views());
    }

    /** A robot's energy runs out, or its process is killed. */
    method Kill(i: nat)
      requires Valid() && i < |robots|
      modifies robots[i]
      ensures Valid() && Views() == old(Views())[i := Dead(old(robots[i].View()))]
    {
      ghost var st := Views();
      robots[i].Die();
      assert Views() == st[i := Dead(st[i])];
      DeathKeepsBalance(st, i, robotsLeft, round);
    }

    /** Takes the dead off the list and settles them as one group. */
    method UpdateRobots(ghost st: seq<Standing>) returns (ghost a: Award)
      requires Valid() && st == Views()
      modifies this, robots
      ensures Valid() && round == old(round) + 1
      ensures robotsKilledThisRound == Unset(st) && robotsLeft == old(robotsLeft) - robotsKilledThisRound
      ensures a == Award(Points(|robots|, robotsLeft, robotsKilledThisRound, false), robotsLeft + 1, old(round))
      ensures Views() == Settle(st, a)
    {
      ghost var next;
      a, next := SettleRound(st);
      NextRound();
      Rebalanced(next);
    }

    method SettleRound(ghost st: seq<Standing>) returns (ghost a: Award, ghost next: seq<Standing>)
      requires Valid() && st == Views()
      modifies this`listed, this`robotsLeft, this`robotsKilledThisRound, robots
      ensures robotsKilledThisRound == Unset(st) && robotsLeft == old(robotsLeft) - robotsKilledThisRound
      ensures a == Award(Points(|robots|, robotsLeft, robotsKilledThisRound, false), robotsLeft + 1, old(round))
      ensures Views() == next == Settle(st, a) && round == old(round)
      ensures Lists(listed, next) && |listed| == robotsLeft && Balanced(next, robotsLeft, round + 1)
    {
      hide Lists, AllOk, PlacesRight, Settle, Unset, Left, Total, Pot, Balanced, Points;
      a, next := CountOut(st);
      SettleGroup(st, a);
    }

    method NextRound()
      modifies this`round
      ensures round == old(round) + 1 && Views() == old(Views())
      ensures robotsLeft == old(robotsLeft) && listed == old(listed)
          && robotsKilledThisRound == old(robotsKilledThisRound)
    {
      round := round + 1;
    }

    lemma Rebalanced(st: seq<Standing>)
      requires Separate() && Views() == st && Balanced(st, robotsLeft, round) && Lists(listed, st)
          && |listed| == robotsLeft
      ensures Valid()
    {
    }

    method SettleGroup(ghost st: seq<Standing>, ghost a: Award)
      requires Separate() && Views() == st && (robotsKilledThisRound == 0 ==> Unset(st) == 0)
      requires a == Award(Points(|robots|, robotsLeft, robotsKilledThisRound, false), robotsLeft + 1, round)
      modifies robots
      ensures Views() == Settle(st, a) && round == old(round)
      ensures robotsLeft == old(robotsLeft) && listed == old(listed)
          && robotsKilledThisRound == old(robotsKilledThisRound)
    {
      if robotsKilledThisRound > 0 {
        SettleDead(robotsKilledThisRound, st, a);
      } else {
        NobodyUnset(st, a);
      }
    }

    method CountOut(ghost st: seq<Standing>) returns (ghost a: Award, ghost next: seq<Standing>)
      requires Valid() && st == Views()
      modifies this`listed, this`robotsLeft, this`robotsKilledThisRound
      ensures Views() == st && next == Settle(st, a)
      ensures a == Award(Points(|robots|, robotsLeft, robotsKilledThisRound, false), robotsLeft + 1, round)
      ensures robotsKilledThisRound == Unset(st) && robotsLeft == old(robotsLeft) - robotsKilledThisRound
      ensures Lists(listed, next) && |listed| == robotsLeft && Balanced(next, robotsLeft, round + 1)
    {
      hide Settle, Unset, Left, Total, Pot, Times, PlacesRight, AllOk, Points, Lists, Distinct, Balanced;
      var kept := TakeOffDead();
      robotsKilledThisRound := |listed| - |kept|;
      ghost var left := robotsLeft;
      listed := kept;
      robotsLeft := robotsLeft - robotsKilledThisRound;
      a := Award(Points(|robots|, robotsLeft, robotsKilledThisRound, false), robotsLeft + 1, round);
      next := Settle(st, a);
      CountedOut(st, left, round, kept, a);
    }

    method SettleDead(killed: nat, ghost st: seq<Standing>, ghost a: Award)
      requires Separate() && Views() == st
          && a == Award(Points(|robots|, robotsLeft, killed, false), robotsLeft + 1, round)
      modifies robots
      ensures Views() == Settle(st, a)
    {
      for i := 0 to |robots|
        invariant forall j :: 0 <= j < i ==> robots[j].View() == Settle(st, a)[j]
        invariant forall j :: i <= j < |robots| ==> robots[j].View() == st[j]
      {
        if robots[i].deadButStatsNotSet {
          robots[i].SetStats(|robots|, robotsLeft, killed, false, round);
        }
      }
      assert Views() == Settle(st, a);
    }

    /** The positions still alive, in list order. */
    method TakeOffDead() returns (kept: seq<nat>)
      requires Lists(listed, Views())
      ensures Distinct(kept) && |kept| <= |listed|
      ensures forall x: nat :: x in kept <==> x < |robots| && robots[x].alive && robots[x].View().Counted()
    {
      kept := [];
      for i := 0 to |listed|
        invariant Distinct(kept) && |kept| <= i
        invariant forall x: nat :: x in kept <==> x in listed[..i] && x < |robots| && robots[x].alive
      {
        assert listed[i] in listed;
        if robots[listed[i]].alive { kept := kept + [listed[i]]; }
      }
      assert listed[..|listed|] == listed;
    }

    /** Ends the game: everybody still counted dies and shares the first place. */
    method EndGame()
      requires Valid()
      modifies this, robots
      ensures robotsLeft == 0 && AllOk(Views(), old(round) + 1) && PlacesRight(Views())
      ensures forall i :: 0 <= i < |robots| ==> !robots[i].alive && |robots[i].statistics| == 1
      ensures Total(Views()) == FinalPot(|robots|, old(robotsLeft))
    {
      hide PlacesRight, Total, Pot, Left, FinalPot, Points, Finish, Lists;
      ghost var st := Views();
      var died := robotsLeft;
      ghost var a := Award(Points(|robots|, 0, died, true), 1, round);
      FinishBalance(st, robotsLeft, round);
      robotsLeft := 0;
      FinishAll(died, st, a);
      listed := [];
      NobodyLeft(Views(), round + 1);
    }

    method FinishAll(died: nat, ghost st: seq<Standing>, ghost a: Award)
      requires Separate() && Views() == st && a == Award(Points(|robots|, 0, died, true), 1, round)
      modifies robots
      ensures Views() == Finish(st, a)
    {
      for i := 0 to |robots|
        invariant forall j :: 0 <= j < i ==> robots[j].View() == Finish(st, a)[j]
        invariant forall j :: i <= j < |robots| ==> robots[j].View() == st[j]
      {
        if robots[i].alive || robots[i].deadButStatsNotSet {
          robots[i].Die();
          robots[i].SetStats(|robots|, 0, died, true, round);
        }
      }
      assert Views() == Finish(st, a);
    }
  }

  /** Anything that can happen during a game: a robot dies, or the arena updates. */
  datatype GameEvent = Death(robot: nat) | Update

  /** A whole game, with deaths in any pattern: everybody ends with one award and the right place, and the
      points add up. */
  method PlayGame(robots: seq<Robot>, events: seq<GameEvent>) returns (game: Game, counted: nat)
    requires forall i, j :: 0 <= i < j < |robots| ==> robots[i] != robots[j]
    modifies robots
    ensures game.robots == robots && PlacesRight(game.Views())
    ensures forall i :: 0 <= i < |robots| ==> !robots[i].alive && |robots[i].statistics| == 1
    ensures counted <= |robots| && Total(game.Views()) == FinalPot(|robots|, counted)
  {
    game := new Game(robots);
    for i := 0 to |events|
      invariant fresh(game) && game.robots == robots && game.Valid()
    {
      match events[i]
      case Death(robot) => if robot < |robots| { game.Kill(robot); }
      case Update => ghost var a := game.UpdateRobots(game.Views());
    }
    counted := game.robotsLeft;
    game.EndGame();
  }

  /** With at most one survivor the game pays 1 + 2 + ... + N. */
  lemma LastOneStanding(n: nat, d: nat)
    requires d <= 1
    ensures FinalPot(n, d) == Pot(n)
  {
    PotIsHalfProduct(n);
    if d == 1 { assert (n - d + 1) as real == n as real && (n + d) as real == (n + 1) as real; }
  }

  /** The list holds the counted robots, each once. */
  ghost predicate Lists(l: seq<nat>, st: seq<Standing>)
  {
    Distinct(l) && forall x: nat :: x in l <==> x < |st| && st[x].Counted()
  }

  lemma FirstIsMember(l: seq<nat>)
    requires l != []
    ensures l[0] in l
  {
  }

  lemma NoMembers(l: seq<nat>)
    requires forall x: nat :: x !in l
    ensures l == []
  {
    if l != [] {
      FirstIsMember(l);
      assert false;
    }
  }

  lemma {:induction false} ListIsCount(l: seq<nat>, st: seq<Standing>)
    requires Lists(l, st)
    ensures |l| == Left(st)
  {
    if st == [] {
      NoMembers(l);
    } else {
      var m := |st| - 1;
      if st[m].Counted() {
        assert m in l;
        var j :| 0 <= j < |l| && l[j] == m;
        var l' := l[..j] + l[j + 1..];
        assert forall x: nat :: x in l <==> x in l' || x == m;
        ListIsCount(l', st[..m]);
      } else {
        ListIsCount(l, st[..m]);
      }
    }
  }

  /** Once the dead are off the list, as many went as are without statistics, and settling them keeps the
      balance. */
  lemma CountedOut(st: seq<Standing>, left: nat, round: nat, kept: seq<nat>, a: Award)
    requires Balanced(st, left, round) && Distinct(kept) && |kept| <= left
    requires forall x: nat :: x in kept <==> x < |st| && st[x].alive && st[x].Counted()
    requires a == Award(Points(|st|, |kept|, left - |kept|, false), |kept| + 1, round)
    ensures left - |kept| == Unset(st)
    ensures Lists(kept, Settle(st, a)) && Balanced(Settle(st, a), |kept|, round + 1)
  {
    hide Settle, Unset, Left, Total, Pot, Times, PlacesRight, AllOk, Points, Lists, Distinct;
    SurvivorsListed(st, kept, a);
    SettleCounts(st, a);
    var rest := SettleKeepsBalance(st, left, round);
  }

  lemma SurvivorsListed(st: seq<Standing>, kept: seq<nat>, a: Award)
    requires AllOk(st, a.round) && Distinct(kept)
    requires forall x: nat :: x in kept <==> x < |st| && st[x].alive && st[x].Counted()
    ensures Lists(kept, Settle(st, a)) && |kept| == Left(Settle(st, a))
  {
    assert forall x :: 0 <= x < |st| ==> st[x].Ok(a.round);
    assert forall x :: 0 <= x < |st| ==> (Settle(st, a)[x].Counted() <==> st[x].alive);
    ListIsCount(kept, Settle(st, a));
  }

  lemma {:induction false} NobodyUnset(st: seq<Standing>, a: Award)
    requires Unset(st) == 0
    ensures Settle(st, a) == st
  {
    if st != [] { NobodyUnset(st[..|st| - 1], a); }
  }

  lemma {:induction false} NobodyLeft(st: seq<Standing>, round: nat)
    requires Left(st) == 0 && AllOk(st, round)
    ensures forall i :: 0 <= i < |st| ==> !st[i].alive && |st[i].awards| == 1
  {
    if st != [] {
      assert st[|st| - 1].Ok(round);
      NobodyLeft(st[..|st| - 1], round);
    }
  }

  lemma {:induction false} FreshBalance(st: seq<Standing>)
    requires forall i :: 0 <= i < |st| ==> st[i] == Standing(true, false, [])
    ensures Balanced(st, |st|, 0)
  {
    if st != [] { FreshBalance(st[..|st| - 1]); }
  }

  lemma {:induction false} DeathCounts(st: seq<Standing>, i: nat, round: nat)
    requires i < |st|
    ensures var r := st[i := Dead(st[i])];
            Left(r) == Left(st) && Total(r) == Total(st) && Outliving(r, round) == Outliving(st, round)
  {
    var m := |st| - 1;
    var r := st[i := Dead(st[i])];
    if i < m {
      assert r[..m] == st[..m][i := Dead(st[i])];
      DeathCounts(st[..m], i, round);
    } else {
      assert r[..m] == st[..m];
    }
  }

  lemma DeathKeepsBalance(st: seq<Standing>, i: nat, left: nat, round: nat)
    requires Balanced(st, left, round) && i < |st|
    ensures Balanced(st[i := Dead(st[i])], left, round)
  {
    var r := st[i := Dead(st[i])];
    DeathCounts(st, i, 0);
    forall j | 0 <= j < |r| && r[j].awards != []
      ensures r[j].awards[0].place == 1 + Outliving(r, r[j].awards[0].round)
    {
      DeathCounts(st, i, r[j].awards[0].round);
    }
    assert forall j :: 0 <= j < |st| ==> st[j].Ok(round);
  }
}
