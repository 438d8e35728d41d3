/** The run loop of a tournament: sequences of games, driven by timer ticks and by the user. */
module Tournament {
  import opened Basics

  datatype State =
    | NotStarted | StartingRobots | GameInProgress | PausingBetweenGames | Paused
    | BeforeGameStart | ShuttingDownRobots | Finished

  /** The `i`-th game of a tournament with `games` games in a sequence: sequence and game number. */
  function GameAt(i: nat, games: nat): (nat, nat)
    requires games > 0
  {
    (i / games + 1, i % games + 1)
  }

  predicate OnPlan(log: seq<(nat, nat)>, games: nat)
    requires games > 0
  {
    forall i :: 0 <= i < |log| ==> log[i] == GameAt(i, games)
  }

  /** The position of game `g` of sequence `s`. */
  function Position(s: nat, g: nat, games: nat): int { (s - 1) * games + g - 1 }

  lemma GameAtPosition(s: nat, g: nat, games: nat)
    requires 1 <= s && 1 <= g <= games
    ensures Position(s, g, games) >= 0 && GameAt(Position(s, g, games), games) == (s, g)
  {
    var i := (s - 1) * games + (g - 1);
    assert (s - 1) * games >= 0;
    DivMod(s - 1, games, g - 1);
    assert i == Position(s, g, games);
  }

  lemma DivMod(q: nat, d: nat, r: nat)
    requires r < d
    ensures (q * d + r) / d == q && (q * d + r) % d == r
  {
    var n := q * d + r;
    var x: int := n / d - q;
    assert n == (n / d) * d + n % d;
    assert x * d == r - n % d;
    NoMultiple(x, d);
  }

  lemma WithinPlan(s: nat, g: nat, sequences: nat, games: nat)
    requires 1 <= s <= sequences && g <= games
    ensures (s - 1) * games + g <= sequences * games
    ensures (s - 1) * games + g == sequences * games <== s == sequences && g == games
  {
    assert sequences * games == (s - 1) * games + (sequences - s) * games + games;
  }

  lemma GameWithinPlan(i: nat, sequences: nat, games: nat)
    requires games > 0 && i < sequences * games
    ensures i / games < sequences && i == Position(i / games + 1, i % games + 1, games)
  {
    assert i == (i / games) * games + i % games;
    NoMultiple(sequences - i / games - 1, games);
    assert (sequences - i / games) * games == sequences * games - (i / games) * games;
    NoMultiple(sequences - i / games, games);
  }

  /** A complete log on plan holds every game of every sequence exactly once, and nothing else. */
  lemma PlanIsExact(log: seq<(nat, nat)>, sequences: nat, games: nat)
    requires games > 0 && OnPlan(log, games) && |log| == sequences * games
    ensures forall s, g :: 1 <= s <= sequences && 1 <= g <= games ==>
              0 <= Position(s, g, games) < |log| && log[Position(s, g, games)] == (s, g)
    ensures forall i :: 0 <= i < |log| ==>
              1 <= log[i].0 <= sequences && 1 <= log[i].1 <= games && i == Position(log[i].0, log[i].1, games)
  {
    forall s, g | 1 <= s <= sequences && 1 <= g <= games
      ensures 0 <= Position(s, g, games) < |log| && log[Position(s, g, games)] == (s, g)
    {
      GameAtPosition(s, g, games);
      WithinPlan(s, g, sequences, games);
    }
    forall i | 0 <= i < |log|
      ensures 1 <= log[i].0 <= sequences && 1 <= log[i].1 <= games && i == Position(log[i].0, log[i].1, games)
    {
      GameWithinPlan(i, sequences, games);
    }
  }

  class Arena {
    const sequencesInTournament: nat
    const gamesPerSequence: nat
    const robotsPerGame: nat
    const competitionMode: bool
    var state: State
    var sequenceNr: nat
    var gameNr: nat
    var robotsLeft: nat
    var haltNext: bool
    var pauseAfterNextGame: bool
    var log: seq<(nat, nat)>     // the games begun, as the log file records them
    ghost var interrupted: bool  // the user gave the tournament up

    /** Games begun before the current sequence, plus those begun in it. */
    function Begun(): int
      reads this
    {
      (sequenceNr - 1) * gamesPerSequence + gameNr
    }

    ghost predicate Valid()
      reads this
    {
      && sequencesInTournament > 0 && gamesPerSequence > 0
      && OnPlan(log, gamesPerSequence) && (interrupted ==> |log| <= sequencesInTournament * gamesPerSequence)
      && (state != NotStarted && !interrupted ==> 1 <= sequenceNr <= sequencesInTournament && |log| == Begun())
      && match state
         case NotStarted => log == [] && !interrupted
         case StartingRobots => gameNr == 0 && !interrupted
         case GameInProgress => 1 <= gameNr <= gamesPerSequence && !interrupted
         case Paused => 1 <= gameNr <= gamesPerSequence && !interrupted
         case PausingBetweenGames => gameNr < gamesPerSequence && !interrupted
         case ShuttingDownRobots => gameNr == gamesPerSequence && !interrupted
         case Finished => interrupted || (sequenceNr == sequencesInTournament && gameNr == gamesPerSequence)
         case BeforeGameStart => false
    }

    lemma LogWithinPlan()
      requires Valid()
      ensures |log| <= sequencesInTournament * gamesPerSequence
      ensures state == Finished && !interrupted ==> |log| == sequencesInTournament * gamesPerSequence
    {
      if state != NotStarted && !interrupted {
        WithinPlan(sequenceNr, gameNr, sequencesInTournament, gamesPerSequence);
      }
    }

    /** How far the tournament is from its end: sequences to come, then games and phases to come. */
    ghost function Remaining(): nat
      requires Valid()
      reads this
    {
      var left := sequencesInTournament - sequenceNr;
      var games := gamesPerSequence - gameNr;
      var width := 2 * gamesPerSequence + 3;
      match state
      case NotStarted => sequencesInTournament * width + 1
      case StartingRobots => left * width + 2 * games + 2
      case GameInProgress => left * width + 2 * games + 2
      case Paused => left * width + 2 * games + 2
      case PausingBetweenGames => left * width + 2 * games + 1
      case ShuttingDownRobots => left * width + 1
      case _ => 0
    }

    constructor (sequences: nat, games: nat, robots: nat, competition: bool)
      requires sequences > 0 && games > 0
      ensures Valid() && state == NotStarted && log == []
      ensures sequencesInTournament == sequences && gamesPerSequence == games
      ensures robotsPerGame == robots && competitionMode == competition && !haltNext && !pauseAfterNextGame
    {
      sequencesInTournament, gamesPerSequence, robotsPerGame := sequences, games, robots;
      competitionMode := competition;
      state, sequenceNr, gameNr, robotsLeft := NotStarted, 0, 0, 0;
      haltNext, pauseAfterNextGame, log, interrupted := false, false, [], false;
    }

    /** Begins the next game of the sequence, unless the user asked to pause first. */
    method StartGame()
      requires sequencesInTournament > 0 && gamesPerSequence > 0 && !interrupted
      requires OnPlan(log, gamesPerSequence) && |log| == Begun()
      requires 1 <= sequenceNr <= sequencesInTournament && gameNr < gamesPerSequence
      modifies this
      ensures Valid() && sequenceNr == old(sequenceNr) && interrupted == old(interrupted)
      ensures if old(pauseAfterNextGame) then
                state == PausingBetweenGames && log == old(log) && gameNr == old(gameNr)
                && robotsLeft == old(robotsLeft)
              else
                state == GameInProgress && log == old(log) + [(sequenceNr, gameNr)] && gameNr == old(gameNr) + 1
                && robotsLeft == robotsPerGame
      ensures pauseAfterNextGame == old(pauseAfterNextGame) && haltNext == old(haltNext)
    {
      if pauseAfterNextGame {
        state := PausingBetweenGames;
        return;
      }
      GameAtPosition(sequenceNr, gameNr + 1, gamesPerSequence);
      log := log + [(sequenceNr, gameNr + 1)];
      state := BeforeGameStart;
      robotsLeft := robotsPerGame;
      state := GameInProgress;
      gameNr := gameNr + 1;
    }

    /** Ends the game; the sequence ends with its last game. */
    method EndGame()
      requires Valid() && state !in {NotStarted, Finished}
      modifies this
      ensures Valid() && sequenceNr == old(sequenceNr) && interrupted == old(interrupted)
      ensures old(gameNr) == gamesPerSequence ==> state == ShuttingDownRobots && log == old(log)
      ensures old(gameNr) < gamesPerSequence ==>
                if old(pauseAfterNextGame) then
                  state == PausingBetweenGames && log == old(log) && gameNr == old(gameNr) && robotsLeft == 0
                else
                  state == GameInProgress && log == old(log) + [(sequenceNr, gameNr)] && gameNr == old(gameNr) + 1
                  && robotsLeft == robotsPerGame
      ensures pauseAfterNextGame == old(pauseAfterNextGame) && haltNext == old(haltNext)
      ensures Remaining() <= old(Remaining())
      ensures old(state) in {GameInProgress, Paused} ==> Remaining() < old(Remaining())
    {
      robotsLeft := 0;
      if gameNr == gamesPerSequence {
        EndSequence();
      } else {
        StartGame();
      }
    }

    method EndSequence()
      requires Valid() && gameNr == gamesPerSequence && state !in {NotStarted, Finished}
      modifies this`state
      ensures Valid() && state == ShuttingDownRobots
    {
      state := ShuttingDownRobots;
    }

    method StartSequence()
      requires sequencesInTournament > 0 && gamesPerSequence > 0 && !interrupted
      requires OnPlan(log, gamesPerSequence) && sequenceNr < sequencesInTournament
      requires |log| == sequenceNr * gamesPerSequence
      modifies this`state, this`sequenceNr, this`gameNr
      ensures Valid() && state == StartingRobots && sequenceNr == old(sequenceNr) + 1 && log == old(log)
      ensures interrupted == old(interrupted)
    {
      gameNr := 0;
      state := StartingRobots;
      sequenceNr := sequenceNr + 1;
    }

    /** The sequence's robots have stopped: on to the next sequence, or to the end. */
    method EndSequenceFollowUp()
      requires Valid() && state == ShuttingDownRobots
      modifies this`state, this`sequenceNr, this`gameNr
      ensures Valid() && log == old(log) && interrupted == old(interrupted)
      ensures state == if old(sequenceNr) == sequencesInTournament then Finished else StartingRobots
      ensures Remaining() < old(Remaining())
    {
      if sequenceNr == sequencesInTournament {
        state := Finished;
      } else {
        StartSequence();
        ghost var left, width := sequencesInTournament - sequenceNr, 2 * gamesPerSequence + 3;
        assert (left + 1) * width == left * width + width;
      }
    }

    method StartTournament()
      requires Valid() && state == NotStarted
      modifies this`state, this`sequenceNr, this`gameNr
      ensures Valid() && state == StartingRobots && log == [] && !interrupted
      ensures Remaining() < sequencesInTournament * (2 * gamesPerSequence + 3)
    {
      sequenceNr := 0;
      StartSequence();
      ghost var left, width := sequencesInTournament - sequenceNr, 2 * gamesPerSequence + 3;
      assert (left + 1) * width == left * width + width;
    }

    /** A further game has begun, with all its robots. */
    ghost predicate GameBegun(before: seq<(nat, nat)>)
      reads this
    {
      state == GameInProgress && robotsLeft == robotsPerGame && log == before + [(sequenceNr, gameNr)]
    }

    /** The tick has something to do: a wait is over, the game is decided, or a pause has ended. */
    ghost predicate Due(checkTime: bool, timeUp: bool, killed: nat)
      reads this
    {
      match state
      case StartingRobots => checkTime
      case ShuttingDownRobots => checkTime
      case GameInProgress => robotsLeft <= 1 + killed || timeUp
      case PausingBetweenGames => !pauseAfterNextGame
      case _ => false
    }

    /** One timer tick.  `killed` robots die in it; `checkTime` and `timeUp` tell what the clock says.  In a game the
        dead are counted out; the game goes on if more than one robot is left and the time is not up, and is then
        paused exactly if a halt was asked for. */
    method TimeoutFunction(checkTime: bool, timeUp: bool, killed: nat)
      requires Valid() && killed <= robotsLeft
      modifies this
      ensures Valid() && interrupted == old(interrupted) && pauseAfterNextGame == old(pauseAfterNextGame)
      ensures old(state) == GameInProgress && old(robotsLeft) - killed > 1 && !timeUp ==>
                && robotsLeft == old(robotsLeft) - killed && log == old(log)
                && state == (if old(haltNext) then Paused else GameInProgress) && !haltNext
      ensures old(state) == GameInProgress && (old(robotsLeft) - killed <= 1 || timeUp) ==>
                && haltNext == old(haltNext)
                && (if old(gameNr) == gamesPerSequence then state == ShuttingDownRobots && log == old(log)
                    else if old(pauseAfterNextGame) then state == PausingBetweenGames && log == old(log)
                    else GameBegun(old(log)))
      ensures old(state) == StartingRobots && checkTime ==>
                if old(pauseAfterNextGame) then state == PausingBetweenGames && log == old(log)
                else GameBegun(old(log))
      ensures old(state) == PausingBetweenGames && !old(pauseAfterNextGame) ==> GameBegun(old(log))
      ensures old(state) == ShuttingDownRobots && checkTime ==>
                && log == old(log)
                && state == (if old(sequenceNr) == sequencesInTournament then Finished else StartingRobots)
      ensures old(state) != GameInProgress ==> haltNext == old(haltNext)
      ensures old(state) != GameInProgress && !old(Due(checkTime, timeUp, killed)) ==>
                state == old(state) && robotsLeft == old(robotsLeft)
      ensures Remaining() <= old(Remaining())
      ensures old(Due(checkTime, timeUp, killed)) ==> Remaining() < old(Remaining())
      ensures !old(Due(checkTime, timeUp, killed)) ==>
        log == old(log) && gameNr == old(gameNr) && sequenceNr == old(sequenceNr)
    {
      match state
      case StartingRobots =>
        if checkTime { StartGame(); }
      case ShuttingDownRobots =>
        if checkTime { EndSequenceFollowUp(); }
      case GameInProgress =>
        robotsLeft := robotsLeft - killed;
        if robotsLeft <= 1 || timeUp {
          EndGame();
        } else if haltNext {
          state := Paused;
          haltNext := false;
        }
      case PausingBetweenGames =>
        if !pauseAfterNextGame { StartGame(); }
      case _ =>
    }

    method PauseGameToggle()
      requires Valid()
      modifies this
      ensures Valid() && log == old(log) && interrupted == old(interrupted) && Remaining() == old(Remaining())
      ensures robotsLeft == old(robotsLeft)
      ensures if competitionMode then
                state == old(state) && haltNext == old(haltNext) && pauseAfterNextGame != old(pauseAfterNextGame)
              else
                && (old(state) == GameInProgress <==> state == Paused)
                && (old(state) == Paused <==> state == GameInProgress)
                && (old(state) !in {GameInProgress, Paused} ==> state == old(state))
                && !haltNext && pauseAfterNextGame == old(pauseAfterNextGame)
    {
      if !competitionMode {
        if state == GameInProgress {
          state := Paused;
        } else if state == Paused {
          state := GameInProgress;
        }
        haltNext := false;
      } else {
        pauseAfterNextGame := !pauseAfterNextGame;
      }
    }

    method StepPausedGame(debugMode: bool)
      requires Valid()
      modifies this
      ensures Valid() && log == old(log) && interrupted == old(interrupted) && Remaining() == old(Remaining())
      ensures robotsLeft == old(robotsLeft) && pauseAfterNextGame == old(pauseAfterNextGame)
      ensures if debugMode && old(state) == Paused then state == GameInProgress && haltNext
              else state == old(state) && haltNext == old(haltNext)
    {
      if debugMode && state == Paused {
        haltNext := true;
        state := GameInProgress;
      }
    }

    /** The user's end-game button, which works in every state of a running tournament. */
    method EndGameButton()
      requires Valid()
      modifies this
      ensures Valid() && interrupted == old(interrupted) && haltNext == old(haltNext)
      ensures pauseAfterNextGame == old(pauseAfterNextGame) && Remaining() <= old(Remaining())
      ensures if old(state) in {NotStarted, Finished} then
                state == old(state) && log == old(log) && robotsLeft == old(robotsLeft)
              else if old(gameNr) == gamesPerSequence then state == ShuttingDownRobots && log == old(log)
              else if old(pauseAfterNextGame) then state == PausingBetweenGames && log == old(log)
              else GameBegun(old(log))
    {
      if state != NotStarted && state != Finished { EndGame(); }
    }

    method InterruptTournament()
      requires Valid()
      modifies this
      ensures Valid() && log == old(log) && Remaining() <= old(Remaining())
      ensures robotsLeft == old(robotsLeft) && haltNext == old(haltNext)
      ensures if old(state) in {GameInProgress, Paused, PausingBetweenGames} then state == Finished && interrupted
              else state == old(state) && interrupted == old(interrupted)
    {
      if state == GameInProgress || state == Paused || state == PausingBetweenGames {
        WithinPlan(sequenceNr, gameNr, sequencesInTournament, gamesPerSequence);
        state := Finished;
        interrupted := true;
      }
    }
  }

  datatype Event =
    | Tick(checkTime: bool, timeUp: bool, killed: nat)
    | Pause
    | StepOnce(debugMode: bool)
    | EndGame
    | Interrupt

  // ----- whole runs -----

  /** What a run shows of the arena: its state, the robots counted, a halt asked for, and the games begun. */
  datatype Moment = Moment(state: State, left: nat, halt: bool, games: seq<(nat, nat)>)

  function Now(arena: Arena): Moment
    reads arena
  {
    Moment(arena.state, arena.robotsLeft, arena.haltNext, arena.log)
  }

  predicate Playing(m: Moment) { m.state == GameInProgress || m.state == Paused }

  /** The game under way at the first moment is still under way at the next. */
  predicate GoesOn(a: Moment, b: Moment) { Playing(a) && Playing(b) && a.games == b.games }

  /** The robots that die in an event: those of a tick, while the game is not paused. */
  function Deaths(m: Moment, e: Event): nat
  {
    if m.state == GameInProgress && e.Tick? then Min(e.killed, m.left) else 0
  }

  function Min(a: nat, b: nat): nat { if a <= b then a else b }

  /** The robots killed before moment `k` since the latest game began. */
  ghost function Dead(trace: seq<Moment>, events: seq<Event>, k: nat): nat
    requires k < |trace| && k <= |events|
  {
    if k == 0 || trace[k].games != trace[k - 1].games then 0
    else Dead(trace, events, k - 1) + Deaths(trace[k - 1], events[k - 1])
  }

  lemma {:induction false} DeadOfPrefix(trace: seq<Moment>, more: seq<Moment>, events: seq<Event>, k: nat)
    requires k < |trace| && k <= |events|
    ensures Dead(trace + more, events, k) == Dead(trace, events, k)
  {
    if k > 0 {
      DeadOfPrefix(trace, more, events, k - 1);
    }
  }

  /** The robots counted are all those of the game but the dead. */
  ghost predicate Counted(trace: seq<Moment>, events: seq<Event>, robots: nat, k: nat)
    requires k < |trace| && k <= |events|
  {
    Playing(trace[k]) ==> trace[k].left + Dead(trace, events, k) == robots
  }

  /** How a game goes through event `k`: a tick ends it exactly if it leaves at most one robot or the time is up, and
      otherwise pauses it exactly if a halt was asked for; what the user does to pause it and to go on does not end
      it. */
  ghost predicate Decided(trace: seq<Moment>, events: seq<Event>, robots: nat, k: nat)
    requires k + 1 < |trace| && k < |events|
  {
    var a, b, e := trace[k], trace[k + 1], events[k];
    && (a.state == GameInProgress && e.Tick? ==>
          && (GoesOn(a, b) <==> robots - Dead(trace, events, k) - Deaths(a, e) > 1 && !e.timeUp)
          && (GoesOn(a, b) ==> (b.state == Paused <==> a.halt) && !b.halt))
    && (a.state == Paused && e.Tick? ==> b == a)
    && (Playing(a) && (e.Pause? || e.StepOnce?) ==> GoesOn(a, b))
  }

  ghost predicate Faithful(trace: seq<Moment>, events: seq<Event>, robots: nat)
  {
    && 0 < |trace| <= |events| + 1
    && (forall k :: 0 <= k < |trace| ==> Counted(trace, events, robots, k))
    && (forall k :: 0 <= k < |trace| - 1 ==> Decided(trace, events, robots, k))
  }

  lemma FaithfulGrows(trace: seq<Moment>, next: Moment, events: seq<Event>, robots: nat)
    requires Faithful(trace, events, robots) && |trace| <= |events|
    requires Counted(trace + [next], events, robots, |trace|)
    requires Decided(trace + [next], events, robots, |trace| - 1)
    ensures Faithful(trace + [next], events, robots)
  {
    forall k | 0 <= k < |trace| ensures Counted(trace + [next], events, robots, k) {
      DeadOfPrefix(trace, [next], events, k);
      assert Counted(trace, events, robots, k);
    }
    forall k | 0 <= k < |trace| - 1 ensures Decided(trace + [next], events, robots, k) {
      DeadOfPrefix(trace, [next], events, k);
      assert Decided(trace, events, robots, k);
    }
  }

  /** How one event leads from one moment to the next. */
  predicate Reacts(a: Moment, e: Event, b: Moment, robots: nat)
  {
    && (Playing(b) ==> if GoesOn(a, b) then b.left == a.left - Deaths(a, e) else b.games != a.games && b.left == robots)
    && (a.state == GameInProgress && e.Tick? ==>
          && (GoesOn(a, b) <==> a.left - Deaths(a, e) > 1 && !e.timeUp)
          && (GoesOn(a, b) ==> (b.state == Paused <==> a.halt) && !b.halt))
    && (a.state == Paused && e.Tick? ==> b == a)
    && (Playing(a) && (e.Pause? || e.StepOnce?) ==> GoesOn(a, b))
  }

  lemma ReactsFaithful(trace: seq<Moment>, next: Moment, events: seq<Event>, robots: nat)
    requires Faithful(trace, events, robots) && |trace| <= |events|
    requires Reacts(trace[|trace| - 1], events[|trace| - 1], next, robots)
    ensures Faithful(trace + [next], events, robots)
  {
    var k := |trace| - 1;
    assert Counted(trace, events, robots, k);
    DeadOfPrefix(trace, [next], events, k);
    FaithfulGrows(trace, next, events, robots);
  }

  method React(arena: Arena, e: Event) returns (ghost due: nat)
    requires arena.Valid() && arena.state != NotStarted
    modifies arena
    ensures arena.Valid() && arena.state != NotStarted && due <= 1
    ensures Reacts(old(Now(arena)), e, Now(arena), arena.robotsPerGame)
    ensures due + arena.Remaining() <= old(arena.Remaining())
    ensures due == if e.Tick? && old(arena.Due(e.checkTime, e.timeUp, Min(e.killed, arena.robotsLeft))) then 1 else 0
  {
    due := 0;
    match e
    case Tick(checkTime, timeUp, killed) =>
      if arena.Due(checkTime, timeUp, Min(killed, arena.robotsLeft)) { due := 1; }
      arena.TimeoutFunction(checkTime, timeUp, Min(killed, arena.robotsLeft));
    case Pause => arena.PauseGameToggle();
    case StepOnce(debugMode) => arena.StepPausedGame(debugMode);
    case EndGame => arena.EndGameButton();
    case Interrupt => arena.InterruptTournament();
  }

  function Killed(events: seq<Event>): nat
    requires AllTicks(events)
  {
    if events == [] then 0 else Killed(events[..|events| - 1]) + events[|events| - 1].killed
  }

  predicate AllTicks(events: seq<Event>) { forall k :: 0 <= k < |events| ==> events[k].Tick? }

  /** After each of the ticks more than one robot is left, and the time is not up. */
  ghost predicate Undecided(ticks: seq<Event>, robots: nat)
    requires AllTicks(ticks)
  {
    ticks != [] ==>
      && Undecided(ticks[..|ticks| - 1], robots)
      && robots - Killed(ticks) > 1 && !ticks[|ticks| - 1].timeUp
  }

  /** From moment `i` to `j` one game is played without a pause. */
  ghost predicate Through(trace: seq<Moment>, i: nat, j: nat)
    requires j < |trace|
  {
    forall m :: i <= m <= j ==> trace[m].state == GameInProgress && trace[m].games == trace[i].games
  }

  lemma ThroughLast(trace: seq<Moment>, i: nat, j: nat)
    requires i < j < |trace|
    ensures Through(trace, i, j) <==>
              Through(trace, i, j - 1) && trace[j].state == GameInProgress && trace[j].games == trace[i].games
  {
  }

  /** A game that began at `i` goes on through ticks exactly as long as after each of them more than one robot is left
      and the time is not up: it ends in the first tick of which this is not true, and in no earlier one. */
  lemma {:induction false} EndsInFirst(trace: seq<Moment>, events: seq<Event>, robots: nat, i: nat, j: nat)
    requires Faithful(trace, events, robots) && 0 < i <= j < |trace| && AllTicks(events[i..j])
    requires trace[i].state == GameInProgress && trace[i].games != trace[i - 1].games && !trace[i].halt
    ensures Through(trace, i, j) <==> Undecided(events[i..j], robots)
    ensures Through(trace, i, j) ==> Dead(trace, events, j) == Killed(events[i..j]) && !trace[j].halt
  {
    if j > i {
      var k := j - 1;
      var ticks := events[i..j];
      assert ticks[..|ticks| - 1] == events[i..k] && ticks[|ticks| - 1] == events[k];
      assert AllTicks(events[i..k]);
      EndsInFirst(trace, events, robots, i, k);
      ThroughLast(trace, i, j);
      hide Through;
      assert Counted(trace, events, robots, k) && Decided(trace, events, robots, k);
    }
  }

  /** Any run at all: a tournament that comes to its end without being given up has played exactly the
      planned games, in order; one still running, or given up, a prefix of them.  Every due tick brings the
      end nearer, so no run has more of them than the tournament has phases. */
  method RunTournament(arena: Arena, events: seq<Event>) returns (ghost dueTicks: nat, ghost trace: seq<Moment>)
    requires arena.Valid() && arena.state == NotStarted
    modifies arena
    ensures arena.Valid() && OnPlan(arena.log, arena.gamesPerSequence)
    ensures |arena.log| <= arena.sequencesInTournament * arena.gamesPerSequence
    ensures arena.state == Finished && !arena.interrupted ==>
              |arena.log| == arena.sequencesInTournament * arena.gamesPerSequence
    ensures dueTicks + arena.Remaining() <= arena.sequencesInTournament * (2 * arena.gamesPerSequence + 3)
    ensures |trace| == |events| + 1 && trace[|events|] == Now(arena) && Faithful(trace, events, arena.robotsPerGame)
  {
    arena.StartTournament();
    dueTicks, trace := 0, [Now(arena)];
    for i := 0 to |events|
      invariant arena.Valid() && arena.state != NotStarted
      invariant dueTicks + arena.Remaining() <= arena.sequencesInTournament * (2 * arena.gamesPerSequence + 3)
      invariant |trace| == i + 1 && trace[i] == Now(arena) && Faithful(trace, events, arena.robotsPerGame)
    {
      ghost var due := React(arena, events[i]);
      ReactsFaithful(trace, Now(arena), events, arena.robotsPerGame);
      dueTicks := dueTicks + due;
      trace := trace + [Now(arena)];
    }
    arena.LogWithinPlan();
  }
}
