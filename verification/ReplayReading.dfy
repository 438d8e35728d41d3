/** Reading one time index of the log, in either direction.  A frame at time zero is read together with the
    frame after it. */
module ReplayReading {
  import opened Basics
  import opened ReplayLog
  import opened ReplayIndex
  import opened ReplayLists

  /** A tidy log as a game writes it: no negative times, and nothing created in the frame at time zero. */
  ghost predicate Timely(frames: seq<Frame>)
  {
    && Tidy(frames)
    && (forall i :: 0 <= i < |frames| ==> frames[i].time >= 0.0)
    && (|frames| > 0 && frames[0].time == 0.0 ==> Quiet(frames[0].lines))
  }

  predicate Quiet(lines: seq<Line>)
  {
    forall k :: 0 <= k < |lines| ==> lines[k].Other?
  }

  /** Does reading frame `n` go on into the next frame? */
  predicate Merged(frames: seq<Frame>, n: nat)
    requires n < |frames|
  {
    frames[n].time == 0.0 && n + 1 < |frames|
  }

  /** The frame at which reading frame `n` stops. */
  function Reach(frames: seq<Frame>, n: nat): (r: nat)
    requires n < |frames|
    ensures n < r <= |frames|
  {
    if Merged(frames, n) then n + 2 else n + 1
  }

  function PlayFrom(lists: Lists, frames: seq<Frame>, n: nat): Lists
    requires n < |frames|
  {
    var first := PlayLines(lists, frames[n].lines);
    if Merged(frames, n) then PlayLines(first, frames[n + 1].lines) else first
  }

  predicate AllKnown(lives: map<Obj, Life>, frames: seq<Frame>)
  {
    forall i :: 0 <= i < |frames| ==> Known(lives, frames[i].lines)
  }

  function UnplayFrom(lists: Lists, frames: seq<Frame>, n: nat, lives: map<Obj, Life>): Lists
    requires n < |frames| && AllKnown(lives, frames)
  {
    var first := UnplayLines(lists, frames[n].lines, lives);
    if Merged(frames, n) then UnplayLines(first, frames[n + 1].lines, lives) else first
  }

  // ----- forward -----

  lemma FramePlays(lists: Lists, frames: seq<Frame>, n: nat)
    requires Tidy(frames) && n < |frames| && Holds(lists, Played(frames, n))
    ensures Holds(PlayLines(lists, frames[n].lines), Played(frames, n + 1))
  {
    forall o | Born(o) in frames[n].lines
      ensures o !in Played(frames, n)
    {
      assert BornIn(frames, n, o);
      PlayedMeaning(frames, n, o);
    }
    PlayHolds(lists, Played(frames, n), frames[n].lines);
  }

  /** Playing on from the objects of frame `n` keeps the lists right. */
  lemma PlayFromHolds(lists: Lists, frames: seq<Frame>, n: nat)
    requires Tidy(frames) && n < |frames| && Holds(lists, Played(frames, n))
    ensures Holds(PlayFrom(lists, frames, n), Played(frames, Reach(frames, n)))
  {
    FramePlays(lists, frames, n);
    if Merged(frames, n) {
      FramePlays(PlayLines(lists, frames[n].lines), frames, n + 1);
    }
  }

  /** What lists hold is unique. */
  lemma HoldsOnce(lists: Lists, a: set<Obj>, b: set<Obj>)
    requires Holds(lists, a) && Holds(lists, b)
    ensures a == b
  {
  }

  /** After a jump to frame `n`, reading it gives the lists that playing would have given, exactly under the
      condition of `JumpAgrees`. */
  lemma JumpHolds(lists: Lists, frames: seq<Frame>, n: nat, timeout: real)
    requires Timely(frames) && n < |frames|
    requires Holds(lists, AliveAt(Lives(frames, |frames|, timeout), frames[n].time))
    ensures Holds(PlayFrom(lists, frames, n), Played(frames, Reach(frames, n))) <==>
              (frames[n].time < timeout || forall o :: Older(frames, n, o) ==> !NeverDies(frames, o))
  {
    var rebuilt := AliveAt(Lives(frames, |frames|, timeout), frames[n].time);
    forall o | o in rebuilt
      ensures Older(frames, n, o)
    {
      AliveAtMeaning(frames, n, timeout, o);
    }
    if Merged(frames, n) {
      assert n == 0;
      assert rebuilt == Played(frames, 0);
      PlayFromHolds(lists, frames, n);
    } else {
      forall o | Born(o) in frames[n].lines
        ensures o !in rebuilt
      {
        assert BornIn(frames, n, o);
      }
      PlayHolds(lists, rebuilt, frames[n].lines);
      JumpAgrees(frames, n, timeout);
      if Holds(PlayFrom(lists, frames, n), Played(frames, n + 1)) {
        HoldsOnce(PlayFrom(lists, frames, n), Played(frames, n + 1), Forward(rebuilt, frames[n].lines));
      }
    }
  }

  // ----- backward -----

  lemma IndexKnows(frames: seq<Frame>, timeout: real)
    requires Tidy(frames)
    ensures AllKnown(Lives(frames, |frames|, timeout), frames)
  {
    var lives := Lives(frames, |frames|, timeout);
    forall i, k | 0 <= i < |frames| && 0 <= k < |frames[i].lines| && frames[i].lines[k].Dies?
      ensures frames[i].lines[k].obj in lives
    {
      var o := frames[i].lines[k].obj;
      assert DiesIn(frames, i, o);
      LivesMeaning(frames, |frames|, timeout, o);
    }
  }

  /** The index tells the objects older than a frame from those born in it. */
  lemma IndexTellsOlder(frames: seq<Frame>, n: nat, timeout: real, o: Obj)
    requires Tidy(frames) && n < |frames| && DiesIn(frames, n, o)
    ensures o in Outliving(Lives(frames, |frames|, timeout)) <==> Older(frames, n, o)
  {
    LivesMeaning(frames, |frames|, timeout, o);
    var i :| 0 <= i <= n && BornIn(frames, i, o);
    var life := Lives(frames, |frames|, timeout)[o];
    assert life.end == frames[n].time;
    StartMeaning(frames, n, timeout, o, life);
  }

  lemma FrameUnplays(lists: Lists, frames: seq<Frame>, n: nat, timeout: real)
    requires Tidy(frames) && n < |frames| && Holds(lists, Played(frames, n + 1))
    requires Known(Lives(frames, |frames|, timeout), frames[n].lines)
    ensures Holds(UnplayLines(lists, frames[n].lines, Lives(frames, |frames|, timeout)), Played(frames, n))
  {
    var lives := Lives(frames, |frames|, timeout);
    forall o | Dies(o) in frames[n].lines
      ensures o !in Played(frames, n + 1)
    {
      assert DiesIn(frames, n, o);
      PlayedMeaning(frames, n + 1, o);
    }
    UnplayHolds(lists, Played(frames, n + 1), frames[n].lines, lives);
    forall o | DiesIn(frames, n, o)
      ensures o in Outliving(lives) <==> Older(frames, n, o)
    {
      IndexTellsOlder(frames, n, timeout, o);
    }
    BackwardUndoesForward(frames, n, Outliving(lives));
  }

  lemma {:induction false} QuietUnplays(lists: Lists, lines: seq<Line>, lives: map<Obj, Life>)
    requires Quiet(lines)
    ensures Known(lives, lines) && UnplayLines(lists, lines, lives) == lists
  {
    if lines != [] {
      QuietUnplays(lists, lines[..|lines| - 1], lives);
    }
  }

  lemma {:induction false} QuietPlays(live: set<Obj>, lines: seq<Line>)
    requires Quiet(lines)
    ensures Forward(live, lines) == live
  {
    if lines != [] {
      QuietPlays(live, lines[..|lines| - 1]);
    }
  }

  /** Nothing that dies in the frame after time zero is older, so reading that frame backward brings nothing
      back even when it has been read backward before. */
  lemma NothingReturns(lists: Lists, frames: seq<Frame>, timeout: real)
    requires Timely(frames) && |frames| > 1 && frames[0].time == 0.0 && Holds(lists, {})
    requires Known(Lives(frames, |frames|, timeout), frames[1].lines)
    ensures Holds(UnplayLines(lists, frames[1].lines, Lives(frames, |frames|, timeout)), {})
  {
    var lives, lines := Lives(frames, |frames|, timeout), frames[1].lines;
    UnplayHolds(lists, {}, lines, lives);
    forall o
      ensures o !in Backward({}, lines, Outliving(lives))
    {
      BackwardMember({}, lines, Outliving(lives), o);
      if Dies(o) in lines {
        assert DiesIn(frames, 1, o);
        IndexTellsOlder(frames, 1, timeout, o);
        assert !BornIn(frames, 0, o);
      }
    }
    assert Backward({}, lines, Outliving(lives)) == {};
  }

  /** Reading frame `n` backward, once it has been played, restores the objects from before it. */
  lemma UnplayFromHolds(lists: Lists, frames: seq<Frame>, n: nat, timeout: real)
    requires Timely(frames) && n < |frames|
    requires AllKnown(Lives(frames, |frames|, timeout), frames)
    requires Holds(lists, Played(frames, n + 1)) || Holds(lists, Played(frames, Reach(frames, n)))
    ensures Holds(UnplayFrom(lists, frames, n, Lives(frames, |frames|, timeout)), Played(frames, n))
  {
    var lives := Lives(frames, |frames|, timeout);
    if Merged(frames, n) {
      assert n == 0;
      QuietUnplays(lists, frames[0].lines, lives);
      QuietPlays({}, frames[0].lines);
      assert Played(frames, 1) == Forward(Played(frames, 0), frames[0].lines) == {};
      if Holds(lists, Played(frames, 2)) {
        FrameUnplays(lists, frames, 1, timeout);
      } else {
        NothingReturns(lists, frames, timeout);
      }
    } else {
      FrameUnplays(lists, frames, n, timeout);
    }
  }

  // ----- stepping forward right after the start -----

  lemma {:induction false} DistinctOnce(ids: seq<int>, id: int)
    requires Distinct(ids)
    ensures multiset(ids)[id] <= 1
  {
    if ids != [] {
      assert ids == [ids[0]] + ids[1..];
      DistinctOnce(ids[1..], id);
    }
  }

  lemma {:induction false} EraseKeepsOthers(ids: seq<int>, id: int, other: int)
    requires id != other
    ensures multiset(Erase(ids, id))[other] == multiset(ids)[other]
  {
    if ids != [] {
      assert ids == [ids[0]] + ids[1..];
      EraseKeepsOthers(ids[1..], id, other);
    }
  }

  lemma {:induction false} Copies(lists: Lists, lines: seq<Line>, o: Obj)
    requires Dies(o) !in lines
    ensures multiset(PlayLines(lists, lines).Get(o.kind))[o.id] >=
            multiset(lists.Get(o.kind))[o.id] + if Born(o) in lines then 1 else 0
  {
    if lines != [] {
      var rest, line := lines[..|lines| - 1], lines[|lines| - 1];
      assert lines == rest + [line];
      Copies(lists, rest, o);
      if line.Dies? && line.obj.kind == o.kind {
        assert line in lines;
        EraseKeepsOthers(PlayLines(lists, rest).Get(o.kind), line.obj.id, o.id);
      }
    }
  }

  /** Right after the start the frame after time zero has been read already, yet a step forward reads it again:
      the lists stay right exactly if everything created in that frame also dies in it. */
  lemma StepAfterStart(lists: Lists, frames: seq<Frame>)
    requires Timely(frames) && |frames| > 1 && frames[0].time == 0.0
    requires Holds(lists, Played(frames, 2))
    ensures Reach(frames, 0) == Reach(frames, 1) == 2
    ensures Holds(PlayFrom(lists, frames, 1), Played(frames, 2)) <==>
              forall o :: BornIn(frames, 1, o) ==> DiesIn(frames, 1, o)
  {
    var lines := frames[1].lines;
    var after := PlayFrom(lists, frames, 1);
    QuietPlays({}, frames[0].lines);
    assert Played(frames, 1) == Forward(Played(frames, 0), frames[0].lines) == {};
    if forall o :: BornIn(frames, 1, o) ==> DiesIn(frames, 1, o) {
      forall o
        ensures o !in Played(frames, 2)
      {
        ForwardMember({}, lines, o);
        assert BornIn(frames, 1, o) <==> Born(o) in lines;
        assert DiesIn(frames, 1, o) <==> Dies(o) in lines;
      }
      assert Played(frames, 2) == {};
      PlayHolds(lists, {}, lines);
    } else {
      var o :| BornIn(frames, 1, o) && !DiesIn(frames, 1, o);
      ForwardMember({}, lines, o);
      Copies(lists, lines, o);
      if Distinct(after.Get(o.kind)) {
        DistinctOnce(after.Get(o.kind), o.id);
      }
    }
  }

  /** A mine laid in the first timed frame is in the list twice after stepping back to the first frame, where the two
      are read together, and then onward. */
  lemma StepRepeatsMine()
    ensures
      var mine := Obj(Mine, 7);
      var frames := [Frame(0.0, []), Frame(1.0, [Born(mine)]), Frame(2.0, []), Frame(3.0, [])];
      && Timely(frames)
      && Holds(PlayFrom(EMPTY, frames, 0), Played(frames, 2))
      && !Holds(PlayFrom(PlayFrom(EMPTY, frames, 0), frames, 1), Played(frames, 2))
  {
    var mine := Obj(Mine, 7);
    var frames := [Frame(0.0, []), Frame(1.0, [Born(mine)]), Frame(2.0, []), Frame(3.0, [])];
    assert forall o, i :: 0 <= i < |frames| && BornIn(frames, i, o) ==> i == 1;
    assert forall o, i :: 0 <= i < |frames| ==> !DiesIn(frames, i, o);
    assert BornIn(frames, 1, mine);
    PlayFromHolds(EMPTY, frames, 0);
    StepAfterStart(PlayFrom(EMPTY, frames, 0), frames);
  }

  // ----- where a jump lands -----

  /** `r` is the last frame not after `t`, or the first one; there is none if `t` is not before the last frame. */
  ghost predicate Found(frames: seq<Frame>, t: real, r: int)
  {
    if r < 0 then r == -1 && forall i :: 1 <= i < |frames| ==> frames[i].time <= t
    else r + 1 < |frames| && t < frames[r + 1].time && (r > 0 ==> frames[r].time <= t)
  }

  lemma FoundAt(frames: seq<Frame>, n: nat, r: int)
    requires Timely(frames) && n < |frames| && Found(frames, frames[n].time, r)
    ensures r == if n + 1 < |frames| then n else -1
  {
    assert n + 1 < |frames| ==> frames[n].time < frames[n + 1].time;
  }

  /** On a log that does not run on past the timeout every jump agrees with playing: it lands two frames before the
      end at the latest. */
  lemma JumpWithinTimeout(frames: seq<Frame>, timeout: real, t: real, r: int, lists: Lists)
    requires Timely(frames) && Found(frames, t, r) && r > 0
    requires forall i :: 0 <= i < |frames| - 1 ==> frames[i].time <= timeout
    requires Holds(lists, AliveAt(Lives(frames, |frames|, timeout), frames[r - 1].time))
    ensures Holds(PlayFrom(lists, frames, r - 1), Played(frames, Reach(frames, r - 1)))
  {
    assert frames[r - 1].time < frames[r].time <= timeout;
    JumpHolds(lists, frames, r - 1, timeout);
  }

  /** A log that runs on past its timeout: a jump to 3.5 lands on a frame from which playing on leaves out a mine. */
  lemma JumpMissesMine()
    ensures
      var mine := Obj(Mine, 7);
      var frames := [Frame(0.0, []), Frame(1.0, [Born(mine)]), Frame(2.0, []), Frame(3.0, []), Frame(4.0, [])];
      && Timely(frames) && Found(frames, 3.5, 3)
      && Forward(AliveAt(Lives(frames, 5, 2.0), frames[2].time), frames[2].lines) != Played(frames, 3)
  {
    var mine := Obj(Mine, 7);
    var frames := [Frame(0.0, []), Frame(1.0, [Born(mine)]), Frame(2.0, []), Frame(3.0, []), Frame(4.0, [])];
    assert forall o, i :: 0 <= i < |frames| && BornIn(frames, i, o) ==> i == 1;
    assert forall o, i :: 0 <= i < |frames| ==> !DiesIn(frames, i, o);
    assert BornIn(frames, 1, mine) && Older(frames, 2, mine) && NeverDies(frames, mine);
    JumpAgrees(frames, 2, 2.0);
  }

  /** A shot that dies in the frame on which a jump to 3.5 lands: it exists before that frame, and is missing. */
  lemma JumpMissesShot()
    ensures
      var shot := Obj(Shot, 3);
      var frames :=
        [Frame(0.0, []), Frame(1.0, [Born(shot)]), Frame(2.0, [Dies(shot)]), Frame(3.0, []), Frame(4.0, [])];
      && Timely(frames) && Found(frames, 3.5, 3)
      && AliveAt(Lives(frames, 5, 60.0), frames[2].time) != Played(frames, 2)
  {
    var shot := Obj(Shot, 3);
    var frames := [Frame(0.0, []), Frame(1.0, [Born(shot)]), Frame(2.0, [Dies(shot)]), Frame(3.0, []), Frame(4.0, [])];
    assert forall o, i :: 0 <= i < |frames| && BornIn(frames, i, o) ==> i == 1;
    assert forall o, i :: 0 <= i < |frames| && DiesIn(frames, i, o) ==> i == 2 && o == shot;
    assert BornIn(frames, 1, shot) && Older(frames, 2, shot) && DiesIn(frames, 2, shot);
    assert !Kept(frames, 2, 60.0, shot);
    JumpIsBefore(frames, 2, 60.0);
  }
}
