/** The interval index of a game's log, which lets the replay jump to any time, and why jumping agrees with
    playing. */
module ReplayIndex {
  import opened ReplayLog

  /** When an object is born and when it dies; one that never dies is given the game's timeout. */
  datatype Life = Life(start: real, end: real)

  function Record(lives: map<Obj, Life>, line: Line, time: real, timeout: real): map<Obj, Life>
  {
    match line
    case Born(o) => lives[o := Life(time, timeout)]
    case Dies(o) => if o in lives then lives[o := lives[o].(end := time)] else lives
    case Other => lives
  }

  function RecordLines(lives: map<Obj, Life>, lines: seq<Line>, time: real, timeout: real): map<Obj, Life>
  {
    if lines == [] then lives
    else Record(RecordLines(lives, lines[..|lines| - 1], time, timeout), lines[|lines| - 1], time, timeout)
  }

  /** The index after the first `n` frames. */
  function Lives(frames: seq<Frame>, n: nat, timeout: real): map<Obj, Life>
    requires n <= |frames|
  {
    if n == 0 then map[]
    else RecordLines(Lives(frames, n - 1, timeout), frames[n - 1].lines, frames[n - 1].time, timeout)
  }

  /** What the lines of a frame make of one object's entry. */
  ghost predicate Recorded(before: map<Obj, Life>, after: map<Obj, Life>, lines: seq<Line>, time: real, timeout: real,
                           o: Obj)
  {
    && (o in after <==> o in before || Born(o) in lines)
    && (o in after ==>
          after[o] == Life(if o in before then before[o].start else time,
                           if Dies(o) in lines then time else if o in before then before[o].end else timeout))
  }

  lemma {:induction false} RecordLinesMeaning(lives: map<Obj, Life>, lines: seq<Line>, time: real, timeout: real,
                                              o: Obj)
    requires FrameTidy(lines)
    requires Born(o) in lines ==> o !in lives
    ensures Recorded(lives, RecordLines(lives, lines, time, timeout), lines, time, timeout, o)
  {
    if lines != [] {
      var m := |lines| - 1;
      var rest := lines[..m];
      RecordLinesMeaning(lives, rest, time, timeout, o);
      RecordStep(lives, RecordLines(lives, rest, time, timeout), rest, lines[m], time, timeout, o);
      assert lines == rest + [lines[m]];
    }
  }

  lemma RecordStep(before: map<Obj, Life>, after: map<Obj, Life>, rest: seq<Line>, line: Line, time: real,
                   timeout: real, o: Obj)
    requires Recorded(before, after, rest, time, timeout, o)
    requires line == Born(o) ==> o !in before && Born(o) !in rest && Dies(o) !in rest
    ensures Recorded(before, Record(after, line, time, timeout), rest + [line], time, timeout, o)
  {
    var all := rest + [line];
    assert forall l :: l in all <==> l in rest || l == line;
    if line == Born(o) {
      assert Dies(o) !in all;
    }
  }

  /** An object's entry holds the time of the frame it is born in and that of the frame it dies in. */
  ghost predicate Fits(frames: seq<Frame>, n: nat, timeout: real, o: Obj, life: Life)
    requires n <= |frames|
  {
    && (exists i :: 0 <= i < n && BornIn(frames, i, o) && life.start == frames[i].time)
    && (forall i :: 0 <= i < n && DiesIn(frames, i, o) ==> life.end == frames[i].time)
    && ((forall i :: 0 <= i < n ==> !DiesIn(frames, i, o)) ==> life.end == timeout)
  }

  lemma {:induction false} LivesMeaning(frames: seq<Frame>, n: nat, timeout: real, o: Obj)
    requires Tidy(frames) && n <= |frames|
    ensures o in Lives(frames, n, timeout) <==> Older(frames, n, o)
    ensures o in Lives(frames, n, timeout) ==> Fits(frames, n, timeout, o, Lives(frames, n, timeout)[o])
  {
    if n > 0 {
      var m := n - 1;
      LivesMeaning(frames, m, timeout, o);
      assert DiesIn(frames, m, o) <==> Dies(o) in frames[m].lines;
      assert BornIn(frames, m, o) <==> Born(o) in frames[m].lines;
      RecordLinesMeaning(Lives(frames, m, timeout), frames[m].lines, frames[m].time, timeout, o);
    }
  }

  /** The objects that the index says exist strictly between birth and death at the time `t`. */
  function AliveAt(lives: map<Obj, Life>, t: real): set<Obj>
  {
    set o | o in lives && lives[o].start < t < lives[o].end
  }

  /** Dies in no frame of the log. */
  ghost predicate NeverDies(frames: seq<Frame>, o: Obj)
  {
    forall i :: 0 <= i < |frames| ==> !DiesIn(frames, i, o)
  }

  lemma AliveAtMeaning(frames: seq<Frame>, n: nat, timeout: real, o: Obj)
    requires Tidy(frames) && n < |frames|
    ensures o in AliveAt(Lives(frames, |frames|, timeout), frames[n].time) <==>
              && Older(frames, n, o)
              && (forall i :: 0 <= i <= n ==> !DiesIn(frames, i, o))
              && (NeverDies(frames, o) ==> frames[n].time < timeout)
  {
    LivesMeaning(frames, |frames|, timeout, o);
    if o in Lives(frames, |frames|, timeout) {
      var life := Lives(frames, |frames|, timeout)[o];
      StartMeaning(frames, n, timeout, o, life);
      EndMeaning(frames, n, timeout, o, life);
    }
  }

  lemma StartMeaning(frames: seq<Frame>, n: nat, timeout: real, o: Obj, life: Life)
    requires Tidy(frames) && n < |frames| && Fits(frames, |frames|, timeout, o, life)
    ensures life.start < frames[n].time <==> Older(frames, n, o)
  {
    var i :| 0 <= i < |frames| && BornIn(frames, i, o) && life.start == frames[i].time;
    assert life.start < frames[n].time <==> i < n;
  }

  lemma EndMeaning(frames: seq<Frame>, n: nat, timeout: real, o: Obj, life: Life)
    requires Tidy(frames) && n < |frames| && Fits(frames, |frames|, timeout, o, life)
    ensures frames[n].time < life.end <==>
              && (forall i :: 0 <= i <= n ==> !DiesIn(frames, i, o))
              && (NeverDies(frames, o) ==> frames[n].time < timeout)
  {
    if !NeverDies(frames, o) {
      var j :| 0 <= j < |frames| && DiesIn(frames, j, o);
      assert life.end == frames[j].time;
      assert frames[n].time < life.end <==> n < j;
    }
  }

  /** Jumping to a frame and playing it leaves the objects that playing from the start leaves, exactly if the
      frame comes before the timeout or leaves no old object that outlives the log. */
  lemma JumpAgrees(frames: seq<Frame>, n: nat, timeout: real)
    requires Tidy(frames) && n < |frames|
    ensures Forward(AliveAt(Lives(frames, |frames|, timeout), frames[n].time), frames[n].lines) == Played(frames, n + 1)
            <==>
            (frames[n].time < timeout || forall o :: Older(frames, n, o) ==> !NeverDies(frames, o))
  {
    var rebuilt := AliveAt(Lives(frames, |frames|, timeout), frames[n].time);
    var jumped := Forward(rebuilt, frames[n].lines);
    forall o
      ensures o in jumped <==>
                && o in Played(frames, n + 1)
                && (Older(frames, n, o) && NeverDies(frames, o) ==> frames[n].time < timeout)
      ensures Older(frames, n, o) && NeverDies(frames, o) ==> o in Played(frames, n + 1)
    {
      JumpMember(frames, n, timeout, o);
    }
    if jumped == Played(frames, n + 1) && frames[n].time >= timeout {
      forall o | Older(frames, n, o)
        ensures !NeverDies(frames, o)
      {
        assert o in jumped <==> o in Played(frames, n + 1);
      }
    }
  }

  lemma JumpMember(frames: seq<Frame>, n: nat, timeout: real, o: Obj)
    requires Tidy(frames) && n < |frames|
    ensures o in Forward(AliveAt(Lives(frames, |frames|, timeout), frames[n].time), frames[n].lines) <==>
              && o in Played(frames, n + 1)
              && (Older(frames, n, o) && NeverDies(frames, o) ==> frames[n].time < timeout)
    ensures Older(frames, n, o) && NeverDies(frames, o) ==> o in Played(frames, n + 1)
  {
    var rebuilt := AliveAt(Lives(frames, |frames|, timeout), frames[n].time);
    AliveAtMeaning(frames, n, timeout, o);
    ForwardMember(rebuilt, frames[n].lines, o);
    PlayedNext(frames, n, o);
  }

  lemma PlayedNext(frames: seq<Frame>, n: nat, o: Obj)
    requires Tidy(frames) && n < |frames|
    ensures o in Played(frames, n + 1) <==>
              && (Older(frames, n, o) || Born(o) in frames[n].lines)
              && forall i :: 0 <= i <= n ==> !DiesIn(frames, i, o)
    ensures Dies(o) in frames[n].lines <==> DiesIn(frames, n, o)
    ensures Born(o) in frames[n].lines ==> !Older(frames, n, o) && forall i :: 0 <= i < n ==> !DiesIn(frames, i, o)
  {
    PlayedMeaning(frames, n + 1, o);
    assert BornIn(frames, n, o) <==> Born(o) in frames[n].lines;
  }

  /** Just after a jump the lists hold what existed before the frame, exactly if none of that dies in the frame
      and none outlives a log that has reached the timeout: an object that dies in the frame is missing, which
      shows when the replay is rewinding. */
  lemma JumpIsBefore(frames: seq<Frame>, n: nat, timeout: real)
    requires Tidy(frames) && n < |frames|
    ensures AliveAt(Lives(frames, |frames|, timeout), frames[n].time) == Played(frames, n) <==>
              forall o :: Older(frames, n, o) ==> Kept(frames, n, timeout, o)
  {
    var rebuilt := AliveAt(Lives(frames, |frames|, timeout), frames[n].time);
    forall o
      ensures o in rebuilt <==> o in Played(frames, n) && Kept(frames, n, timeout, o)
      ensures Older(frames, n, o) && !Kept(frames, n, timeout, o) ==> o in Played(frames, n)
    {
      RebuiltMember(frames, n, timeout, o);
    }
    if rebuilt == Played(frames, n) {
      forall o | Older(frames, n, o)
        ensures Kept(frames, n, timeout, o)
      {
        assert o in rebuilt <==> o in Played(frames, n);
      }
    } else if forall o :: Older(frames, n, o) ==> Kept(frames, n, timeout, o) {
      forall o
        ensures o in rebuilt <==> o in Played(frames, n)
      {
        PlayedMeaning(frames, n, o);
        assert o in Played(frames, n) ==> Older(frames, n, o);
      }
      assert false;
    }
  }

  /** Does not die in frame `n`, nor outlive a log that has reached the timeout. */
  ghost predicate Kept(frames: seq<Frame>, n: nat, timeout: real, o: Obj)
    requires n < |frames|
  {
    !DiesIn(frames, n, o) && (NeverDies(frames, o) ==> frames[n].time < timeout)
  }

  lemma RebuiltMember(frames: seq<Frame>, n: nat, timeout: real, o: Obj)
    requires Tidy(frames) && n < |frames|
    ensures o in AliveAt(Lives(frames, |frames|, timeout), frames[n].time) <==>
              o in Played(frames, n) && Kept(frames, n, timeout, o)
    ensures Older(frames, n, o) && !Kept(frames, n, timeout, o) ==> o in Played(frames, n)
  {
    AliveAtMeaning(frames, n, timeout, o);
    PlayedMeaning(frames, n, o);
  }
}
