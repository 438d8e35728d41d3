/** What a game's log says about which shots, cookies and mines exist, frame by frame: playing forward,
    playing a frame backward, and rebuilding from the interval index. */
module ReplayLog {
  datatype Kind = Shot | Cookie | Mine

  datatype Obj = Obj(kind: Kind, id: int)

  /** The log lines that create or end an object; all others leave these objects alone. */
  datatype Line = Born(obj: Obj) | Dies(obj: Obj) | Other

  /** The lines between one time stamp and the next. */
  datatype Frame = Frame(time: real, lines: seq<Line>)

  // ----- forward and backward -----

  function Forward(live: set<Obj>, lines: seq<Line>): set<Obj>
  {
    if lines == [] then live
    else
      var before := Forward(live, lines[..|lines| - 1]);
      match lines[|lines| - 1]
      case Born(o) => before + {o}
      case Dies(o) => before - {o}
      case Other => before
  }

  /** Reading the same lines, in the same order, while replaying backward: births end an object, deaths
      bring it back if it is `older` than the frame. */
  function Backward(live: set<Obj>, lines: seq<Line>, older: set<Obj>): set<Obj>
  {
    if lines == [] then live
    else
      var before := Backward(live, lines[..|lines| - 1], older);
      match lines[|lines| - 1]
      case Born(o) => before - {o}
      case Dies(o) => if o in older then before + {o} else before
      case Other => before
  }

  /** Nothing is born after its death, and nothing is born or dies twice. */
  predicate FrameTidy(lines: seq<Line>)
  {
    forall i, j :: 0 <= i < j < |lines| && !lines[j].Other? ==>
      lines[i] != lines[j] && (lines[j].Born? ==> lines[i] != Dies(lines[j].obj))
  }

  lemma {:induction false} ForwardMember(live: set<Obj>, lines: seq<Line>, o: Obj)
    requires FrameTidy(lines)
    ensures o in Forward(live, lines) <==>
              if Dies(o) in lines then false else if Born(o) in lines then true else o in live
  {
    if lines != [] {
      var m := |lines| - 1;
      ForwardMember(live, lines[..m], o);
      assert lines == lines[..m] + [lines[m]];
    }
  }

  lemma {:induction false} BackwardMember(live: set<Obj>, lines: seq<Line>, older: set<Obj>, o: Obj)
    requires FrameTidy(lines)
    ensures o in Backward(live, lines, older) <==>
              if Dies(o) in lines && o in older then true else if Born(o) in lines then false else o in live
  {
    if lines != [] {
      var m := |lines| - 1;
      BackwardMember(live, lines[..m], older, o);
      assert lines == lines[..m] + [lines[m]];
    }
  }

  // ----- a whole game -----

  predicate BornIn(frames: seq<Frame>, i: nat, o: Obj)
    requires i < |frames|
  {
    Born(o) in frames[i].lines
  }

  predicate DiesIn(frames: seq<Frame>, i: nat, o: Obj)
    requires i < |frames|
  {
    Dies(o) in frames[i].lines
  }

  /** A log as the game writes it: increasing times, every object born once, and dying at most once, not
      before its birth. */
  ghost predicate Tidy(frames: seq<Frame>)
  {
    && (forall i, j :: 0 <= i < j < |frames| ==> frames[i].time < frames[j].time)
    && (forall i :: 0 <= i < |frames| ==> FrameTidy(frames[i].lines))
    && (forall o, i, j :: 0 <= i < j < |frames| ==> !(BornIn(frames, i, o) && BornIn(frames, j, o)))
    && (forall o, i, j :: 0 <= i < j < |frames| ==> !(DiesIn(frames, i, o) && DiesIn(frames, j, o)))
    && (forall o, j :: 0 <= j < |frames| && DiesIn(frames, j, o) ==> exists i :: 0 <= i <= j && BornIn(frames, i, o))
  }

  /** The objects that exist after the first `n` frames have been played. */
  function Played(frames: seq<Frame>, n: nat): set<Obj>
    requires n <= |frames|
  {
    if n == 0 then {} else Forward(Played(frames, n - 1), frames[n - 1].lines)
  }

  /** An object exists exactly if it has been born and has not died. */
  lemma {:induction false} PlayedMeaning(frames: seq<Frame>, n: nat, o: Obj)
    requires Tidy(frames) && n <= |frames|
    ensures o in Played(frames, n) <==>
              (exists i :: 0 <= i < n && BornIn(frames, i, o)) && !(exists i :: 0 <= i < n && DiesIn(frames, i, o))
  {
    if n > 0 {
      var m := n - 1;
      PlayedMeaning(frames, m, o);
      ForwardMember(Played(frames, m), frames[m].lines, o);
      assert DiesIn(frames, m, o) <==> Dies(o) in frames[m].lines;
      assert BornIn(frames, m, o) <==> Born(o) in frames[m].lines;
    }
  }

  /** The objects born before frame `n`. */
  ghost predicate Older(frames: seq<Frame>, n: nat, o: Obj)
    requires n <= |frames|
  {
    exists i :: 0 <= i < n && BornIn(frames, i, o)
  }

  /** Playing a frame and then reading it backward restores what existed before. */
  lemma BackwardUndoesForward(frames: seq<Frame>, n: nat, older: set<Obj>)
    requires Tidy(frames) && n < |frames|
    requires forall o :: DiesIn(frames, n, o) ==> (o in older <==> Older(frames, n, o))
    ensures Backward(Played(frames, n + 1), frames[n].lines, older) == Played(frames, n)
  {
    var lines := frames[n].lines;
    forall o
      ensures o in Backward(Played(frames, n + 1), lines, older) <==> o in Played(frames, n)
    {
      BackwardMember(Played(frames, n + 1), lines, older, o);
      ForwardMember(Played(frames, n), lines, o);
      PlayedMeaning(frames, n, o);
      assert DiesIn(frames, n, o) <==> Dies(o) in lines;
      assert BornIn(frames, n, o) <==> Born(o) in lines;
    }
  }
}
