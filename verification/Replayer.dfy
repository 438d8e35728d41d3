/** The replay of one game from its log: playing, rewinding, stepping and jumping. */
module Replayer {
  import opened ReplayLog
  import opened ReplayIndex
  import opened ReplayLists
  import opened ReplayReading

  /** An entry of the interval index. */
  datatype Span = Span(obj: Obj, life: Life)

  /** The index list holds exactly the entries of `lives`, one for each object. */
  ghost predicate Indexed(spans: seq<Span>, lives: map<Obj, Life>)
  {
    && (forall k :: 0 <= k < |spans| ==> spans[k].obj in lives && lives[spans[k].obj] == spans[k].life)
    && (forall j, k :: 0 <= j < k < |spans| ==> spans[j].obj != spans[k].obj)
    && (forall o :: o in lives ==> exists k :: 0 <= k < |spans| && spans[k].obj == o)
  }

  /** The objects of the listed entries that exist at the time `t`. */
  function Within(spans: seq<Span>, t: real): set<Obj>
  {
    set j | 0 <= j < |spans| && spans[j].life.start < t < spans[j].life.end :: spans[j].obj
  }

  lemma HoldsNone(spans: seq<Span>, t: real)
    requires spans == []
    ensures Holds(EMPTY, Within(spans, t))
  {
    forall kind
      ensures EMPTY.Get(kind) == []
    {
    }
  }

  lemma WithinNext(spans: seq<Span>, k: nat, lives: map<Obj, Life>, t: real)
    requires Indexed(spans, lives) && k < |spans|
    ensures Within(spans[..k + 1], t) ==
            if spans[k].life.start < t < spans[k].life.end then Within(spans[..k], t) + {spans[k].obj}
            else Within(spans[..k], t)
    ensures spans[k].obj !in Within(spans[..k], t)
  {
    var few, more := spans[..k], spans[..k + 1];
    assert more == few + [spans[k]];
    forall o | o in Within(few, t)
      ensures o in Within(more, t)
    {
      var j :| 0 <= j < |few| && few[j].life.start < t < few[j].life.end && few[j].obj == o;
      assert more[j] == few[j];
    }
    if spans[k].life.start < t < spans[k].life.end {
      assert more[k].obj in Within(more, t);
    }
  }

  lemma WithinAll(spans: seq<Span>, lives: map<Obj, Life>, t: real)
    requires Indexed(spans, lives)
    ensures Within(spans, t) == AliveAt(lives, t)
  {
    forall o | o in AliveAt(lives, t)
      ensures o in Within(spans, t)
    {
      var k :| 0 <= k < |spans| && spans[k].obj == o;
    }
  }

  /** Does reading frame `n` take in the whole log, beginning at time zero? */
  predicate Short(frames: seq<Frame>, n: nat)
    requires n < |frames|
  {
    Merged(frames, n) && n + 2 == |frames|
  }

  /** The frame read after frame `n`. */
  function Next(frames: seq<Frame>, n: int): int
    requires -1 <= n < |frames| && (if n < 0 then 0 else Reach(frames, n)) < |frames|
  {
    var k := if n < 0 then 0 else Reach(frames, n);
    if Short(frames, k) then k + 1 else k
  }

  /** Frame `m` is the one read after frame `n`. */
  predicate Follows(frames: seq<Frame>, n: int, m: int)
  {
    -1 <= n < |frames| && (if n < 0 then 0 else Reach(frames, n)) < |frames| && m == Next(frames, n)
  }

  class Replay {
    const frames: seq<Frame>
    const timeout: real
    var lists: Lists
    var spans: seq<Span>
    var current: real
    /** The frame at the log's read position.  Once the log has been read to its end, moving the position has no
        effect. */
    var at: nat
    var forward: bool

    ghost predicate Ready()
      reads this
    {
      Timely(frames) && at <= |frames| && Indexed(spans, Index())
    }

    ghost function Index(): map<Obj, Life>
      requires Timely(frames)
    {
      Lives(frames, |frames|, timeout)
    }

    /** The lists and the position after reading frame `n` in the direction of the replay; before the first
        frame `n` is -1.  At the last frame the replay does not turn round. */
    ghost predicate At(n: int)
      reads this
    {
      if n < 0 then n == -1 && forward && at == 0 && current == 0.0 && Holds(lists, {})
      else
        && n < |frames| && !Short(frames, n)
        && at == Reach(frames, n) && current == frames[n].time
        && Holds(lists, Played(frames, if forward || n + 1 == |frames| then Reach(frames, n) else n))
    }

    // ----- the index -----

    constructor (frames: seq<Frame>, timeout: real)
      requires Timely(frames)
      ensures this.frames == frames && this.timeout == timeout
      ensures Ready() && at == 0 && current == 0.0 && forward && lists == EMPTY
    {
      this.frames, this.timeout := frames, timeout;
      lists, spans, current, at, forward := EMPTY, [], 0.0, 0, true;
      new;
      BuildIndex();
    }

    method BuildIndex()
      requires Timely(frames)
      modifies this`spans
      ensures Indexed(spans, Index())
    {
      spans := [];
      var n := 0;
      while n < |frames|
        invariant n <= |frames|
        invariant Indexed(spans, Lives(frames, n, timeout))
      {
        RecordFrame(n);
        n := n + 1;
      }
    }

    method RecordFrame(n: nat)
      requires Tidy(frames) && n < |frames| && Indexed(spans, Lives(frames, n, timeout))
      modifies this`spans
      ensures Indexed(spans, Lives(frames, n + 1, timeout))
    {
      var lines, time := frames[n].lines, frames[n].time;
      ghost var before := Lives(frames, n, timeout);
      var k := 0;
      while k < |lines|
        invariant k <= |lines|
        invariant Indexed(spans, RecordLines(before, lines[..k], time, timeout))
      {
        ghost var sofar := RecordLines(before, lines[..k], time, timeout);
        if lines[k].Born? {
          NewbornUnknown(n, k);
        }
        assert lines[..k + 1][..k] == lines[..k];
        RecordLine(lines[k], time, sofar);
        k := k + 1;
      }
      assert lines[..k] == lines;
    }

    lemma NewbornUnknown(n: nat, k: nat)
      requires Tidy(frames) && n < |frames| && k < |frames[n].lines| && frames[n].lines[k].Born?
      ensures frames[n].lines[k].obj !in
              RecordLines(Lives(frames, n, timeout), frames[n].lines[..k], frames[n].time, timeout)
    {
      var o := frames[n].lines[k].obj;
      assert BornIn(frames, n, o);
      LivesMeaning(frames, n, timeout, o);
      RecordLinesMeaning(Lives(frames, n, timeout), frames[n].lines[..k], frames[n].time, timeout, o);
    }

    method RecordLine(line: Line, time: real, ghost lives: map<Obj, Life>)
      requires Indexed(spans, lives) && (line.Born? ==> line.obj !in lives)
      modifies this`spans
      ensures Indexed(spans, Record(lives, line, time, timeout))
    {
      match line
      case Born(o) =>
        spans := spans + [Span(o, Life(time, timeout))];
        assert spans[|spans| - 1].obj == o;
        assert forall k :: 0 <= k < |spans| - 1 ==> spans[k] == old(spans)[k];
      case Dies(o) =>
        var k := FindInLog(o, lives);
        if k < |spans| {
          spans := spans[k := spans[k].(life := spans[k].life.(end := time))];
          assert forall j :: 0 <= j < |spans| ==> spans[j].obj == old(spans)[j].obj;
        }
      case Other =>
    }

    method FindInLog(o: Obj, ghost lives: map<Obj, Life>) returns (k: nat)
      requires Indexed(spans, lives)
      ensures k <= |spans|
      ensures k < |spans| <==> o in lives
      ensures k < |spans| ==> spans[k] == Span(o, lives[o])
    {
      k := 0;
      while k < |spans| && spans[k].obj != o
        invariant k <= |spans|
        invariant forall j :: 0 <= j < k ==> spans[j].obj != o
      {
        k := k + 1;
      }
    }

    // ----- reading lines -----

    method Drop(o: Obj)
      modifies this`lists
      ensures lists == old(lists).Drop(o)
    {
      var ids := lists.Get(o.kind);
      var i := 0;
      while i < |ids| && ids[i] != o.id
        invariant i <= |ids| && o.id !in ids[..i]
      {
        i := i + 1;
      }
      EraseAt(ids, o.id, i);
      if i < |ids| {
        lists := lists.Put(o.kind, ids[..i] + ids[i + 1..]);
      } else {
        assert lists.Put(o.kind, ids) == lists;
      }
    }

    method ParseLineForward(line: Line)
      modifies this`lists
      ensures lists == PlayLine(old(lists), line)
    {
      match line
      case Born(o) => lists := lists.Push(o);
      case Dies(o) => Drop(o);
      case Other =>
    }

    method ParseLineRewind(line: Line)
      requires Ready() && (line.Dies? ==> line.obj in Index())
      modifies this`lists
      ensures lists == UnplayLine(old(lists), line, Index())
    {
      match line
      case Born(o) => Drop(o);
      case Dies(o) =>
        var k := FindInLog(o, Index());
        if spans[k].life.end > spans[k].life.start {
          lists := lists.Push(o);
        }
      case Other =>
    }

    /** The lists after reading the lines in the direction of the replay. */
    ghost function ReadLines(before: Lists, lines: seq<Line>): Lists
      requires Timely(frames) && Known(Index(), lines)
      reads this`forward
    {
      if forward then PlayLines(before, lines) else UnplayLines(before, lines, Index())
    }

    method ParseLines(lines: seq<Line>)
      requires Ready() && Known(Index(), lines)
      modifies this`lists
      ensures lists == ReadLines(old(lists), lines)
    {
      var k := 0;
      while k < |lines|
        invariant k <= |lines|
        invariant Ready()
        invariant lists == ReadLines(old(lists), lines[..k])
      {
        assert lines[..k + 1][..k] == lines[..k];
        if forward {
          ParseLineForward(lines[k]);
        } else {
          ParseLineRewind(lines[k]);
        }
        k := k + 1;
      }
      assert lines[..k] == lines;
    }

    /** Reads the frame at the read position, and the next one too after the frame at time zero. */
    method ParseThisTimeIndex()
      requires Ready() && at < |frames| && AllKnown(Index(), frames)
      modifies this`lists, this`current, this`at
      ensures Ready() && at == Reach(frames, old(at))
      ensures lists == if forward then PlayFrom(old(lists), frames, old(at))
                       else UnplayFrom(old(lists), frames, old(at), Index())
      ensures current == frames[if at == |frames| then at - 1 else old(at)].time
    {
      current := frames[at].time;
      var next := current;
      ParseLines(frames[at].lines);
      at := at + 1;
      while at < |frames| && current == 0.0
        invariant Ready() && old(at) < at <= Reach(frames, old(at))
        invariant at == old(at) + 1 || at == Reach(frames, old(at))
        invariant current == frames[at - 1].time && next == frames[old(at)].time
        invariant lists == if at == old(at) + 1 then ReadLines(old(lists), frames[old(at)].lines)
                           else if forward then PlayFrom(old(lists), frames, old(at))
                           else UnplayFrom(old(lists), frames, old(at), Index())
      {
        next := 0.0;
        current := frames[at].time;
        ParseLines(frames[at].lines);
        at := at + 1;
      }
      if at < |frames| {
        current := next;
      }
    }

    // ----- moving about -----

    /** The index of the frame to read for the time `t`. */
    method FindStreampos(t: real) returns (r: int)
      requires Timely(frames)
      ensures Found(frames, t, r)
    {
      var i := 1;
      while i < |frames|
        invariant 1 <= i && (i <= |frames| || |frames| == 0)
        invariant forall j :: 1 <= j < i && j < |frames| ==> frames[j].time <= t
      {
        if t < frames[i].time {
          return i - 1;
        }
        i := i + 1;
      }
      return -1;
    }

    /** Moves the read position by `steps` frames, and reads the frame there if `read`.  At the end of the log only
        the time changes. */
    method StepForward(steps: int, read: bool) returns (ok: bool)
      requires Ready()
      modifies this`lists, this`current, this`at
      ensures Ready()
      ensures !ok ==> lists == old(lists) && current == old(current) && at == old(at)
      ensures exists r ::
        && Found(frames, old(current), r)
        && (ok <==> 0 <= r + steps < |frames|)
        && (ok && old(at) == |frames| ==>
              at == |frames| && current == frames[r + steps].time && lists == old(lists))
        && (ok && old(at) < |frames| && !read ==> at == r + steps && current == frames[at].time && lists == old(lists))
        && (ok && old(at) < |frames| && read ==> ReadFrom(old(lists), r + steps))
    {
      var index := FindStreampos(current);
      assert Found(frames, current, index);
      index := index + steps;
      ok := 0 <= index < |frames|;
      if ok {
        current := frames[index].time;
        if at < |frames| {
          at := index;
          if read {
            IndexKnows(frames, timeout);
            ParseThisTimeIndex();
          }
        }
      }
    }

    /** Frame `n` has just been read, and the lists were `before` before that. */
    ghost predicate ReadFrom(before: Lists, n: int)
      requires Timely(frames)
      reads this
    {
      && 0 <= n < |frames| && AllKnown(Index(), frames)
      && at == Reach(frames, n)
      && current == frames[if at == |frames| then at - 1 else n].time
      && lists == if forward then PlayFrom(before, frames, n) else UnplayFrom(before, frames, n, Index())
    }

    /** Turns round, reading the current frame again in the other direction. */
    method Turn(ghost n: int)
      requires Ready() && n >= 0 && At(n)
      modifies this`lists, this`current, this`at, this`forward
      ensures Ready() && forward == !old(forward) && At(n)
    {
      ghost var before := lists;
      forward := !forward;
      var ok := StepForward(0, true);
      ghost var r :| Found(frames, old(current), r) && (ok <==> 0 <= r < |frames|)
                     && (ok && old(at) < |frames| ==> ReadFrom(before, r));
      FoundAt(frames, n, r);
      if ok {
        Reread(before, n);
      }
    }

    lemma Reread(before: Lists, n: nat)
      requires Ready() && n + 1 < |frames| && !Short(frames, n) && ReadFrom(before, n)
      requires Holds(before, Played(frames, if forward then n else Reach(frames, n)))
      ensures At(n)
    {
      if forward {
        PlayFromHolds(before, frames, n);
      } else {
        UnplayFromHolds(before, frames, n, timeout);
      }
    }

    /** The buttons for normal speed, fast forward and rewind keep the frame. */
    method ChangeSpeed(onward: bool, fast: bool, ghost n: int)
      requires Ready() && n >= 0 && At(n)
      modifies this`lists, this`current, this`at, this`forward
      ensures Ready() && At(n) && forward == (onward || !fast)
    {
      if !forward {
        Turn(n);
      }
      if fast && !onward {
        Turn(n);
      }
    }

    // ----- playing and rewinding -----

    lemma ReadNext(before: Lists, n: int)
      requires Ready() && forward && -1 <= n < |frames|
      requires n < 0 || !Short(frames, n)
      requires Holds(before, if n < 0 then {} else Played(frames, Reach(frames, n)))
      requires (if n < 0 then 0 else Reach(frames, n)) < |frames|
      requires ReadFrom(before, if n < 0 then 0 else Reach(frames, n))
      ensures Follows(frames, n, Next(frames, n)) && At(Next(frames, n))
    {
      PlayFromHolds(before, frames, if n < 0 then 0 else Reach(frames, n));
    }

    method PlayOn(ghost n: int) returns (ghost m: int)
      requires Ready() && At(n) && forward && at < |frames|
      modifies this`lists, this`current, this`at
      ensures Ready() && n < m && At(m) && Follows(frames, n, m) && at > old(at)
    {
      ghost var before := lists;
      IndexKnows(frames, timeout);
      ParseThisTimeIndex();
      ReadNext(before, n);
      m := Next(frames, n);
    }

    method StepBack(ghost n: int) returns (ok: bool)
      requires Ready() && n >= 0 && At(n) && !forward
      modifies this`lists, this`current, this`at
      ensures Ready() && At(if ok then n - 1 else n)
      ensures ok <==> 0 < n < |frames| - 1
    {
      hide Holds, Played, Found, Follows, Lives, AllKnown, Indexed;
      ghost var before := lists;
      ok := StepForward(-1, true);
      ghost var r :| Found(frames, old(current), r) && (ok <==> 0 <= r - 1 < |frames|)
                     && (ok && old(at) < |frames| ==> ReadFrom(before, r - 1));
      FoundAt(frames, n, r);
      if ok {
        UnplayFromHolds(before, frames, n - 1, timeout);
      }
    }

    /** Plays up to the time `total`, no further than needed. */
    method PlayUntil(total: real, ghost n: int) returns (ghost m: int)
      requires Ready() && At(n) && forward
      modifies this`lists, this`current, this`at
      ensures Ready() && At(m) && n <= m && (at == |frames| || total < current)
      ensures n < m ==> exists p :: n <= p && Follows(frames, p, m) && (p >= 0 ==> frames[p].time <= total)
    {
      m := n;
      while at < |frames| && total >= current
        invariant Ready() && At(m) && n <= m
        invariant n < m ==> exists p :: n <= p && Follows(frames, p, m) && (p >= 0 ==> frames[p].time <= total)
        decreases |frames| - at
      {
        m := PlayOn(m);
      }
    }

    /** Rewinds down to the time `total`, no further than needed. */
    method RewindUntil(total: real, ghost n: int) returns (ghost m: int)
      requires Ready() && At(n) && !forward
      modifies this`lists, this`current, this`at
      ensures Ready() && At(m) && 0 <= m <= n && (current < total || m == 0 || m == |frames| - 1)
      ensures m < n ==> frames[m + 1].time >= total
    {
      m := n;
      var ok := true;
      while ok && at < |frames| && total <= current
        invariant Ready() && At(m) && 0 <= m <= n
        invariant !ok ==> m == 0 || m == |frames| - 1
        invariant m < n ==> frames[m + 1].time >= total
        decreases m, ok
      {
        ok := StepBack(m);
        if ok {
          m := m - 1;
        }
      }
    }

    /** What a tick of the timer does. */
    method ParseThisInterval(total: real, ghost n: int) returns (ghost m: int)
      requires Ready() && At(n)
      modifies this`lists, this`current, this`at
      ensures Ready() && At(m)
      ensures if forward then n <= m && (at == |frames| || total < current)
              else 0 <= m <= n && (current < total || m == 0 || m == |frames| - 1)
    {
      if forward {
        m := PlayUntil(total, n);
      } else {
        m := RewindUntil(total, n);
      }
    }

    // ----- the step buttons -----

    /** One frame onward.  From a merged start the next frame is read a second time; from the last frame nothing is
        read, but the time goes back to that of the first frame. */
    method StepOnward(ghost n: nat)
      requires Ready() && At(n) && forward
      modifies this`lists, this`current, this`at
      ensures Ready()
      ensures n + 1 < |frames| ==>
        && current == frames[if at == |frames| then at - 1 else n + 1].time
        && lists == PlayFrom(old(lists), frames, n + 1) && at == Reach(frames, n + 1)
      ensures n + 1 < |frames| && !Merged(frames, n) ==> At(n + 1)
      ensures n + 1 < |frames| && Merged(frames, n) ==>
                (At(n + 1) <==> forall o :: BornIn(frames, 1, o) ==> DiesIn(frames, 1, o))
      ensures n + 1 == |frames| ==> lists == old(lists) && at == |frames| && current == frames[0].time
    {
      ghost var before := lists;
      var ok := StepForward(1, true);
      ghost var r :| Found(frames, old(current), r) && (ok <==> 0 <= r + 1 < |frames|)
                     && (ok && old(at) == |frames| ==>
                           at == |frames| && current == frames[r + 1].time && lists == before)
                     && (ok && old(at) < |frames| ==> ReadFrom(before, r + 1));
      FoundAt(frames, n, r);
      if n + 1 < |frames| {
        Stepping(before, n);
      }
    }

    lemma Stepping(before: Lists, n: nat)
      requires Ready() && forward && n + 1 < |frames| && !Short(frames, n)
      requires Holds(before, Played(frames, Reach(frames, n))) && ReadFrom(before, n + 1)
      ensures !Merged(frames, n) ==> At(n + 1)
      ensures Merged(frames, n) ==>
                (At(n + 1) <==> forall o :: BornIn(frames, 1, o) ==> DiesIn(frames, 1, o))
    {
      if Merged(frames, n) {
        StepAfterStart(before, frames);
      } else {
        PlayFromHolds(before, frames, n + 1);
      }
    }

    /** One frame back: rewinds the current frame, then the one before, and plays that one again. */
    method StepBackward(ghost n: nat)
      requires Ready() && At(n) && forward
      modifies this`lists, this`current, this`at, this`forward
      ensures Ready() && forward
      ensures At(if 0 < n < |frames| - 1 then n - 1 else n)
    {
      Turn(n);
      var ok := StepBack(n);
      Turn(if ok then n - 1 else n);
    }

    // ----- jumping -----

    /** Refills the lists from the index. */
    method RecreateLists()
      requires Ready()
      modifies this`lists
      ensures Ready() && Holds(lists, AliveAt(Index(), current))
    {
      hide AliveAt, Holds, Within, Lives;
      lists := EMPTY;
      var k := 0;
      HoldsNone(spans[..0], current);
      while k < |spans|
        invariant k <= |spans| && Ready()
        invariant Holds(lists, Within(spans[..k], current))
      {
        var span := spans[k];
        WithinNext(spans, k, Index(), current);
        if span.life.start < current < span.life.end {
          PushHolds(lists, Within(spans[..k], current), span.obj);
          lists := lists.Push(span.obj);
        }
        k := k + 1;
      }
      WithinAll(spans, Index(), current);
      assert spans[..k] == spans;
    }

    /** Jumps to the frame before the one that holds the time `t`.  Playing on from there gives what playing from
        the start would give, exactly before the timeout or if every older object dies.  At the end of the log the
        lists are those of that frame's time, but nothing more is read. */
    method ChangeReplayTime(t: real) returns (jumped: bool)
      requires Ready()
      modifies this`lists, this`current, this`at
      ensures Ready()
      ensures !jumped ==> lists == old(lists) && current == old(current) && at == old(at)
      ensures exists r ::
        && Found(frames, t, r)
        && (jumped <==> r > 0 && (t - old(current) > 0.001 || old(current) - t > 0.001))
        && (jumped ==> at == (if old(at) == |frames| then |frames| else r - 1) && current == frames[r - 1].time)
      ensures jumped ==> Holds(lists, AliveAt(Index(), current))
      ensures jumped && old(at) < |frames| ==>
        && at < |frames|
        && (Holds(PlayFrom(lists, frames, at), Played(frames, Reach(frames, at))) <==>
            current < timeout || forall o :: Older(frames, at, o) ==> !NeverDies(frames, o))
    {
      var index := FindStreampos(t);
      assert Found(frames, t, index);
      jumped := false;
      if t - current > 0.001 || current - t > 0.001 {
        index := index - 1;
        if 0 <= index < |frames| {
          current := frames[index].time;
          if at < |frames| {
            at := index;
          }
          RecreateLists();
          JumpHolds(lists, frames, index, timeout);
          jumped := true;
        }
      }
    }
  }
}
