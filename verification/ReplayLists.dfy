/** The lists of shots, cookies and mines that the replay keeps, and how they follow the set of live objects. */
module ReplayLists {
  import opened Basics
  import opened ReplayLog
  import opened ReplayIndex

  datatype Lists = Lists(shots: seq<int>, cookies: seq<int>, mines: seq<int>)
  {
    function Get(kind: Kind): seq<int>
    {
      match kind
      case Shot => shots
      case Cookie => cookies
      case Mine => mines
    }

    function Put(kind: Kind, ids: seq<int>): (r: Lists)
      ensures forall k :: r.Get(k) == if k == kind then ids else Get(k)
    {
      match kind
      case Shot => this.(shots := ids)
      case Cookie => this.(cookies := ids)
      case Mine => this.(mines := ids)
    }

    function Push(o: Obj): Lists { Put(o.kind, Get(o.kind) + [o.id]) }

    function Drop(o: Obj): Lists { Put(o.kind, Erase(Get(o.kind), o.id)) }
  }

  const EMPTY := Lists([], [], [])

  /** `ids` without the first `id`. */
  function Erase(ids: seq<int>, id: int): seq<int>
  {
    if ids == [] then [] else if ids[0] == id then ids[1..] else [ids[0]] + Erase(ids[1..], id)
  }

  lemma {:induction false} EraseAt(ids: seq<int>, id: int, i: nat)
    requires i <= |ids| && id !in ids[..i] && (i < |ids| ==> ids[i] == id)
    ensures Erase(ids, id) == if i < |ids| then ids[..i] + ids[i + 1..] else ids
  {
    if i > 0 {
      var more := ids[1..];
      assert ids[..i][0] == ids[0] && more[..i - 1] == ids[..i][1..];
      EraseAt(more, id, i - 1);
      EraseLater(ids, id);
      if i < |ids| {
        hide Erase;
        assert more[i..] == ids[i + 1..] && ids[..i] == [ids[0]] + more[..i - 1];
      }
    }
  }

  lemma EraseLater(ids: seq<int>, id: int)
    requires ids != [] && ids[0] != id
    ensures Erase(ids, id) == [ids[0]] + Erase(ids[1..], id)
  {
  }

  lemma {:induction false} EraseMembers(ids: seq<int>, id: int, other: int)
    requires Distinct(ids)
    ensures Distinct(Erase(ids, id))
    ensures other in Erase(ids, id) <==> other in ids && other != id
  {
    if ids != [] && ids[0] != id {
      EraseMembers(ids[1..], id, other);
      EraseMembers(ids[1..], id, ids[0]);
    }
  }

  /** The lists hold each live object once and nothing else. */
  ghost predicate Holds(lists: Lists, live: set<Obj>)
  {
    && (forall kind :: Distinct(lists.Get(kind)))
    && (forall o: Obj :: o in live <==> o.id in lists.Get(o.kind))
  }

  lemma PushHolds(lists: Lists, live: set<Obj>, o: Obj)
    requires Holds(lists, live) && o !in live
    ensures Holds(lists.Push(o), live + {o})
  {
    var after := lists.Push(o);
    forall p: Obj
      ensures p in live + {o} <==> p.id in after.Get(p.kind)
    {
      assert p.kind == o.kind ==> (p == o <==> p.id == o.id);
    }
  }

  lemma DropHolds(lists: Lists, live: set<Obj>, o: Obj)
    requires Holds(lists, live)
    ensures Holds(lists.Drop(o), live - {o})
  {
    var after := lists.Drop(o);
    EraseMembers(lists.Get(o.kind), o.id, o.id);
    forall p: Obj
      ensures p in live - {o} <==> p.id in after.Get(p.kind)
    {
      EraseMembers(lists.Get(o.kind), o.id, p.id);
      assert p.kind == o.kind ==> (p == o <==> p.id == o.id);
    }
  }

  // ----- reading lines -----

  function PlayLine(lists: Lists, line: Line): Lists
  {
    match line
    case Born(o) => lists.Push(o)
    case Dies(o) => lists.Drop(o)
    case Other => lists
  }

  function PlayLines(lists: Lists, lines: seq<Line>): Lists
  {
    if lines == [] then lists else PlayLine(PlayLines(lists, lines[..|lines| - 1]), lines[|lines| - 1])
  }

  predicate Known(lives: map<Obj, Life>, lines: seq<Line>)
  {
    forall k :: 0 <= k < |lines| && lines[k].Dies? ==> lines[k].obj in lives
  }

  function UnplayLine(lists: Lists, line: Line, lives: map<Obj, Life>): Lists
    requires line.Dies? ==> line.obj in lives
  {
    match line
    case Born(o) => lists.Drop(o)
    case Dies(o) => if lives[o].end > lives[o].start then lists.Push(o) else lists
    case Other => lists
  }

  function UnplayLines(lists: Lists, lines: seq<Line>, lives: map<Obj, Life>): Lists
    requires Known(lives, lines)
  {
    if lines == [] then lists
    else
      assert lines[|lines| - 1].Dies? ==> lines[|lines| - 1].obj in lives;
      UnplayLine(UnplayLines(lists, lines[..|lines| - 1], lives), lines[|lines| - 1], lives)
  }

  /** The objects that die in a later frame than the one they are born in. */
  function Outliving(lives: map<Obj, Life>): set<Obj>
  {
    set o | o in lives && lives[o].end > lives[o].start
  }

  lemma {:induction false} PlayHolds(lists: Lists, live: set<Obj>, lines: seq<Line>)
    requires Holds(lists, live) && FrameTidy(lines)
    requires forall o :: Born(o) in lines ==> o !in live
    ensures Holds(PlayLines(lists, lines), Forward(live, lines))
  {
    if lines != [] {
      var rest, line := lines[..|lines| - 1], lines[|lines| - 1];
      PlayHolds(lists, live, rest);
      match line
      case Born(o) =>
        assert line in lines;
        ForwardMember(live, rest, o);
        PushHolds(PlayLines(lists, rest), Forward(live, rest), o);
      case Dies(o) =>
        DropHolds(PlayLines(lists, rest), Forward(live, rest), o);
      case Other =>
    }
  }

  lemma {:induction false} UnplayHolds(lists: Lists, live: set<Obj>, lines: seq<Line>, lives: map<Obj, Life>)
    requires Holds(lists, live) && FrameTidy(lines) && Known(lives, lines)
    requires forall o :: Dies(o) in lines ==> o !in live
    ensures Holds(UnplayLines(lists, lines, lives), Backward(live, lines, Outliving(lives)))
  {
    if lines != [] {
      var rest, line := lines[..|lines| - 1], lines[|lines| - 1];
      UnplayHolds(lists, live, rest, lives);
      match line
      case Born(o) =>
        DropHolds(UnplayLines(lists, rest, lives), Backward(live, rest, Outliving(lives)), o);
      case Dies(o) =>
        assert line in lines;
        BackwardMember(live, rest, Outliving(lives), o);
        if o in Outliving(lives) {
          PushHolds(UnplayLines(lists, rest, lives), Backward(live, rest, Outliving(lives)), o);
        }
      case Other =>
    }
  }
}
