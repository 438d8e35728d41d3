/** The pool of locale entries: a list sorted by file name, filled recursively with the less specific locales that an
    entry inherits from. */
module LocalePool {
  import opened Basics
  import opened Masks
  import opened MessageIndex
  import opened LocaleNames
  import opened LocaleFile

  // ----- the entries an entry inherits from -----

  /** An absolute language leaves the directories out. */
  function Effective(r: Request): Request
  {
    if |r.parts.language| > 0 && r.parts.language[0] == SLASH then r.(dirs := []) else r
  }

  function PoolName(r: Request): Text { Name(Effective(r)) }

  function Count(r: Request): nat { if r.dirs == [] then 1 else |r.dirs| }

  /** The requests for one mask: one for each directory. */
  function Each(r: Request, c: nat): seq<Request>
  {
    if Count(r) > 1 then Split(r, c, r.dirs) else [r.(mask := c)]
  }

  function Split(r: Request, c: nat, dirs: seq<Text>): seq<Request>
  {
    if dirs == [] then [] else [r.(mask := c, dirs := [dirs[0]])] + Split(r, c, dirs[1..])
  }

  function Down(r: Request, top: int): seq<Request>
    decreases top
  {
    if top < 0 then [] else (if Eligible(top, r.mask) then Each(r, top) else []) + Down(r, top - 1)
  }

  /** The highest mask to inherit from: a real list of directories has no file of its own. */
  function Top(r: Request): int { if Count(r) > 1 then r.mask else r.mask - 1 }

  function Fallbacks(r: Request): seq<Request> { Down(r, Top(r)) }

  /** The pointers that the source allocates for an entry. */
  function Slots(r: Request): nat
  {
    Count(r) * Power(Pop(r.mask)) + (if Count(r) > 1 then 1 else 0) + 1
  }

  lemma {:induction false} SplitIs(r: Request, c: nat, dirs: seq<Text>)
    ensures |Split(r, c, dirs)| == |dirs|
    ensures forall i :: 0 <= i < |dirs| ==> Split(r, c, dirs)[i] == r.(mask := c, dirs := [dirs[i]])
  {
    if dirs != [] { SplitIs(r, c, dirs[1..]); }
  }

  /** The fallbacks for one mask, one for each directory. */
  lemma NextBlock(q: Request, cnt: nat, n: nat, all: seq<Request>)
    requires q.Proper() && cnt <= Top(q) && Eligible(cnt, q.mask) && n <= |all| && all[n..] == Down(q, cnt)
    ensures n + Count(q) <= |all| && all[n + Count(q)..] == Down(q, cnt - 1)
    ensures forall k :: 0 <= k < Count(q) ==> all[n + k] == Nth(q, cnt, k)
  {
    EachIs(q, cnt);
    assert all == all[..n] + (Each(q, cnt) + Down(q, cnt - 1));
    assert forall k :: 0 <= k < Count(q) ==> all[n + k] == Each(q, cnt)[k] == Nth(q, cnt, k);
  }

  lemma NoBlock(q: Request, cnt: nat)
    requires !Eligible(cnt, q.mask)
    ensures Down(q, cnt) == Down(q, cnt - 1)
  {
  }

  lemma EachIs(r: Request, c: nat)
    ensures |Each(r, c)| == Count(r)
    ensures forall i :: 0 <= i < Count(r) ==>
              Each(r, c)[i] == if Count(r) > 1 then r.(mask := c, dirs := [r.dirs[i]]) else r.(mask := c)
  {
    SplitIs(r, c, r.dirs);
  }

  /** Exactly the admissible submasks, each with every directory. */
  lemma {:induction false} DownExactly(r: Request, top: int, s: Request)
    ensures s in Down(r, top) <==>
              && s.mask <= top && Eligible(s.mask, r.mask)
              && if Count(r) > 1 then exists i :: 0 <= i < |r.dirs| && s == r.(mask := s.mask, dirs := [r.dirs[i]])
                 else s == r.(mask := s.mask)
    decreases top
  {
    if top >= 0 {
      DownExactly(r, top - 1, s);
      EachIs(r, top);
    }
  }

  /** With a real list of directories, an entry inherits from every admissible mask under its own, itself included, in
      each directory; otherwise from those properly under its own. */
  lemma FallbacksExactly(r: Request, s: Request)
    ensures |r.dirs| > 1 ==>
              (s in Fallbacks(r) <==>
                 Eligible(s.mask, r.mask)
                 && exists i :: 0 <= i < |r.dirs| && s == r.(mask := s.mask, dirs := [r.dirs[i]]))
    ensures |r.dirs| <= 1 ==>
              (s in Fallbacks(r) <==> Eligible(s.mask, r.mask) && s.mask != r.mask && s == r.(mask := s.mask))
  {
    DownExactly(r, Top(r), s);
    if Submask(s.mask, r.mask) {
      SubmaskIsLess(s.mask, r.mask);
    }
  }

  /** An absolute language stands at the front of the name, any other behind the directories. */
  lemma PoolNameBegins(r: Request)
    ensures |r.parts.language| > 0 && r.parts.language[0] == 47 ==> r.parts.language <= PoolName(r)
    ensures |r.parts.language| > 0 && r.parts.language[0] != 47 ==> Place(r.dirs) + r.parts.language <= PoolName(r)
  {
    hide MidName, EndName, Has;
    var q := Effective(r);
    var tail := Part(Has(q.mask, TERRITORY), UNDERSCORE, q.parts.territory)
      + Part(Has(q.mask, XPG_CODESET), DOT, q.parts.codeset);
    Assembled(Place(q.dirs), q.parts.language, tail, Part(Has(q.mask, XPG_NORM_CODESET), DOT, q.parts.normalized),
              MidName(q.mask, q.parts), EndName(q.mask, q.parts), [SLASH] + q.filename);
  }

  lemma Assembled(a: Text, b: Text, c: Text, d: Text, e: Text, f: Text, g: Text)
    ensures a + b <= a + (b + c + d) + e + f + g
  {
  }

  predicate MasksFall(s: seq<Request>, strictly: bool)
  {
    forall i, j :: 0 <= i < j < |s| ==> s[i].mask >= s[j].mask && (strictly ==> s[i].mask > s[j].mask)
  }

  lemma BlockFalls(block: seq<Request>, rest: seq<Request>, top: nat)
    requires MasksFall(rest, |block| == 1)
    requires forall i :: 0 <= i < |block| ==> block[i].mask == top
    requires forall j :: 0 <= j < |rest| ==> rest[j].mask < top
    ensures MasksFall(block + rest, |block| == 1)
  {
  }

  /** In falling order of their masks; strictly, if there is one directory. */
  lemma {:induction false} DownFalls(r: Request, top: int)
    ensures MasksFall(Down(r, top), Count(r) == 1)
    decreases top
  {
    if top >= 0 {
      var rest := Down(r, top - 1);
      DownFalls(r, top - 1);
      if Eligible(top, r.mask) {
        EachIs(r, top);
        forall j | 0 <= j < |rest|
          ensures rest[j].mask < top
        {
          DownExactly(r, top - 1, rest[j]);
        }
        BlockFalls(Each(r, top), rest, top);
      } else {
        assert [] + rest == rest;
      }
    }
  }

  lemma {:induction false} DownCount(r: Request, top: int)
    ensures |Down(r, top)| == |Chosen(r.mask, top)| * Count(r)
    decreases top
  {
    if top >= 0 {
      DownCount(r, top - 1);
      EachIs(r, top);
      OneMore(|Chosen(r.mask, top - 1)|, Count(r));
      assert |Chosen(r.mask, top)| == |Chosen(r.mask, top - 1)| + if Eligible(top, r.mask) then 1 else 0;
    }
  }

  /** The allocated pointers hold all the fallbacks and the final null pointer. */
  lemma FallbacksFit(r: Request)
    ensures |Fallbacks(r)| <= Count(r) * Power(Pop(r.mask)) && |Fallbacks(r)| < Slots(r)
    ensures Count(r) == 1 ==> |Fallbacks(r)| <= Power(Pop(r.mask)) - 1
  {
    DownCount(r, Top(r));
    ChosenFit(r.mask);
    Times(|Chosen(r.mask, Top(r))|, Power(Pop(r.mask)), Count(r));
  }

  lemma Times(a: nat, b: nat, n: nat)
    requires a <= b
    ensures a * n <= n * b
  {
  }

  // ----- the pool -----

  class Entry {
    const filename: Text
    const decided: bool
    const successor: array<Entry?>
    var next: Entry?

    constructor (filename: Text, decided: bool, slots: nat)
      ensures this.filename == filename && this.decided == decided && next == null
      ensures fresh(successor) && successor.Length == slots
    {
      this.filename, this.decided, next := filename, decided, null;
      successor := new Entry?[slots](_ => null);
    }
  }

  /** Falling order of file names. */
  predicate Falls(entries: seq<Entry>)
  {
    forall i, j :: 0 <= i < j < |entries| ==> Strcmp(entries[i].filename, entries[j].filename) > 0
  }

  lemma FallsUnique(entries: seq<Entry>, i: nat, j: nat)
    requires Falls(entries) && i < |entries| && j < |entries| && entries[i].filename == entries[j].filename
    ensures i == j
  {
    StrcmpIsOrder(entries[i].filename, entries[j].filename, []);
  }

  lemma FallsDistinct(entries: seq<Entry>)
    requires Falls(entries)
    ensures forall i, j :: 0 <= i < j < |entries| ==> entries[i] != entries[j]
  {
    forall i, j | 0 <= i < j < |entries|
      ensures entries[i] != entries[j]
    {
      StrcmpIsOrder(entries[i].filename, entries[j].filename, []);
    }
  }

  /** No other entry of the pool has the name of `e`. */
  predicate OnlyOne(entries: seq<Entry>, e: Entry)
  {
    forall x :: x in entries && x.filename == e.filename ==> x == e
  }

  lemma FallsOnlyOne(entries: seq<Entry>, e: Entry)
    requires Falls(entries) && e in entries
    ensures OnlyOne(entries, e)
  {
    var i :| 0 <= i < |entries| && entries[i] == e;
    forall x | x in entries && x.filename == e.filename
      ensures x == e
    {
      var j :| 0 <= j < |entries| && entries[j] == x;
      FallsUnique(entries, i, j);
    }
  }

  lemma FallsInsert(entries: seq<Entry>, i: nat, e: Entry)
    requires Falls(entries) && i <= |entries|
    requires forall j :: 0 <= j < i ==> Strcmp(entries[j].filename, e.filename) > 0
    requires forall j :: i <= j < |entries| ==> Strcmp(entries[j].filename, e.filename) < 0
    ensures Falls(entries[..i] + [e] + entries[i..])
  {
    forall j | i <= j < |entries|
      ensures Strcmp(e.filename, entries[j].filename) > 0
    {
      StrcmpIsOrder(entries[j].filename, e.filename, []);
    }
  }

  predicate Named(entries: seq<Entry>, name: Text)
  {
    exists i :: 0 <= i < |entries| && entries[i].filename == name
  }

  /** The first successors of `e` are the pool's entries for `subs`. */
  ghost predicate Filled(e: Entry, subs: seq<Request>, entries: seq<Entry>)
    reads e.successor
  {
    && |subs| <= e.successor.Length
    && forall i :: 0 <= i < |subs| ==>
         e.successor[i] != null && e.successor[i].filename == PoolName(subs[i]) && e.successor[i] in entries
  }

  /** `e` is the entry for `q`, with all its fallbacks and a final null pointer. */
  ghost predicate Inherits(e: Entry, q: Request, entries: seq<Entry>)
    reads e.successor
  {
    && e.filename == Name(q) && Filled(e, Fallbacks(q), entries)
    && e.successor.Length == Slots(q) && |Fallbacks(q)| < Slots(q) && e.successor[|Fallbacks(q)|] == null
    && e.decided == (Count(q) > 1 || (Has(q.mask, XPG_CODESET) && Has(q.mask, XPG_NORM_CODESET)))
  }

  ghost predicate Finished(e: Entry, entries: seq<Entry>)
    reads e.successor
  {
    exists q: Request :: q == Effective(q) && Inherits(e, q, entries)
  }

  /** Every entry but the open ones is finished. */
  ghost predicate Complete(entries: seq<Entry>, open: set<Entry>)
    reads set e | e in entries :: e.successor
  {
    forall e :: e in entries && e !in open ==> Finished(e, entries)
  }

  /** The first component of the measure: a list of directories comes before its single directories. */
  function Rank(r: Request): nat { if Count(r) > 1 then 1 else 0 }

  /** `e` has its successors to itself. */
  ghost predicate Apart(entries: seq<Entry>, e: Entry)
  {
    forall x :: x in entries && x != e ==> x.successor != e.successor
  }

  /** The pool is in order while `e` is being filled in. */
  ghost predicate Filling(entries: seq<Entry>, e: Entry, open: set<Entry>)
    reads set x | x in entries :: x.successor
  {
    Falls(entries) && e in entries && Apart(entries, e) && Complete(entries, open + {e})
  }

  predicate Keeps(before: seq<Entry>, entries: seq<Entry>)
  {
    forall x :: x in before ==> x in entries
  }

  function Nth(r: Request, c: nat, i: nat): (s: Request)
    requires r.Proper() && i < Count(r) && c <= Top(r)
    ensures i < |Each(r, c)| && s == Each(r, c)[i] && s.Proper()
    ensures Rank(s) < Rank(r) || (Rank(s) == Rank(r) && s.mask < r.mask)
  {
    EachIs(r, c);
    if Count(r) > 1 then r.(mask := c, dirs := [r.dirs[i]]) else r.(mask := c)
  }

  /** The entry at a position of the list, or the null pointer that ends it. */
  ghost function Link(entries: seq<Entry>, i: nat): Entry? { if i < |entries| then entries[i] else null }

  ghost function Before(entries: seq<Entry>, i: nat): Entry?
    requires i <= |entries|
  {
    if i == 0 then null else entries[i - 1]
  }

  /** The links lead through these entries. */
  ghost predicate Chained(head: Entry?, entries: seq<Entry>)
    reads entries
  {
    head == Link(entries, 0) && forall i :: 0 <= i < |entries| ==> entries[i].next == Link(entries, i + 1)
  }

  lemma Shifted(was: seq<Entry>, i: nat, e: Entry)
    requires i <= |was|
    ensures var all := was[..i] + [e] + was[i..];
            && (forall j :: 0 <= j < i ==> Link(all, j) == Link(was, j)) && Link(all, i) == e
            && (forall j :: i <= j <= |was| ==> Link(all, j + 1) == Link(was, j))
  {
  }

  class Pool {
    var head: Entry?
    ghost var entries: seq<Entry>

    ghost predicate Linked()
      reads this, entries
    {
      Chained(head, entries)
    }

    ghost function Nodes(): set<Entry>
      reads this
    {
      set x | x in entries
    }

    constructor ()
      ensures Linked() && entries == []
    {
      head, entries := null, [];
    }

    /** Walks down the list to the entry with the name, or past those that come before it; `last` is the entry whose
        link leads to that place, null for the head of the list. */
    method Find(name: Text) returns (found: Entry?, last: Entry?, ghost i: nat)
      requires Linked() && Falls(entries)
      ensures found != null <==> Named(entries, name)
      ensures i <= |entries| && last == Before(entries, i)
      ensures found != null ==> found in entries && found.filename == name
      ensures found == null ==> forall j :: 0 <= j < i ==> Strcmp(entries[j].filename, name) > 0
      ensures found == null ==> forall j :: i <= j < |entries| ==> Strcmp(entries[j].filename, name) < 0
    {
      found, last, i := head, null, 0;
      while found != null
        invariant i <= |entries| && found == Link(entries, i) && last == Before(entries, i)
        invariant forall j :: 0 <= j < i ==> Strcmp(entries[j].filename, name) > 0
        decreases |entries| - i
      {
        var compare := Strcmp(found.filename, name);
        StrcmpIsOrder(found.filename, name, []);
        if compare == 0 {
          return;
        }
        if compare < 0 {
          PastIt(entries, i, name);
          found := null;
          return;
        }
        last, found, i := found, found.next, i + 1;
      }
      Absent(entries, name);
    }

    /** Splices a new entry into the list, behind `last` or at the head. */
    method Insert(last: Entry?, ghost i: nat, q: Request, name: Text) returns (e: Entry)
      requires Linked() && Falls(entries) && i <= |entries| && last == Before(entries, i)
      requires forall j :: 0 <= j < i ==> Strcmp(entries[j].filename, name) > 0
      requires forall j :: i <= j < |entries| ==> Strcmp(entries[j].filename, name) < 0
      modifies this`head, this`entries, Nodes()`next
      ensures fresh(e) && fresh(e.successor) && e.filename == name && e.successor.Length == Slots(q)
      ensures e.decided == (Count(q) > 1 || (Has(q.mask, XPG_CODESET) && Has(q.mask, XPG_NORM_CODESET)))
      ensures entries == old(entries)[..i] + [e] + old(entries)[i..] && Falls(entries) && Linked()
    {
      e := new Entry(name, Count(q) > 1 || (Has(q.mask, XPG_CODESET) && Has(q.mask, XPG_NORM_CODESET)), Slots(q));
      FallsInsert(entries, i, e);
      Splice(last, i, e);
    }

    method Splice(last: Entry?, ghost i: nat, e: Entry)
      requires Linked() && i <= |entries| && last == Before(entries, i)
      requires e !in entries && Falls(entries[..i] + [e] + entries[i..])
      modifies this`head, this`entries, e`next, Nodes()`next
      ensures entries == old(entries)[..i] + [e] + old(entries)[i..] && Linked()
    {
      hide Falls;
      ghost var was, all := entries, entries[..i] + [e] + entries[i..];
      FallsDistinct(all);
      Shifted(was, i, e);
      if last == null {
        e.next := head;
        head := e;
      } else {
        e.next := last.next;
        last.next := e;
      }
      entries := all;
      forall j | 0 <= j < |all|
        ensures all[j].next == Link(all, j + 1)
      {
        if j < i {
          assert all[j] == was[j];
        } else if j > i {
          assert all[j] == was[j - 1] && was[j - 1].next == Link(was, j);
        }
      }
    }

    /** Finds the entry for a request, or makes it together with everything it inherits from. */
    method MakeList(r: Request, allocate: bool, ghost open: set<Entry>) returns (e: Entry?)
      requires Linked() && r.Proper() && Falls(entries) && Complete(entries, open)
      modifies this`head, this`entries, Nodes()`next
      ensures Linked() && Falls(entries) && Complete(entries, open)
      ensures Keeps(old(entries), entries)
      ensures forall x :: x in entries ==> x in old(entries) || (fresh(x) && fresh(x.successor))
      ensures Named(old(entries), PoolName(r)) || !allocate ==> entries == old(entries)
      ensures e == null <==> !allocate && !Named(old(entries), PoolName(r))
      ensures e != null ==> e in entries && e.filename == PoolName(r) && OnlyOne(entries, e)
      ensures allocate && !Named(old(entries), PoolName(r)) ==> fresh(e) && Inherits(e, Effective(r), entries)
      decreases Rank(r), r.mask, 1
    {
      var q := Effective(r);
      var buf := MakeName(q);
      var name := buf[..buf.Length - 1];
      assert name == PoolName(r);
      var found, last;
      ghost var i;
      found, last, i := Find(name);
      if found != null {
        FallsOnlyOne(entries, found);
        return found;
      }
      if !allocate {
        return null;
      }
      e := MakeEntry(last, i, q, open);
      FallsOnlyOne(entries, e);
    }

    method MakeEntry(last: Entry?, ghost i: nat, q: Request, ghost open: set<Entry>) returns (e: Entry)
      requires Linked() && q.Proper() && q == Effective(q) && Falls(entries) && Complete(entries, open)
      requires i <= |entries| && last == Before(entries, i)
      requires forall j :: 0 <= j < i ==> Strcmp(entries[j].filename, Name(q)) > 0
      requires forall j :: i <= j < |entries| ==> Strcmp(entries[j].filename, Name(q)) < 0
      modifies this`head, this`entries, Nodes()`next
      ensures Linked() && Falls(entries) && Complete(entries, open)
      ensures Keeps(old(entries), entries)
      ensures forall x :: x in entries ==> x in old(entries) || (fresh(x) && fresh(x.successor))
      ensures fresh(e) && e in entries && Inherits(e, q, entries)
      decreases Rank(q), q.mask, 0, 2
    {
      hide Chained, Falls, Complete, Inherits, Name, Strcmp, Slots, Apart, Finished;
      e := Insert(last, i, q, Name(q));
      StartFilling(old(entries), entries, e, open);
      FallbacksFit(q);
      var n: nat := 0;
      var cnt := Top(q);
      while cnt >= 0
        invariant Linked() && Filling(entries, e, open) && Keeps(old(entries), entries)
        invariant forall x :: x in entries ==> x in old(entries) || (fresh(x) && fresh(x.successor))
        invariant -1 <= cnt <= Top(q) && n <= |Fallbacks(q)|
        invariant Fallbacks(q)[n..] == Down(q, cnt) && Filled(e, Fallbacks(q)[..n], entries)
      {
        n := FillMask(e, q, cnt, n, open);
        cnt := cnt - 1;
      }
      Finish(e, q, n, open);
    }

    /** Ends the list of successors. */
    method Finish(e: Entry, q: Request, n: nat, ghost open: set<Entry>)
      requires Filling(entries, e, open) && e.filename == Name(q) && q == Effective(q)
      requires n == |Fallbacks(q)| < e.successor.Length == Slots(q) && Filled(e, Fallbacks(q), entries)
      requires e.decided == (Count(q) > 1 || (Has(q.mask, XPG_CODESET) && Has(q.mask, XPG_NORM_CODESET)))
      modifies e.successor
      ensures Complete(entries, open) && Inherits(e, q, entries)
    {
      e.successor[n] := null;
      forall x | x in entries && x !in open
        ensures Finished(x, entries)
      {
        if x == e {
          assert Inherits(e, q, entries);
        }
      }
    }

    /** Fills in the successors for one mask, if it is one to inherit from. */
    method FillMask(e: Entry, q: Request, cnt: nat, n: nat, ghost open: set<Entry>) returns (m: nat)
      requires Linked() && q.Proper() && cnt <= Top(q) && Filling(entries, e, open)
      requires n <= |Fallbacks(q)| < e.successor.Length
      requires Fallbacks(q)[n..] == Down(q, cnt) && Filled(e, Fallbacks(q)[..n], entries)
      modifies this`head, this`entries, Nodes()`next, e.successor
      ensures Linked() && Filling(entries, e, open) && Keeps(old(entries), entries)
      ensures forall x :: x in entries ==> x in old(entries) || (fresh(x) && fresh(x.successor))
      ensures m <= |Fallbacks(q)| && Fallbacks(q)[m..] == Down(q, cnt - 1) && Filled(e, Fallbacks(q)[..m], entries)
      decreases Rank(q), q.mask, 0, 1
    {
      hide Fallbacks, Down, Nth, Filled, Filling, Eligible;
      m := n;
      if Eligible(cnt, q.mask) {
        ghost var all := Fallbacks(q);
        NextBlock(q, cnt, n, all);
        FillBlock(e, q, cnt, n, all, open);
        m := n + Count(q);
      } else {
        NoBlock(q, cnt);
      }
    }

    method FillBlock(e: Entry, q: Request, cnt: nat, n: nat, ghost all: seq<Request>, ghost open: set<Entry>)
      requires Linked() && q.Proper() && cnt <= Top(q) && Filling(entries, e, open)
      requires n + Count(q) <= |all| < e.successor.Length && Filled(e, all[..n], entries)
      requires forall k :: 0 <= k < Count(q) ==> all[n + k] == Nth(q, cnt, k)
      modifies this`head, this`entries, Nodes()`next, e.successor
      ensures Linked() && Filling(entries, e, open) && Keeps(old(entries), entries)
      ensures forall x :: x in entries ==> x in old(entries) || (fresh(x) && fresh(x.successor))
      ensures Filled(e, all[..n + Count(q)], entries)
      decreases Rank(q), q.mask, 0, 0
    {
      hide Chained, Filling, Filled, Nth;
      var k := 0;
      while k < Count(q)
        invariant k <= Count(q)
        invariant Linked() && Filling(entries, e, open) && Keeps(old(entries), entries)
        invariant forall x :: x in entries ==> x in old(entries) || (fresh(x) && fresh(x.successor))
        invariant Filled(e, all[..n + k], entries)
      {
        var s := Nth(q, cnt, k);
        FillOne(e, s, all, n + k, open);
        k := k + 1;
      }
    }

    /** Fills in one successor. */
    method FillOne(e: Entry, s: Request, ghost all: seq<Request>, m: nat, ghost open: set<Entry>)
      requires Linked() && s.Proper() && Filling(entries, e, open)
      requires m < |all| < e.successor.Length && Filled(e, all[..m], entries) && s == all[m]
      modifies this`head, this`entries, Nodes()`next, e.successor
      ensures Linked() && Filling(entries, e, open) && Keeps(old(entries), entries)
      ensures forall x :: x in entries ==> x in old(entries) || (fresh(x) && fresh(x.successor))
      ensures Filled(e, all[..m + 1], entries)
      decreases Rank(s), s.mask, 2, 0
    {
      hide Chained, Falls, Complete, Filled;
      ghost var before, done := entries, all[..m];
      assert all[..m + 1] == done + [s];
      var found := MakeList(s, true, open + {e});
      StillFilled(e, done, before, entries);
      SetSuccessor(e, s, found, done, m, open);
    }

    method SetSuccessor(e: Entry, s: Request, found: Entry, ghost done: seq<Request>, m: nat, ghost open: set<Entry>)
      requires Filling(entries, e, open) && found in entries && found.filename == PoolName(s)
      requires m == |done| < e.successor.Length && Filled(e, done, entries)
      modifies e.successor
      ensures Filling(entries, e, open) && Filled(e, done + [s], entries)
    {
      hide Chained, Falls, Finished, Inherits, PoolName;
      e.successor[m] := found;
      assert forall i :: 0 <= i < m ==> (done + [s])[i] == done[i];
      forall x | x in entries && x !in open + {e}
        ensures Finished(x, entries)
      {
        assert x.successor != e.successor;
      }
    }
  }

  lemma StillFilled(e: Entry, subs: seq<Request>, before: seq<Entry>, entries: seq<Entry>)
    requires Filled(e, subs, before) && Keeps(before, entries)
    ensures Filled(e, subs, entries)
  {
  }

  lemma StartFilling(before: seq<Entry>, entries: seq<Entry>, e: Entry, open: set<Entry>)
    requires Complete(before, open) && Falls(entries) && e in entries
    requires forall x :: x in entries <==> x in before || x == e
    requires forall x :: x in before ==> x.successor != e.successor
    ensures Filling(entries, e, open)
  {
    forall x | x in entries && x !in open + {e}
      ensures Finished(x, entries)
    {
      var q: Request :| q == Effective(q) && Inherits(x, q, before);
      assert Inherits(x, q, entries);
    }
  }

  /** Below the first smaller name there is nothing but smaller ones. */
  lemma PastIt(entries: seq<Entry>, i: nat, name: Text)
    requires Falls(entries) && i < |entries| && Strcmp(entries[i].filename, name) < 0
    requires forall j :: 0 <= j < i ==> Strcmp(entries[j].filename, name) > 0
    ensures forall j :: i <= j < |entries| ==> Strcmp(entries[j].filename, name) < 0
    ensures !Named(entries, name)
  {
    forall j | i <= j < |entries|
      ensures Strcmp(entries[j].filename, name) < 0
    {
      if j > i {
        StrcmpIsOrder(entries[j].filename, entries[i].filename, name);
      }
    }
    Absent(entries, name);
  }

  lemma Absent(entries: seq<Entry>, name: Text)
    requires forall j :: 0 <= j < |entries| ==> Strcmp(entries[j].filename, name) != 0
    ensures !Named(entries, name)
  {
    if Named(entries, name) {
      var j :| 0 <= j < |entries| && entries[j].filename == name;
      StrcmpIsOrder(entries[j].filename, name, []);
    }
  }
}
