/** The system-dependent strings of a catalogue: which of them are usable on this system, and what they mean. */
module SysdepSegments {
  import opened MessageIndex

  const SEGMENTS_END: nat := 0xFFFF_FFFF

  /** A piece of static text, then a reference to a system-dependent piece or the end mark. */
  datatype Segment = Segment(segsize: nat, ref: nat)

  /** The static bytes of a string, one piece after another, and the segments that cut them up. */
  datatype SysdepString = SysdepString(bytes: Text, segments: seq<Segment>)

  /** The text of a system-dependent piece on this system, if there is one. */
  datatype Value = Undefined | Defined(text: Text)

  /** The segments reach an end mark, and the static bytes suffice: what the file format promises. */
  predicate Complete(bytes: Text, segs: seq<Segment>)
  {
    segs != [] && segs[0].segsize <= |bytes|
    && (segs[0].ref != SEGMENTS_END ==> Complete(bytes[segs[0].segsize..], segs[1..]))
  }

  predicate WellFormed(s: SysdepString) { Complete(s.bytes, s.segments) }

  datatype Verdict = Good | Dropped | Corrupt

  /** A string with a dangling reference makes the file corrupt, one with an undefined piece is dropped;
      the first offending segment decides. */
  function Judge(segs: seq<Segment>, values: seq<Value>): Verdict
  {
    if segs == [] || segs[0].ref == SEGMENTS_END then Good
    else if segs[0].ref >= |values| then Corrupt
    else if values[segs[0].ref].Undefined? then Dropped
    else Judge(segs[1..], values)
  }

  /** The text meant: static pieces and expanded references in turn. */
  function Expand(bytes: Text, segs: seq<Segment>, values: seq<Value>): Text
    requires Complete(bytes, segs) && Judge(segs, values) == Good
  {
    var n := segs[0].segsize;
    if segs[0].ref == SEGMENTS_END then bytes[..n]
    else bytes[..n] + values[segs[0].ref].text + Expand(bytes[n..], segs[1..], values)
  }

  function Meaning(s: SysdepString, values: seq<Value>): Text
    requires WellFormed(s) && Judge(s.segments, values) == Good
  {
    Expand(s.bytes, s.segments, values)
  }

  // ----- the verdict, by the segments -----

  /** The segment refers to a piece that this system has. */
  predicate Passes(segment: Segment, values: seq<Value>)
  {
    segment.ref != SEGMENTS_END && segment.ref < |values| && values[segment.ref].Defined?
  }

  /** Segment `i` is the first that does not. */
  predicate StopsAt(segs: seq<Segment>, values: seq<Value>, i: nat)
  {
    i < |segs| && !Passes(segs[i], values) && forall k :: 0 <= k < i ==> Passes(segs[k], values)
  }

  /** The first that does not is a dangling reference. */
  predicate Dangles(segs: seq<Segment>, values: seq<Value>)
  {
    exists i :: 0 <= i < |segs| && StopsAt(segs, values, i) && segs[i].ref != SEGMENTS_END && segs[i].ref >= |values|
  }

  /** The first that does not refers to a piece that this system lacks. */
  predicate Lacks(segs: seq<Segment>, values: seq<Value>)
  {
    exists i :: 0 <= i < |segs| && StopsAt(segs, values, i) && segs[i].ref != SEGMENTS_END && segs[i].ref < |values|
  }

  /** The first that does not is the end mark. */
  predicate Ends(segs: seq<Segment>, values: seq<Value>)
  {
    exists i :: 0 <= i < |segs| && StopsAt(segs, values, i) && segs[i].ref == SEGMENTS_END
  }

  lemma StopsNext(segs: seq<Segment>, values: seq<Value>, i: nat)
    requires segs != [] && Passes(segs[0], values)
    ensures StopsAt(segs, values, i + 1) <==> StopsAt(segs[1..], values, i)
  {
    if StopsAt(segs[1..], values, i) {
      forall k | 0 <= k < i + 1 ensures Passes(segs[k], values) {
        if k > 0 { assert segs[k] == segs[1..][k - 1]; }
      }
    }
    if StopsAt(segs, values, i + 1) {
      forall k | 0 <= k < i ensures Passes(segs[1..][k], values) {
        assert segs[1..][k] == segs[k + 1];
      }
    }
  }

  /** Where a string is decided. */
  lemma {:induction false} Decided(bytes: Text, segs: seq<Segment>, values: seq<Value>) returns (i: nat)
    requires Complete(bytes, segs)
    ensures StopsAt(segs, values, i)
    ensures Judge(segs, values) ==
            if segs[i].ref == SEGMENTS_END then Good else if segs[i].ref >= |values| then Corrupt else Dropped
  {
    i := 0;
    if Passes(segs[0], values) {
      i := Decided(bytes[segs[0].segsize..], segs[1..], values);
      StopsNext(segs, values, i);
      i := i + 1;
    }
  }

  lemma StopsOnce(segs: seq<Segment>, values: seq<Value>, i: nat, j: nat)
    requires StopsAt(segs, values, i) && StopsAt(segs, values, j)
    ensures i == j
  {
  }

  /** The verdict on a string: corrupt, dropped or good by the first segment that is not a reference to a piece of this
      system. */
  lemma JudgeByFirst(bytes: Text, segs: seq<Segment>, values: seq<Value>)
    requires Complete(bytes, segs)
    ensures Judge(segs, values) == Corrupt <==> Dangles(segs, values)
    ensures Judge(segs, values) == Dropped <==> Lacks(segs, values)
    ensures Judge(segs, values) == Good <==> Ends(segs, values)
  {
    var i := Decided(bytes, segs, values);
    hide StopsAt, Judge;
    forall j | StopsAt(segs, values, j)
      ensures i == j
    {
      StopsOnce(segs, values, i, j);
    }
  }

  type Pair = (SysdepString, SysdepString)

  /** Original first; the translation matters only if the original is good. */
  function JudgePair(p: Pair, values: seq<Value>): Verdict
  {
    if Judge(p.0.segments, values) == Good then Judge(p.1.segments, values) else Judge(p.0.segments, values)
  }

  function GoodPairs(pairs: seq<Pair>, values: seq<Value>): (good: seq<Pair>)
    ensures forall p :: p in good ==> p in pairs && JudgePair(p, values) == Good
  {
    if pairs == [] then []
    else
      var m := |pairs| - 1;
      GoodPairs(pairs[..m], values) + if JudgePair(pairs[m], values) == Good then [pairs[m]] else []
  }

  /** A pair makes the file corrupt if its original does, or the original is good and the translation does. */
  predicate PairDangles(p: Pair, values: seq<Value>)
  {
    Dangles(p.0.segments, values) || (Ends(p.0.segments, values) && Dangles(p.1.segments, values))
  }

  predicate PairEnds(p: Pair, values: seq<Value>) { Ends(p.0.segments, values) && Ends(p.1.segments, values) }

  lemma JudgePairByFirst(p: Pair, values: seq<Value>)
    requires WellFormed(p.0) && WellFormed(p.1)
    ensures JudgePair(p, values) == Corrupt <==> PairDangles(p, values)
    ensures JudgePair(p, values) == Good <==> PairEnds(p, values)
  {
    JudgeByFirst(p.0.bytes, p.0.segments, values);
    JudgeByFirst(p.1.bytes, p.1.segments, values);
    hide Judge, Dangles, Lacks, Ends;
  }

  /** These are the pairs whose strings both reach their end mark, in the order of the file: `picks` are their
      places. */
  ghost predicate Picked(pairs: seq<Pair>, values: seq<Value>, picks: seq<nat>, good: seq<Pair>)
  {
    && |picks| == |good| && (forall j, k :: 0 <= j < k < |picks| ==> picks[j] < picks[k])
    && (forall j :: 0 <= j < |picks| ==> picks[j] < |pairs| && pairs[picks[j]] == good[j])
    && (forall i :: 0 <= i < |pairs| ==> (i in picks <==> PairEnds(pairs[i], values)))
  }

  lemma PickedMore(pairs: seq<Pair>, values: seq<Value>, picks: seq<nat>, good: seq<Pair>, p: Pair)
    requires Picked(pairs, values, picks, good)
    ensures PairEnds(p, values) ==> Picked(pairs + [p], values, picks + [|pairs|], good + [p])
    ensures !PairEnds(p, values) ==> Picked(pairs + [p], values, picks, good)
  {
    hide PairEnds;
    var more := picks + [|pairs|];
    assert more[|picks|] == |pairs| && forall j :: 0 <= j < |picks| ==> more[j] == picks[j];
    assert forall i :: i in more <==> i in picks || i == |pairs|;
  }

  /** The good pairs are those whose strings both reach their end mark, in the order of the file. */
  lemma {:induction false} GoodPairsByFirst(pairs: seq<Pair>, values: seq<Value>) returns (picks: seq<nat>)
    requires forall p :: p in pairs ==> WellFormed(p.0) && WellFormed(p.1)
    ensures Picked(pairs, values, picks, GoodPairs(pairs, values))
  {
    picks := [];
    if pairs != [] {
      var m := |pairs| - 1;
      picks := GoodPairsByFirst(pairs[..m], values);
      assert pairs[m] in pairs && pairs == pairs[..m] + [pairs[m]];
      JudgePairByFirst(pairs[m], values);
      PickedMore(pairs[..m], values, picks, GoodPairs(pairs[..m], values), pairs[m]);
      hide JudgePair, PairEnds, Picked;
      if JudgePair(pairs[m], values) == Good {
        picks := picks + [m];
      } else {
        assert GoodPairs(pairs[..m], values) + [] == GoodPairs(pairs[..m], values);
      }
    }
  }

  // ----- the meaning, by the segments -----

  /** The static bytes that belong to the first `k` segments. */
  function Static(segs: seq<Segment>, k: nat): nat
    requires k <= |segs|
  {
    if k == 0 then 0 else Static(segs, k - 1) + segs[k - 1].segsize
  }

  /** Where the static piece of segment `k` stands in the text. */
  function Place(segs: seq<Segment>, values: seq<Value>, k: nat): nat
    requires k <= |segs| && forall j :: 0 <= j < k ==> Passes(segs[j], values)
  {
    if k == 0 then 0
    else
      assert Passes(segs[k - 1], values);
      Place(segs, values, k - 1) + segs[k - 1].segsize + |values[segs[k - 1].ref].text|
  }

  lemma {:induction false} StaticNext(segs: seq<Segment>, k: nat)
    requires k < |segs|
    ensures Static(segs, k + 1) == segs[0].segsize + Static(segs[1..], k)
  {
    if k > 0 {
      StaticNext(segs, k - 1);
    } else {
      assert Static(segs, 1) == Static(segs, 0) + segs[0].segsize;
    }
  }

  lemma {:induction false} PlaceNext(segs: seq<Segment>, values: seq<Value>, k: nat)
    requires k < |segs| && forall j :: 0 <= j <= k ==> Passes(segs[j], values)
    ensures forall j :: 0 <= j < k ==> Passes(segs[1..][j], values)
    ensures Place(segs, values, k + 1) ==
            segs[0].segsize + |values[segs[0].ref].text| + Place(segs[1..], values, k)
  {
    forall j | 0 <= j < k ensures Passes(segs[1..][j], values) {
      assert segs[1..][j] == segs[j + 1];
    }
    if k > 0 {
      PlaceNext(segs, values, k - 1);
    } else {
      assert Place(segs, values, 1) == Place(segs, values, 0) + segs[0].segsize + |values[segs[0].ref].text|;
    }
  }

  /** `n` of the string's bytes stand in the text. */
  predicate Copied(text: Text, at: nat, bytes: Text, from: nat, n: nat)
  {
    from + n <= |bytes| && at + n <= |text| && text[at..at + n] == bytes[from..from + n]
  }

  predicate Holds(text: Text, from: nat, to: nat, value: Text) { from <= to <= |text| && text[from..to] == value }

  lemma CopiedBehind(front: Text, text: Text, at: nat, bytes: Text, skip: nat, from: nat, n: nat)
    requires skip <= |bytes| && Copied(text, at, bytes[skip..], from, n)
    ensures Copied(front + text, |front| + at, bytes, skip + from, n)
  {
    assert (front + text)[|front| + at..|front| + at + n] == text[at..at + n];
    assert bytes[skip..][from..from + n] == bytes[skip + from..skip + from + n];
  }

  lemma HoldsBehind(front: Text, text: Text, from: nat, to: nat, value: Text)
    requires Holds(text, from, to, value)
    ensures Holds(front + text, |front| + from, |front| + to, value)
  {
    assert (front + text)[|front| + from..|front| + to] == text[from..to];
  }

  /** Segment `k` of the text: its static piece stands in its place, and behind it the system's piece, if the string
      does not end here. */
  ghost predicate StandsIn(text: Text, bytes: Text, segs: seq<Segment>, values: seq<Value>, i: nat, k: nat)
    requires k <= i && StopsAt(segs, values, i)
  {
    assert k < i ==> Passes(segs[k], values);
    var n, at := segs[k].segsize, Place(segs, values, k);
    && Copied(text, at, bytes, Static(segs, k), n)
    && (k == i ==> |text| == at + n)
    && (k < i ==> Holds(text, at + n, Place(segs, values, k + 1), values[segs[k].ref].text))
  }

  lemma ExpandOne(bytes: Text, segs: seq<Segment>, values: seq<Value>, i: nat)
    requires Complete(bytes, segs) && Judge(segs, values) == Good && StopsAt(segs, values, i)
    ensures StandsIn(Expand(bytes, segs, values), bytes, segs, values, i, 0)
  {
    if i > 0 {
      assert Passes(segs[0], values);
      var n, value := segs[0].segsize, values[segs[0].ref].text;
      assert Place(segs, values, 1) == Place(segs, values, 0) + n + |value|;
    }
  }

  /** The text of a good string, segment by segment: pieces of its own bytes, in order and without a gap, and the
      system's pieces in between; nothing follows the end mark. */
  lemma {:induction false} MeaningBySegments(bytes: Text, segs: seq<Segment>, values: seq<Value>, i: nat, k: nat)
    requires Complete(bytes, segs) && Judge(segs, values) == Good && StopsAt(segs, values, i) && k <= i
    ensures StandsIn(Expand(bytes, segs, values), bytes, segs, values, i, k)
    decreases k
  {
    if k == 0 {
      ExpandOne(bytes, segs, values, i);
    } else {
      assert Passes(segs[0], values);
      var n, value := segs[0].segsize, values[segs[0].ref].text;
      StopsNext(segs, values, i - 1);
      MeaningBySegments(bytes[n..], segs[1..], values, i - 1, k - 1);
      StandsNext(bytes, segs, values, i, k, Expand(bytes[n..], segs[1..], values));
    }
  }

  lemma ShiftNext(segs: seq<Segment>, values: seq<Value>, i: nat, k: nat)
    requires 0 < k <= i && StopsAt(segs, values, i) && StopsAt(segs[1..], values, i - 1)
    ensures segs[1..][k - 1] == segs[k] && Passes(segs[0], values)
    ensures Static(segs, k) == segs[0].segsize + Static(segs[1..], k - 1)
    ensures Place(segs, values, k) == segs[0].segsize + |values[segs[0].ref].text| + Place(segs[1..], values, k - 1)
  {
    StaticNext(segs, k - 1);
    PlaceNext(segs, values, k - 1);
  }

  lemma StandsNext(bytes: Text, segs: seq<Segment>, values: seq<Value>, i: nat, k: nat, rest: Text)
    requires 0 < k <= i && StopsAt(segs, values, i) && Passes(segs[0], values) && segs[0].segsize <= |bytes|
    requires StopsAt(segs[1..], values, i - 1)
    requires StandsIn(rest, bytes[segs[0].segsize..], segs[1..], values, i - 1, k - 1)
    ensures StandsIn(bytes[..segs[0].segsize] + values[segs[0].ref].text + rest, bytes, segs, values, i, k)
  {
    ShiftNext(segs, values, i, k);
    if k < i {
      ShiftNext(segs, values, i, k + 1);
      assert Passes(segs[k], values);
    }
    hide Static, Place, StopsAt, Passes, Copied, Holds;
    var n, value := segs[0].segsize, values[segs[0].ref].text;
    var front := bytes[..n] + value;
    var m, at := segs[k].segsize, Place(segs[1..], values, k - 1);
    CopiedBehind(front, rest, at, bytes, n, Static(segs[1..], k - 1), m);
    if k < i {
      HoldsBehind(front, rest, at + m, Place(segs[1..], values, k), values[segs[k].ref].text);
    }
  }
}
