/** System-dependent strings of a catalogue are assembled from segments in two passes: one sizes the memory,
    one fills it.  The passes must agree to the byte. */
module SysdepStrings {
  import opened MessageIndex
  import opened SysdepSegments

  const WORD: nat := 4         // sizeof (nls_uint32)
  const DESCRIPTOR: nat := 16  // sizeof (struct sysdep_string_desc): a size and a pointer

  /** A string of a single static piece stays in the file; any other is copied to memory. */
  function Need(s: SysdepString, values: seq<Value>): nat
    requires WellFormed(s) && Judge(s.segments, values) == Good
  {
    if s.segments[0].ref == SEGMENTS_END then 0 else |Meaning(s, values)|
  }

  predicate AllWellFormed(pairs: seq<Pair>)
  {
    forall p :: p in pairs ==> WellFormed(p.0) && WellFormed(p.1)
  }

  predicate AllGood(pairs: seq<Pair>, values: seq<Value>)
  {
    AllWellFormed(pairs) && forall p :: p in pairs ==> JudgePair(p, values) == Good
  }

  function Needs(pairs: seq<Pair>, values: seq<Value>): nat
    requires AllGood(pairs, values)
  {
    if pairs == [] then 0
    else
      var p := pairs[|pairs| - 1];
      Needs(pairs[..|pairs| - 1], values) + Need(p.0, values) + Need(p.1, values)
  }

  // ----- the sizing pass -----

  /** Walks the segments of one string, adding up its size. */
  method SizeString(s: SysdepString, values: seq<Value>) returns (verdict: Verdict, need: nat)
    requires WellFormed(s)
    ensures verdict == Judge(s.segments, values)
    ensures verdict == Corrupt <==> Dangles(s.segments, values)
    ensures verdict == Dropped <==> Lacks(s.segments, values)
    ensures verdict == Good <==> Ends(s.segments, values)
    ensures verdict == Good ==> need == Need(s, values)
  {
    JudgeByFirst(s.bytes, s.segments, values);
    hide Dangles, Lacks, Ends;
    need := 0;
    if s.segments[0].ref == SEGMENTS_END { return Good, 0; }
    ghost var bytes, segs := s.bytes, s.segments;
    var p := 0;
    while true
      invariant p < |s.segments| && segs == s.segments[p..] && Complete(bytes, segs)
      invariant Judge(segs, values) == Judge(s.segments, values)
      invariant Judge(segs, values) == Good ==> need + |Expand(bytes, segs, values)| == |Meaning(s, values)|
      decreases |s.segments| - p
    {
      need := need + s.segments[p].segsize;
      var sysdepref := s.segments[p].ref;
      if sysdepref == SEGMENTS_END { return Good, need; }
      if sysdepref >= |values| { return Corrupt, need; }
      if values[sysdepref].Undefined? { return Dropped, need; }
      need := need + |values[sysdepref].text|;
      bytes, segs := bytes[segs[0].segsize..], segs[1..];
      p := p + 1;
    }
  }

  method SizePair(p: Pair, values: seq<Value>) returns (verdict: Verdict, need: nat)
    requires WellFormed(p.0) && WellFormed(p.1)
    ensures verdict == JudgePair(p, values)
    ensures verdict == Good ==> need == Need(p.0, values) + Need(p.1, values)
  {
    verdict, need := SizeString(p.0, values);
    if verdict == Good {
      var need1;
      verdict, need1 := SizeString(p.1, values);
      need := need + need1;
    }
  }

  /** Adds one pair to the count and the size. */
  method SizeOne(pairs: seq<Pair>, values: seq<Value>, i: nat, count: nat, memneed: nat, ghost good: seq<Pair>)
    returns (verdict: Verdict, count': nat, memneed': nat, ghost good': seq<Pair>)
    requires AllWellFormed(pairs) && i < |pairs| && good == GoodPairs(pairs[..i], values) && AllGood(good, values)
    ensures pairs[i] in pairs && verdict == JudgePair(pairs[i], values)
    ensures good' == GoodPairs(pairs[..i + 1], values) && AllGood(good', values)
    ensures count' - count == |good'| - |good| && memneed' - memneed == Needs(good', values) - Needs(good, values)
  {
    GoodPairsStep(pairs, values, i);
    var need;
    verdict, need := SizePair(pairs[i], values);
    count', memneed' := count, memneed;
    if verdict == Good {
      count' := count + 1;
      memneed' := memneed + need;
    }
    good' := SizedNext(good, pairs[i], values, verdict);
  }

  /** No pair has a dangling reference that counts. */
  ghost predicate NoneDangles(pairs: seq<Pair>, values: seq<Value>)
  {
    forall p :: p in pairs ==> !PairDangles(p, values)
  }

  lemma NoneDanglesMore(pairs: seq<Pair>, values: seq<Value>, i: nat)
    requires AllWellFormed(pairs) && i < |pairs| && NoneDangles(pairs[..i], values)
    ensures JudgePair(pairs[i], values) != Corrupt ==> NoneDangles(pairs[..i + 1], values)
    ensures JudgePair(pairs[i], values) == Corrupt ==> !NoneDangles(pairs, values)
  {
    assert pairs[i] in pairs;
    JudgePairByFirst(pairs[i], values);
    hide JudgePair, PairDangles;
    assert pairs[..i + 1] == pairs[..i] + [pairs[i]];
  }

  lemma NotCorrupt(pairs: seq<Pair>, values: seq<Value>, p: Pair)
    requires AllWellFormed(pairs) && NoneDangles(pairs, values) && p in pairs
    ensures JudgePair(p, values) != Corrupt
  {
    JudgePairByFirst(p, values);
  }

  /** What the pairs so far need. */
  ghost predicate Sized(pairs: seq<Pair>, values: seq<Value>, i: nat, base: nat, count: nat, memneed: nat)
  {
    && i <= |pairs| && NoneDangles(pairs[..i], values)
    && var good := GoodPairs(pairs[..i], values);
       AllGood(good, values) && count == |good| && memneed == base + Needs(good, values)
  }

  /** The number of good pairs and the memory for tables and texts; not ok means a corrupt file. */
  method SizingPass(pairs: seq<Pair>, values: seq<Value>, hashSize: nat) returns (ok: bool, count: nat, memneed: nat)
    requires AllWellFormed(pairs)
    ensures ok <==> NoneDangles(pairs, values)
    ensures ok ==> count == |GoodPairs(pairs, values)|
    ensures ok ==> memneed == hashSize * WORD + Needs(GoodPairs(pairs, values), values) + 2 * count * DESCRIPTOR
  {
    var base := hashSize * WORD;
    count, memneed := 0, base;
    for i := 0 to |pairs|
      invariant Sized(pairs, values, i, base, count, memneed)
    {
      ok, count, memneed := SizeNext(pairs, values, i, base, count, memneed);
      if !ok { return; }
    }
    assert pairs[..|pairs|] == pairs;
    memneed := memneed + 2 * count * DESCRIPTOR;
    ok := true;
  }

  method SizeNext(pairs: seq<Pair>, values: seq<Value>, i: nat, base: nat, count: nat, memneed: nat)
    returns (ok: bool, count': nat, memneed': nat)
    requires AllWellFormed(pairs) && i < |pairs| && Sized(pairs, values, i, base, count, memneed)
    ensures ok ==> Sized(pairs, values, i + 1, base, count', memneed')
    ensures !ok ==> !NoneDangles(pairs, values)
  {
    NoneDanglesMore(pairs, values, i);
    var verdict;
    ghost var good;
    verdict, count', memneed', good := SizeOne(pairs, values, i, count, memneed, GoodPairs(pairs[..i], values));
    ok := verdict != Corrupt;
  }

  lemma SizedNext(good: seq<Pair>, p: Pair, values: seq<Value>, verdict: Verdict) returns (next: seq<Pair>)
    requires AllGood(good, values) && WellFormed(p.0) && WellFormed(p.1) && verdict == JudgePair(p, values)
    ensures next == good + (if verdict == Good then [p] else []) && AllGood(next, values)
    ensures Needs(next, values) == Needs(good, values)
              + if verdict == Good then Need(p.0, values) + Need(p.1, values) else 0
  {
    if verdict == Good {
      NeedsMore(good, p, values);
      next := good + [p];
    } else {
      next := good;
      assert good + [] == good;
    }
  }

  lemma GoodPairsStep(pairs: seq<Pair>, values: seq<Value>, i: nat)
    requires i < |pairs| && AllWellFormed(pairs)
    ensures pairs[i] in pairs && WellFormed(pairs[i].0) && WellFormed(pairs[i].1)
    ensures GoodPairs(pairs[..i + 1], values)
         == GoodPairs(pairs[..i], values) + if JudgePair(pairs[i], values) == Good then [pairs[i]] else []
  {
    assert pairs[..i + 1][..i] == pairs[..i];
    assert pairs[i] in pairs;
  }

  lemma NeedsMore(good: seq<Pair>, p: Pair, values: seq<Value>)
    requires AllGood(good, values) && AllGood([p], values)
    ensures AllGood(good + [p], values)
    ensures Needs(good + [p], values) == Needs(good, values) + Need(p.0, values) + Need(p.1, values)
  {
    assert (good + [p])[..|good|] == good;
    assert p in [p];
  }

  // ----- the filling pass -----

  /** Where an assembled string lives: in the file, or in the memory just allocated. */
  datatype Descriptor = InFile(text: Text) | InMemory(start: nat, length: nat)

  /** What the descriptor points at; strings in memory end before `limit`. */
  predicate Describes(d: Descriptor, mem: seq<bv8>, limit: nat, text: Text)
  {
    match d
    case InFile(t) => t == text
    case InMemory(start, length) => start + length <= limit <= |mem| && mem[start..start + length] == text
  }

  /** The validity test repeated: it needs no range check, as corrupt files were refused. */
  method CheckString(s: SysdepString, values: seq<Value>) returns (valid: bool)
    requires WellFormed(s) && Judge(s.segments, values) != Corrupt
    ensures valid <==> Judge(s.segments, values) == Good
  {
    ghost var bytes, segs := s.bytes, s.segments;
    var p := 0;
    while s.segments[p].ref != SEGMENTS_END
      invariant p < |s.segments| && segs == s.segments[p..] && Complete(bytes, segs)
      invariant Judge(segs, values) == Judge(s.segments, values)
      decreases |s.segments| - p
    {
      if values[s.segments[p].ref].Undefined? { return false; }
      bytes, segs := bytes[segs[0].segsize..], segs[1..];
      p := p + 1;
    }
    return true;
  }

  method CopyTo(mem: array<bv8>, at: nat, text: Text) returns (end: nat)
    requires at + |text| <= mem.Length
    modifies mem
    ensures end == at + |text|
    ensures mem[..end] == old(mem[..at]) + text
  {
    end := at + |text|;
    for i := 0 to |text|
      invariant mem[..at + i] == old(mem[..at]) + text[..i]
    {
      mem[at + i] := text[i];
      assert mem[..at + i + 1] == mem[..at + i] + [text[i]];
    }
  }

  /** A static piece, then the expansion of the reference behind it. */
  method CopyPiece(mem: array<bv8>, at: nat, piece: Text, value: Text) returns (end: nat)
    requires at + |piece| + |value| <= mem.Length
    modifies mem
    ensures end == at + |piece| + |value| && mem[..end] == old(mem[..at]) + (piece + value)
  {
    end := at;
    if |piece| > 0 { end := CopyTo(mem, end, piece); }
    assert mem[..end] == old(mem[..at]) + piece;
    end := CopyTo(mem, end, value);
  }

  method CopyLast(mem: array<bv8>, at: nat, piece: Text, ghost before: Text, ghost done: Text, ghost meaning: Text)
    returns (end: nat)
    requires done + piece == meaning && mem.Length >= at >= |done| && mem[..at] == before + done
    requires |before| + |meaning| <= mem.Length
    modifies mem
    ensures end == |before| + |meaning| && mem[..end] == before + meaning
  {
    assert |done| + |piece| == |meaning| && at == |before| + |done|;
    end := CopyTo(mem, at, piece);
    assert (before + done) + piece == before + (done + piece);
  }

  lemma ExpandStep(bytes: Text, segs: seq<Segment>, values: seq<Value>, done: Text, meaning: Text)
    requires Complete(bytes, segs) && Judge(segs, values) == Good && done + Expand(bytes, segs, values) == meaning
    ensures segs[0].ref == SEGMENTS_END ==> done + bytes[..segs[0].segsize] == meaning
    ensures segs[0].ref != SEGMENTS_END ==>
              segs[0].ref < |values| && values[segs[0].ref].Defined?
              && Complete(bytes[segs[0].segsize..], segs[1..]) && Judge(segs[1..], values) == Good
              && (done + (bytes[..segs[0].segsize] + values[segs[0].ref].text))
                 + Expand(bytes[segs[0].segsize..], segs[1..], values) == meaning
  {
  }

  /** The segments before `p`, with the static bytes before `from`, have been expanded to `done`. */
  ghost predicate Midway(s: SysdepString, values: seq<Value>, p: nat, from: nat, done: Text)
    requires WellFormed(s) && Judge(s.segments, values) == Good
  {
    && p < |s.segments| && from <= |s.bytes|
    && Complete(s.bytes[from..], s.segments[p..]) && Judge(s.segments[p..], values) == Good
    && done + Expand(s.bytes[from..], s.segments[p..], values) == Meaning(s, values)
  }

  lemma MidwayNext(s: SysdepString, values: seq<Value>, p: nat, from: nat, done: Text)
    requires WellFormed(s) && Judge(s.segments, values) == Good && Midway(s, values, p, from, done)
    ensures from + s.segments[p].segsize <= |s.bytes|
    ensures var n, ref := s.segments[p].segsize, s.segments[p].ref;
            if ref == SEGMENTS_END then done + s.bytes[from..from + n] == Meaning(s, values)
            else
              && ref < |values| && values[ref].Defined?
              && var more := done + (s.bytes[from..from + n] + values[ref].text);
                 Midway(s, values, p + 1, from + n, more) && |more| <= |Meaning(s, values)|
  {
    var bytes, segs, n := s.bytes[from..], s.segments[p..], s.segments[p].segsize;
    ExpandStep(bytes, segs, values, done, Meaning(s, values));
    assert segs[1..] == s.segments[p + 1..] && bytes[n..] == s.bytes[from + n..]
        && bytes[..n] == s.bytes[from..from + n];
  }

  /** Copies the segments of a good string to `at`. */
  method FillSegments(s: SysdepString, values: seq<Value>, mem: array<bv8>, at: nat) returns (end: nat)
    requires WellFormed(s) && Judge(s.segments, values) == Good && at + |Meaning(s, values)| <= mem.Length
    modifies mem
    ensures end == at + |Meaning(s, values)| && mem[..end] == old(mem[..at]) + Meaning(s, values)
  {
    hide Judge, Expand;
    ghost var before := mem[..at];
    ghost var done: Text := [];
    end := at;
    var p: nat, from: nat := 0, 0;
    assert s.bytes[0..] == s.bytes && s.segments[0..] == s.segments;
    while s.segments[p].ref != SEGMENTS_END
      invariant Midway(s, values, p, from, done)
      invariant end == at + |done| <= mem.Length && mem[..end] == before + done
      decreases |s.segments| - p
    {
      MidwayNext(s, values, p, from, done);
      var segsize, sysdepref := s.segments[p].segsize, s.segments[p].ref;
      var piece, value := s.bytes[from..from + segsize], values[sysdepref].text;
      end := CopyPiece(mem, end, piece, value);
      AppendThree(before, done, piece + value);
      done := done + (piece + value);
      p, from := p + 1, from + segsize;
    }
    MidwayNext(s, values, p, from, done);
    var last := s.bytes[from..from + s.segments[p].segsize];
    end := CopyLast(mem, end, last, before, done, Meaning(s, values));
  }

  lemma AppendThree(a: Text, b: Text, c: Text)
    ensures (a + b) + c == a + (b + c)
  {
  }

  /** Assembles one good string at `at`, or leaves it in the file. */
  method FillString(s: SysdepString, values: seq<Value>, mem: array<bv8>, at: nat) returns (d: Descriptor, end: nat)
    requires WellFormed(s) && Judge(s.segments, values) == Good && at + Need(s, values) <= mem.Length
    modifies mem
    ensures end == at + Need(s, values) <= mem.Length && mem[..at] == old(mem[..at])
    ensures Describes(d, mem[..], end, Meaning(s, values))
  {
    if s.segments[0].ref == SEGMENTS_END {
      return InFile(s.bytes[..s.segments[0].segsize]), at;
    }
    end := FillSegments(s, values, mem, at);
    d := InMemory(at, end - at);
    assert mem[..at] == mem[..end][..at];
    assert mem[..][at..end] == mem[..end][at..];
  }

  // ----- both passes together -----

  lemma GoodAreGood(pairs: seq<Pair>, values: seq<Value>, i: nat)
    requires i <= |pairs| && AllWellFormed(pairs)
    ensures AllGood(GoodPairs(pairs[..i], values), values)
  {
    forall p | p in GoodPairs(pairs[..i], values) ensures p in pairs { assert p in pairs[..i]; }
  }

  /** The first `i` pairs come to at most what all come to. */
  lemma {:induction false} NeedsGrow(pairs: seq<Pair>, values: seq<Value>, i: nat)
    requires i <= |pairs| && AllWellFormed(pairs)
    ensures AllGood(GoodPairs(pairs[..i], values), values) && AllGood(GoodPairs(pairs, values), values)
    ensures Needs(GoodPairs(pairs[..i], values), values) <= Needs(GoodPairs(pairs, values), values)
    ensures |GoodPairs(pairs[..i], values)| <= |GoodPairs(pairs, values)|
    decreases |pairs| - i
  {
    if i == |pairs| {
      assert pairs[..i] == pairs;
      GoodAreGood(pairs, values, i);
    } else {
      NeedsGrow(pairs, values, i + 1);
      NeedsGrowStep(pairs, values, i);
    }
  }

  lemma NeedsGrowStep(pairs: seq<Pair>, values: seq<Value>, i: nat)
    requires i < |pairs| && AllWellFormed(pairs) && AllGood(GoodPairs(pairs[..i + 1], values), values)
    ensures AllGood(GoodPairs(pairs[..i], values), values)
    ensures Needs(GoodPairs(pairs[..i], values), values) <= Needs(GoodPairs(pairs[..i + 1], values), values)
    ensures |GoodPairs(pairs[..i], values)| <= |GoodPairs(pairs[..i + 1], values)|
  {
    GoodPairsStep(pairs, values, i);
    GoodAreGood(pairs, values, i);
    var good := GoodPairs(pairs[..i], values);
    if JudgePair(pairs[i], values) == Good {
      NeedsMore(good, pairs[i], values);
    } else {
      assert good + [] == good;
    }
  }

  /** The descriptors describe the pairs' originals and translations. */
  predicate DescribesAll(orig: seq<Descriptor>, trans: seq<Descriptor>, mem: seq<bv8>, limit: nat, good: seq<Pair>,
                         values: seq<Value>)
    requires AllGood(good, values) && |orig| == |trans| == |good|
  {
    forall j :: 0 <= j < |good| ==> DescribesPair(orig[j], trans[j], mem, limit, good[j], values)
  }

  predicate DescribesPair(d0: Descriptor, d1: Descriptor, mem: seq<bv8>, limit: nat, p: Pair, values: seq<Value>)
  {
    WellFormed(p.0) && WellFormed(p.1) && JudgePair(p, values) == Good
    && Describes(d0, mem, limit, Meaning(p.0, values)) && Describes(d1, mem, limit, Meaning(p.1, values))
  }

  method FillPair(p: Pair, values: seq<Value>, mem: array<bv8>, at: nat)
    returns (d0: Descriptor, d1: Descriptor, end: nat)
    requires AllGood([p], values) && p in [p] && at + Need(p.0, values) + Need(p.1, values) <= mem.Length
    modifies mem
    ensures end == at + Need(p.0, values) + Need(p.1, values) <= mem.Length && mem[..at] == old(mem[..at])
    ensures Describes(d0, mem[..], end, Meaning(p.0, values))
    ensures Describes(d1, mem[..], end, Meaning(p.1, values))
  {
    var mid;
    d0, mid := FillString(p.0, values, mem, at);
    ghost var was := mem[..];
    d1, end := FillString(p.1, values, mem, mid);
    assert mem[..at] == mem[..mid][..at] == was[..mid][..at];
    StillDescribes(d0, was, mem[..], mid, end, Meaning(p.0, values));
  }

  /** Writing behind the limit disturbs no string before it. */
  lemma StillDescribes(d: Descriptor, was: seq<bv8>, now: seq<bv8>, limit: nat, limit': nat, text: Text)
    requires Describes(d, was, limit, text) && limit <= limit' <= |now| && limit <= |was|
        && was[..limit] == now[..limit]
    ensures Describes(d, now, limit', text)
  {
    if d.InMemory? {
      assert was[d.start..d.start + d.length] == was[..limit][d.start..d.start + d.length];
      assert now[d.start..d.start + d.length] == now[..limit][d.start..d.start + d.length];
    }
  }

  lemma StillDescribesAll(orig: seq<Descriptor>, trans: seq<Descriptor>, was: seq<bv8>, now: seq<bv8>, limit: nat,
                          limit': nat, good: seq<Pair>, values: seq<Value>)
    requires AllGood(good, values) && |orig| == |trans| == |good| && DescribesAll(orig, trans, was, limit, good, values)
    requires limit <= limit' <= |now| && limit <= |was| && was[..limit] == now[..limit]
    ensures DescribesAll(orig, trans, now, limit', good, values)
  {
    forall j | 0 <= j < |good| ensures DescribesPair(orig[j], trans[j], now, limit', good[j], values) {
      assert DescribesPair(orig[j], trans[j], was, limit, good[j], values);
      StillDescribes(orig[j], was, now, limit, limit', Meaning(good[j].0, values));
      StillDescribes(trans[j], was, now, limit, limit', Meaning(good[j].1, values));
    }
  }

  lemma DescribesOneMore(orig: seq<Descriptor>, trans: seq<Descriptor>, d0: Descriptor, d1: Descriptor, mem: seq<bv8>,
                         limit: nat, good: seq<Pair>, p: Pair, values: seq<Value>)
    requires AllGood(good, values) && |orig| == |trans| == |good| && DescribesAll(orig, trans, mem, limit, good, values)
    requires AllGood(good + [p], values) && DescribesPair(d0, d1, mem, limit, p, values)
    ensures DescribesAll(orig + [d0], trans + [d1], mem, limit, good + [p], values)
  {
  }

  /** The good pairs among the first `i + 1`, and the room they still leave. */
  lemma NextGood(pairs: seq<Pair>, values: seq<Value>, i: nat, good: seq<Pair>) returns (next: seq<Pair>)
    requires i < |pairs| && AllWellFormed(pairs) && good == GoodPairs(pairs[..i], values) && AllGood(good, values)
    ensures WellFormed(pairs[i].0) && WellFormed(pairs[i].1) && pairs[i] in pairs
    ensures next == GoodPairs(pairs[..i + 1], values) && AllGood(next, values)
        && AllGood(GoodPairs(pairs, values), values)
    ensures next == if JudgePair(pairs[i], values) == Good then good + [pairs[i]] else good
    ensures Needs(next, values) <= Needs(GoodPairs(pairs, values), values) && |next| <= |GoodPairs(pairs, values)|
    ensures JudgePair(pairs[i], values) == Good ==>
              Needs(next, values) == Needs(good, values) + Need(pairs[i].0, values) + Need(pairs[i].1, values)
  {
    GoodPairsStep(pairs, values, i);
    NeedsGrow(pairs, values, i + 1);
    next := GoodPairs(pairs[..i + 1], values);
    if JudgePair(pairs[i], values) == Good {
      NeedsMore(good, pairs[i], values);
    } else {
      assert good + [] == good;
    }
  }

  /** Decides about one pair and, if it is good, assembles it. */
  method FillNext(p: Pair, values: seq<Value>, mem: array<bv8>, at: nat)
    returns (valid: bool, d0: Descriptor, d1: Descriptor, end: nat)
    requires WellFormed(p.0) && WellFormed(p.1) && JudgePair(p, values) != Corrupt && at <= mem.Length
    requires JudgePair(p, values) == Good ==> at + Need(p.0, values) + Need(p.1, values) <= mem.Length
    modifies mem
    ensures valid <==> JudgePair(p, values) == Good
    ensures mem[..at] == old(mem[..at]) && at <= end <= mem.Length
    ensures valid ==>
      end == at + Need(p.0, values) + Need(p.1, values) && DescribesPair(d0, d1, mem[..], end, p, values)
    ensures !valid ==> end == at
  {
    d0, d1, end := InFile([]), InFile([]), at;
    valid := CheckString(p.0, values);
    if valid { valid := CheckString(p.1, values); }
    if valid {
      assert p in [p] && forall q :: q in [p] ==> q == p;
      d0, d1, end := FillPair(p, values, mem, at);
    }
  }

  /** The filling pass on the memory that the sizing pass asked for: every good pair gets its descriptors,
      the count agrees, and the texts fill the memory to the last byte. */
  method FillingPass(pairs: seq<Pair>, values: seq<Value>, hashSize: nat, count: nat, memneed: nat)
    returns (mem: array<bv8>, orig: seq<Descriptor>, trans: seq<Descriptor>, used: nat)
    requires AllWellFormed(pairs) && NoneDangles(pairs, values)
    requires count == |GoodPairs(pairs, values)| && AllGood(GoodPairs(pairs, values), values)
    requires memneed == hashSize * WORD + Needs(GoodPairs(pairs, values), values) + 2 * count * DESCRIPTOR
    ensures |orig| == |trans| == count && used == memneed == mem.Length
    ensures DescribesAll(orig, trans, mem[..], memneed, GoodPairs(pairs, values), values)
  {
    mem := new bv8[memneed];
    orig, trans := [], [];
    var base := 2 * count * DESCRIPTOR + hashSize * WORD;
    used := base;
    ghost var good: seq<Pair> := [];
    for i := 0 to |pairs|
      invariant good == GoodPairs(pairs[..i], values) && AllGood(good, values) && |orig| == |trans| == |good|
      invariant used == base + Needs(good, values) <= mem.Length
      invariant DescribesAll(orig, trans, mem[..], used, good, values)
    {
      ghost var next := NextGood(pairs, values, i, good);
      NotCorrupt(pairs, values, pairs[i]);
      orig, trans, used := FillAndBook(pairs[i], values, mem, used, orig, trans, good);
      good := next;
    }
    assert pairs[..|pairs|] == pairs;
  }

  /** Writes the next good pair behind the ones already there. */
  method FillAndBook(p: Pair, values: seq<Value>, mem: array<bv8>, at: nat, orig: seq<Descriptor>,
                     trans: seq<Descriptor>,
                     ghost good: seq<Pair>) returns (orig': seq<Descriptor>, trans': seq<Descriptor>, end: nat)
    requires AllGood(good, values) && |orig| == |trans| == |good|
        && DescribesAll(orig, trans, mem[..], at, good, values)
    requires WellFormed(p.0) && WellFormed(p.1) && JudgePair(p, values) != Corrupt && at <= mem.Length
    requires JudgePair(p, values) == Good ==>
               AllGood(good + [p], values) && at + Need(p.0, values) + Need(p.1, values) <= mem.Length
    modifies mem
    ensures at <= end <= mem.Length
    ensures JudgePair(p, values) == Good ==>
              end == at + Need(p.0, values) + Need(p.1, values) && |orig'| == |trans'| == |good| + 1
              && DescribesAll(orig', trans', mem[..], end, good + [p], values)
    ensures JudgePair(p, values) != Good ==>
              end == at && orig' == orig && trans' == trans && DescribesAll(orig, trans, mem[..], end, good, values)
  {
    ghost var was := mem[..];
    var valid, d0, d1;
    valid, d0, d1, end := FillNext(p, values, mem, at);
    assert was[..at] == mem[..][..at];
    StillDescribesAll(orig, trans, was, mem[..], at, end, good, values);
    orig', trans' := orig, trans;
    if valid {
      DescribesOneMore(orig, trans, d0, d1, mem[..], end, good, p, values);
      orig', trans' := orig + [d0], trans + [d1];
    }
  }
}
