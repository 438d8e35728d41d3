/** Splitting a locale name into its parts, in place: a terminator is put where a part ends. */
module LocaleReader {
  import opened Masks
  import opened MessageIndex
  import opened LocaleNames

  datatype Optional = Absent | Present(text: Text)

  datatype Syntax = Undecided | Xpg | Cen

  /** The parts found in a name, and the syntax that they tell. */
  datatype Exploded = Exploded(language: Text, territory: Optional, codeset: Optional, modifier: Optional,
                               special: Optional, sponsor: Optional, revision: Optional, syntax: Syntax)

  const LANGUAGE_ENDS: set<bv8> := {UNDERSCORE, AT_SIGN, PLUS, COMMA}
  const TERRITORY_ENDS: set<bv8> := {DOT, AT_SIGN, PLUS, COMMA, UNDERSCORE}
  const AUDIENCE_ENDS: set<bv8> := {PLUS, COMMA, UNDERSCORE}

  predicate Free(s: Text, ends: set<bv8>) { forall i :: 0 <= i < |s| ==> s[i] !in ends }

  /** The length of the text before the first of the characters. */
  function Until(s: Text, ends: set<bv8>): (n: nat)
    ensures n <= |s| && Free(s[..n], ends) && (n < |s| ==> s[n] in ends)
  {
    if s == [] || s[0] in ends then 0
    else
      assert s == [s[0]] + s[1..];
      1 + Until(s[1..], ends)
  }

  lemma {:induction false} UntilAt(a: Text, b: Text, ends: set<bv8>)
    requires Free(a, ends) && (b == [] || b[0] in ends)
    ensures Until(a + b, ends) == |a|
  {
    if a == [] {
      assert a + b == b;
    } else {
      assert (a + b)[1..] == a[1..] + b;
      UntilAt(a[1..], b, ends);
    }
  }

  /** A part, if the text begins with its lead, and the text after it. */
  datatype Taken = Taken(part: Optional, rest: Text)

  function Take(s: Text, lead: bv8, ends: set<bv8>): Taken
  {
    if s == [] || s[0] != lead then Taken(Absent, s)
    else
      var n := Until(s[1..], ends);
      Taken(Present(s[1..1 + n]), s[1 + n..])
  }

  /** The parts after the language, in the XPG or in the CEN syntax. */
  function Split(language: Text, s: Text): Exploded
  {
    var t := Take(s, UNDERSCORE, TERRITORY_ENDS);
    var c := if t.part.Present? then Take(t.rest, DOT, {AT_SIGN}) else Taken(Absent, t.rest);
    var m := Take(c.rest, AT_SIGN, {});
    if c.part.Present? || m.part.Present? then
      Exploded(language, t.part, c.part, m.part, Absent, Absent, Absent, Xpg)
    else
      SplitCen(language, t.part, m.rest)
  }

  function SplitCen(language: Text, territory: Optional, s: Text): Exploded
  {
    var a := Take(s, PLUS, AUDIENCE_ENDS);
    var x := Take(a.rest, PLUS, {COMMA, UNDERSCORE});
    var o := Take(x.rest, COMMA, {UNDERSCORE});
    var r := Take(o.rest, UNDERSCORE, {});
    Exploded(language, territory, Absent, a.part, x.part, o.part, r.part,
             if s == [] then Undecided else Cen)
  }

  /** The parts of a name; a name without a language is taken as it is. */
  function Explode(s: Text): Exploded
  {
    var n := Until(s, LANGUAGE_ENDS);
    if n == 0 then Exploded(s, Absent, Absent, Absent, Absent, Absent, Absent, Undecided)
    else Split(s[..n], s[n..])
  }

  function Bit(present: bool, weight: nat): nat { if present then weight else 0 }

  predicate Filled(part: Optional) { part.Present? && part.text != [] }

  /** The mask returned: parts found, in the XPG syntax only those that are not empty. */
  function MaskOf(e: Exploded): nat
  {
    var x := e.syntax == Xpg;
    Bit(if x then Filled(e.territory) else e.territory.Present?, TERRITORY)
    + Bit(Filled(e.codeset), XPG_CODESET)
    + Bit(if x then Filled(e.modifier) else e.modifier.Present?, XPG_MODIFIER) + Bit(e.modifier.Present?, CEN_AUDIENCE)
    + Bit(e.special.Present?, CEN_SPECIAL) + Bit(e.sponsor.Present?, CEN_SPONSOR)
    + Bit(e.revision.Present?, CEN_REVISION)
  }

  /** Nothing is left over. */
  lemma SplitCenReadsAll(s: Text)
    requires s == [] || s[0] in AUDIENCE_ENDS
    ensures
      var a := Take(s, PLUS, AUDIENCE_ENDS);
      var x := Take(a.rest, PLUS, {COMMA, UNDERSCORE});
      var o := Take(x.rest, COMMA, {UNDERSCORE});
      Take(o.rest, UNDERSCORE, {}).rest == []
  {
    var a := Take(s, PLUS, AUDIENCE_ENDS);
    assert a.rest == [] || a.rest[0] in AUDIENCE_ENDS;
    var x := Take(a.rest, PLUS, {COMMA, UNDERSCORE});
    assert x.rest == [] || x.rest[0] in {COMMA, UNDERSCORE};
    var o := Take(x.rest, COMMA, {UNDERSCORE});
    assert o.rest == [] || o.rest[0] == UNDERSCORE;
  }

  lemma SplitCenFinds(s: Text)
    requires s == [] || s[0] in AUDIENCE_ENDS
    ensures
      var e := SplitCen([], Absent, s);
      s != [] <==> e.modifier.Present? || e.special.Present? || e.sponsor.Present? || e.revision.Present?
  {
  }

  lemma SplitReadsAll(s: Text)
    requires s == [] || s[0] in LANGUAGE_ENDS
    ensures
      var t := Take(s, UNDERSCORE, TERRITORY_ENDS);
      var c := if t.part.Present? then Take(t.rest, DOT, {AT_SIGN}) else Taken(Absent, t.rest);
      var m := Take(c.rest, AT_SIGN, {});
      if c.part.Present? || m.part.Present? then m.rest == [] else m.rest == [] || m.rest[0] in AUDIENCE_ENDS
  {
    var t := Take(s, UNDERSCORE, TERRITORY_ENDS);
    assert t.rest == [] || (if t.part.Present? then t.rest[0] in TERRITORY_ENDS else t.rest[0] in LANGUAGE_ENDS);
    var c := if t.part.Present? then Take(t.rest, DOT, {AT_SIGN}) else Taken(Absent, t.rest);
    assert c.part.Present? ==> c.rest == [] || c.rest[0] == AT_SIGN;
  }

  // ----- reading in place -----

  /** Where a part begins in the buffer. */
  datatype Spot = Nowhere | Somewhere(start: nat)

  /** A part that has been read stands in the buffer before `cp`, behind it a terminator if reading went on. */
  predicate Stands(name: seq<bv8>, p: Spot, part: Optional, cp: nat)
  {
    match p
    case Nowhere => part.Absent?
    case Somewhere(start) =>
      && part.Present? && Clean(part.text) && start + |part.text| <= cp < |name|
      && name[start..start + |part.text|] == part.text
      && (start + |part.text| < cp ==> name[start + |part.text|] == 0)
  }

  type Read = (Spot, Optional)

  predicate AllStand(name: seq<bv8>, parts: seq<Read>, cp: nat)
  {
    forall i :: 0 <= i < |parts| ==> Stands(name, parts[i].0, parts[i].1, cp)
  }

  /** Nothing was written, or a terminator at `cp`. */
  predicate Ended(was: seq<bv8>, now: seq<bv8>, cp: nat, end: nat)
    requires cp < |was|
  {
    (now == was && end == cp) || (now == was[cp := 0] && cp < end < |now|)
  }

  lemma StillStands(was: seq<bv8>, now: seq<bv8>, p: Spot, part: Optional, cp: nat, end: nat)
    requires cp < |was| && Stands(was, p, part, cp) && Ended(was, now, cp, end)
    ensures Stands(now, p, part, end)
  {
    if p.Somewhere? && cp < end {
      assert now[p.start..p.start + |part.text|] == was[p.start..p.start + |part.text|];
    }
  }

  /** The text still to be read begins at `cp`. */
  predicate Ahead(name: seq<bv8>, cp: nat, rest: Text)
  {
    Clean(rest) && cp + |rest| + 1 == |name| && name[cp..] == rest + [0]
  }

  /** Passes over a part. */
  method Skip(name: array<bv8>, start: nat, ends: set<bv8>, ghost rest: Text) returns (cp: nat)
    requires Ahead(name[..], start, rest)
    ensures cp == start + Until(rest, ends) && Ahead(name[..], cp, rest[Until(rest, ends)..])
    ensures name[start..cp] == rest[..Until(rest, ends)]
  {
    cp := start;
    ghost var n := Until(rest, ends);
    assert forall k :: 0 <= k <= |rest| ==> name[start + k] == name[..][start..][k] == (rest + [0])[k];
    assert forall k :: 0 <= k < n ==> rest[k] == rest[..n][k];
    while name[cp] != 0 && name[cp] !in ends
      invariant start <= cp <= start + n
      decreases name.Length - cp
    {
      assert name[start + (cp - start)] == (rest + [0])[cp - start];
      cp := cp + 1;
    }
    assert name[start + (cp - start)] == (rest + [0])[cp - start];
    assert name[..][cp..] == name[..][start..][n..] == rest[n..] + [0];
    assert name[start..cp] == name[..][start..][..n];
  }

  /** Ends the part before, if this one's lead is there, and reads this one. */
  method TakePart(name: array<bv8>, cp: nat, lead: bv8, ends: set<bv8>, ghost rest: Text) returns (p: Spot, end: nat)
    requires Ahead(name[..], cp, rest) && lead != 0
    modifies name
    ensures Ahead(name[..], end, Take(rest, lead, ends).rest)
    ensures Stands(name[..], p, Take(rest, lead, ends).part, end)
    ensures Ended(old(name[..]), name[..], cp, end)
  {
    assert name[cp] == name[..][cp..][0] == (rest + [0])[0];
    p, end := Nowhere, cp;
    if name[cp] == lead {
      assert name[..][cp + 1..] == name[..][cp..][1..] == rest[1..] + [0];
      name[cp] := 0;
      assert name[..][cp + 1..] == old(name[..])[cp + 1..];
      p := Somewhere(cp + 1);
      end := Skip(name, cp + 1, ends, rest[1..]);
      ghost var n := Until(rest[1..], ends);
      assert rest[1..][..n] == rest[1..1 + n] && rest[1..][n..] == rest[1 + n..];
    }
  }

  /** The same, with the parts read before. */
  method TakeNext(name: array<bv8>, cp: nat, lead: bv8, ends: set<bv8>, ghost rest: Text, ghost parts: seq<Read>)
    returns (p: Spot, end: nat, ghost rest': Text, ghost parts': seq<Read>)
    requires Ahead(name[..], cp, rest) && AllStand(name[..], parts, cp) && lead != 0
    modifies name
    ensures rest' == Take(rest, lead, ends).rest && parts' == parts + [(p, Take(rest, lead, ends).part)]
    ensures Ahead(name[..], end, rest') && AllStand(name[..], parts', end)
    ensures p.Somewhere? <==> Take(rest, lead, ends).part.Present?
  {
    ghost var was := name[..];
    p, end := TakePart(name, cp, lead, ends, rest);
    forall i | 0 <= i < |parts| ensures Stands(name[..], parts[i].0, parts[i].1, end) {
      StillStands(was, name[..], parts[i].0, parts[i].1, cp, end);
    }
    rest', parts' := Take(rest, lead, ends).rest, parts + [(p, Take(rest, lead, ends).part)];
  }

  /** A part is a C string of its own in the buffer. */
  predicate Holds(name: seq<bv8>, p: Spot, part: Optional)
  {
    match p
    case Nowhere => part.Absent?
    case Somewhere(start) => part.Present? && start <= |name| && CString(name[start..]) == part.text
  }

  lemma {:induction false} StringThere(bytes: Text, text: Text)
    requires |text| < |bytes| && bytes[..|text|] == text && Clean(text) && bytes[|text|] == 0
    ensures CString(bytes) == text
  {
    if text != [] {
      assert bytes[1..][..|text| - 1] == bytes[..|text|][1..] == text[1..] && bytes[0] == bytes[..|text|][0];
      StringThere(bytes[1..], text[1..]);
    }
  }

  lemma StandingHolds(name: seq<bv8>, p: Spot, part: Optional, cp: nat)
    requires Stands(name, p, part, cp) && cp < |name| && name[cp] == 0
    ensures Holds(name, p, part)
  {
    if p.Somewhere? {
      assert name[p.start..][..|part.text|] == part.text;
      StringThere(name[p.start..], part.text);
    }
  }

  /** A part is a C string within the buffer. */
  predicate HoldsRead(name: seq<bv8>, r: Read)
  {
    Holds(name, r.0, r.1) && (r.0.Somewhere? ==> r.0.start < |name|)
  }

  /** Everything has been read: the parts are C strings. */
  lemma AllHold(name: seq<bv8>, parts: seq<Read>, cp: nat)
    requires AllStand(name, parts, cp) && Ahead(name, cp, [])
    ensures forall i :: 0 <= i < |parts| ==> HoldsRead(name, parts[i])
  {
    assert name[cp] == name[cp..][0];
    forall i | 0 <= i < |parts|
      ensures HoldsRead(name, parts[i])
    {
      StandingHolds(name, parts[i].0, parts[i].1, cp);
    }
  }

  lemma FourHold(name: seq<bv8>, parts: seq<Read>, cp: nat, a: Read, b: Read, c: Read, d: Read)
    requires AllStand(name, parts, cp) && Ahead(name, cp, []) && [a, b, c, d] <= parts
    ensures HoldsRead(name, a) && HoldsRead(name, b) && HoldsRead(name, c) && HoldsRead(name, d)
  {
    AllHold(name, parts, cp);
    assert parts[0] == [a, b, c, d][0] && parts[1] == [a, b, c, d][1];
    assert parts[2] == [a, b, c, d][2] && parts[3] == [a, b, c, d][3];
  }

  lemma LastFourHold(name: seq<bv8>, front: seq<Read>, cp: nat, a: Read, b: Read, c: Read, d: Read)
    requires AllStand(name, front + [a, b, c, d], cp) && Ahead(name, cp, [])
    ensures HoldsRead(name, a) && HoldsRead(name, b) && HoldsRead(name, c) && HoldsRead(name, d)
  {
    var parts := front + [a, b, c, d];
    AllHold(name, parts, cp);
    assert parts[|front|] == a && parts[|front| + 1] == b && parts[|front| + 2] == c && parts[|front| + 3] == d;
  }

  /** The parts of the CEN syntax. */
  method ReadCen(name: array<bv8>, start: nat, ghost s: Text, ghost parts: seq<Read>)
    returns (audience: Spot, special: Spot, sponsor: Spot, revision: Spot, end: nat, ghost parts': seq<Read>)
    requires Ahead(name[..], start, s) && AllStand(name[..], parts, start) && (s == [] || s[0] in AUDIENCE_ENDS)
    modifies name
    ensures Ahead(name[..], end, []) && AllStand(name[..], parts', end)
    ensures
      var e := SplitCen([], Absent, s);
      parts' == parts + [(audience, e.modifier), (special, e.special), (sponsor, e.sponsor), (revision, e.revision)]
    ensures s != [] <==> audience.Somewhere? || special.Somewhere? || sponsor.Somewhere? || revision.Somewhere?
  {
    SplitCenReadsAll(s);
    SplitCenFinds(s);
    hide Take, AllStand, Ahead;
    ghost var a, x, o, r;
    audience, end, a, parts' := TakeNext(name, start, PLUS, AUDIENCE_ENDS, s, parts);
    special, end, x, parts' := TakeNext(name, end, PLUS, {COMMA, UNDERSCORE}, a, parts');
    sponsor, end, o, parts' := TakeNext(name, end, COMMA, {UNDERSCORE}, x, parts');
    revision, end, r, parts' := TakeNext(name, end, UNDERSCORE, {}, o, parts');
  }

  /** Territory, codeset, and a modifier of the XPG syntax. */
  method ReadXpg(name: array<bv8>, start: nat, ghost s: Text, ghost parts: seq<Read>)
    returns (territory: Spot, codeset: Spot, modifier: Spot, end: nat, ghost rest: Text, ghost parts': seq<Read>)
    requires Ahead(name[..], start, s) && AllStand(name[..], parts, start)
    modifies name
    ensures Ahead(name[..], end, rest) && AllStand(name[..], parts', end)
    ensures
      var t := Take(s, UNDERSCORE, TERRITORY_ENDS);
      var c := if t.part.Present? then Take(t.rest, DOT, {AT_SIGN}) else Taken(Absent, t.rest);
      var m := Take(c.rest, AT_SIGN, {});
      && rest == m.rest && parts' == parts + [(territory, t.part), (codeset, c.part), (modifier, m.part)]
      && (codeset.Somewhere? <==> c.part.Present?) && (modifier.Somewhere? <==> m.part.Present?)
  {
    hide Take, Ahead;
    territory, end, rest, parts' := TakeNext(name, start, UNDERSCORE, TERRITORY_ENDS, s, parts);
    if territory.Somewhere? {
      codeset, end, rest, parts' := TakeNext(name, end, DOT, {AT_SIGN}, rest, parts');
    } else {
      codeset, parts' := Nowhere, parts' + [(Nowhere, Absent)];
    }
    modifier, end, rest, parts' := TakeNext(name, end, AT_SIGN, {}, rest, parts');
  }

  /** Where the parts of a name begin. */
  datatype Places = Places(territory: Spot, codeset: Spot, modifier: Spot, special: Spot, sponsor: Spot,
                           revision: Spot)

  /** Each part is a C string of its own, where the places say. */
  predicate InPlace(name: seq<bv8>, ps: Places, e: Exploded)
  {
    && Holds(name, Somewhere(0), Present(e.language))
    && Holds(name, ps.territory, e.territory) && Holds(name, ps.codeset, e.codeset)
    && Holds(name, ps.modifier, e.modifier) && Holds(name, ps.special, e.special)
    && Holds(name, ps.sponsor, e.sponsor) && Holds(name, ps.revision, e.revision)
  }

  /** The same, within the buffer. */
  ghost predicate WithinName(name: seq<bv8>, ps: Places, e: Exploded)
  {
    && HoldsRead(name, (Somewhere(0), Present(e.language)))
    && HoldsRead(name, (ps.territory, e.territory)) && HoldsRead(name, (ps.codeset, e.codeset))
    && HoldsRead(name, (ps.modifier, e.modifier)) && HoldsRead(name, (ps.special, e.special))
    && HoldsRead(name, (ps.sponsor, e.sponsor)) && HoldsRead(name, (ps.revision, e.revision))
  }

  /** The parts, and the syntax. */
  method ReadParts(name: array<bv8>, start: nat, ghost language: Text, ghost s: Text)
    returns (ps: Places, syntax: Syntax)
    requires Ahead(name[..], start, s) && Stands(name[..], Somewhere(0), Present(language), start)
    requires s == [] || s[0] in LANGUAGE_ENDS
    modifies name
    ensures WithinName(name[..], ps, Split(language, s)) && syntax == Split(language, s).syntax
  {
    SplitReadsAll(s);
    ghost var first := (Somewhere(0), Present(language));
    ghost var t := Take(s, UNDERSCORE, TERRITORY_ENDS);
    ghost var c := if t.part.Present? then Take(t.rest, DOT, {AT_SIGN}) else Taken(Absent, t.rest);
    ghost var m := Take(c.rest, AT_SIGN, {});
    hide Take, Ahead, HoldsRead, AllStand;
    NothingHeld(name[..]);
    assert AllStand(name[..], [first], start) by { OneStands(name[..], first, start); }
    ghost var rest, parts;
    var territory, codeset, modifier, cp;
    territory, codeset, modifier, cp, rest, parts := ReadXpg(name, start, s, [first]);
    assert parts == [first, (territory, t.part), (codeset, c.part), (modifier, m.part)];
    if codeset.Somewhere? || modifier.Somewhere? {
      syntax := Xpg;
      ps := Places(territory, codeset, modifier, Nowhere, Nowhere, Nowhere);
      NothingHeld(name[..]);
      FourHold(name[..], parts, cp, first, (territory, t.part), (codeset, c.part), (modifier, m.part));
    } else {
      var audience, special, sponsor, revision;
      ghost var e, all := SplitCen(language, t.part, rest), parts;
      audience, special, sponsor, revision, cp, all := ReadCen(name, cp, rest, parts);
      var found := audience.Somewhere? || special.Somewhere? || sponsor.Somewhere? || revision.Somewhere?;
      syntax := if found then Cen else Undecided;
      ps := Places(territory, Nowhere, audience, special, sponsor, revision);
      FourHold(name[..], all, cp, first, (territory, t.part), (codeset, c.part), (modifier, m.part));
      NothingHeld(name[..]);
      LastFourHold(name[..], parts, cp, (audience, e.modifier), (special, e.special), (sponsor, e.sponsor),
                   (revision, e.revision));
    }
  }

  lemma OneStands(name: seq<bv8>, first: Read, cp: nat)
    requires Stands(name, first.0, first.1, cp)
    ensures AllStand(name, [first], cp)
  {
  }

  lemma NothingHeld(name: seq<bv8>)
    ensures HoldsRead(name, (Nowhere, Absent))
  {
  }

  /** `_nl_explode_name`: splits a name in its buffer, and tells which parts were found. */
  method ExplodeName(name: array<bv8>, ghost s: Text) returns (ps: Places, syntax: Syntax, mask: nat)
    requires Clean(s) && name[..] == s + [0]
    modifies name
    ensures InPlace(name[..], ps, Explode(s)) && syntax == Explode(s).syntax && mask == MaskOf(Explode(s))
  {
    hide Holds;
    ps, syntax, mask := Places(Nowhere, Nowhere, Nowhere, Nowhere, Nowhere, Nowhere), Undecided, 0;
    var cp := Skip(name, 0, LANGUAGE_ENDS, s);
    if cp == 0 {
      WholeHolds(name[..], s);
      return;
    }
    ghost var n := Until(s, LANGUAGE_ENDS);
    LanguageStands(name[..], s, n);
    hide Split, Stands, Ahead, MaskOf;
    ps, syntax := ReadParts(name, cp, s[..n], s[n..]);
    PlacesHold(name[..], ps, Split(s[..n], s[n..]));
    mask := ReadMask(name, ps, syntax, Split(s[..n], s[n..]));
  }

  lemma WholeHolds(name: seq<bv8>, s: Text)
    requires Clean(s) && name == s + [0]
    ensures Holds(name, Somewhere(0), Present(s)) && Holds(name, Nowhere, Absent)
  {
    assert name[0..] == name;
    StringThere(name, s);
  }

  lemma LanguageStands(name: seq<bv8>, s: Text, n: nat)
    requires Clean(s) && name == s + [0] && n <= |s|
    ensures Stands(name, Somewhere(0), Present(s[..n]), n)
  {
    assert name[0..n] == s[..n];
  }

  lemma PlacesHold(name: seq<bv8>, ps: Places, e: Exploded)
    requires WithinName(name, ps, e)
    ensures InPlace(name, ps, e)
  {
  }

  /** Whether a part was found that begins with its terminator. */
  method IsEmpty(name: array<bv8>, p: Spot, ghost part: Optional) returns (empty: bool)
    requires HoldsRead(name[..], (p, part))
    ensures (p.Somewhere? <==> part.Present?) && (empty <==> part == Present([]))
  {
    empty := p.Somewhere? && name[p.start] == 0;
  }

  /** The bits of the parts found. */
  method ReadMask(name: array<bv8>, ps: Places, syntax: Syntax, ghost e: Exploded) returns (mask: nat)
    requires WithinName(name[..], ps, e) && syntax == e.syntax && (e.codeset.Present? ==> syntax == Xpg)
    ensures mask == MaskOf(e)
  {
    hide HoldsRead;
    var noTerritory := IsEmpty(name, ps.territory, e.territory);
    var noCodeset := IsEmpty(name, ps.codeset, e.codeset);
    var noModifier := IsEmpty(name, ps.modifier, e.modifier);
    PresentParts(name[..], ps, e);
    mask := 0;
    if ps.territory.Somewhere? { mask := mask + TERRITORY; }
    if ps.codeset.Somewhere? { mask := mask + XPG_CODESET; }
    if ps.modifier.Somewhere? { mask := mask + XPG_MODIFIER + CEN_AUDIENCE; }
    if ps.special.Somewhere? { mask := mask + CEN_SPECIAL; }
    if ps.sponsor.Somewhere? { mask := mask + CEN_SPONSOR; }
    if ps.revision.Somewhere? { mask := mask + CEN_REVISION; }
    if syntax == Xpg {
      if noTerritory { mask := mask - TERRITORY; }
      if noCodeset { mask := mask - XPG_CODESET; }
      if noModifier { mask := mask - XPG_MODIFIER; }
    }
  }

  lemma PresentParts(name: seq<bv8>, ps: Places, e: Exploded)
    requires WithinName(name, ps, e)
    ensures (ps.territory.Somewhere? <==> e.territory.Present?) && (ps.codeset.Somewhere? <==> e.codeset.Present?)
    ensures (ps.modifier.Somewhere? <==> e.modifier.Present?) && (ps.special.Somewhere? <==> e.special.Present?)
    ensures (ps.sponsor.Somewhere? <==> e.sponsor.Present?) && (ps.revision.Somewhere? <==> e.revision.Present?)
  {
  }
}
