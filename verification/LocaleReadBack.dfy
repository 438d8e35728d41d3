/** Locale names put together from their parts, and split again. */
module LocaleReadBack {
  import opened Masks
  import opened MessageIndex
  import opened LocaleNames
  import opened LocaleFile
  import opened LocaleReader

  /** The locale in a file name: what stands between the directories and the name of the file. */
  function Component(r: Request): Text
    requires |Place(r.dirs)| + |r.filename| + 1 <= |Name(r)|
  {
    Name(r)[|Place(r.dirs)|..|Name(r)| - |r.filename| - 1]
  }

  function LocaleName(mask: nat, p: Parts): Text { FrontName(mask, p) + MidName(mask, p) + EndName(mask, p) }

  lemma ComponentIsLocale(r: Request)
    ensures |Place(r.dirs)| + |r.filename| + 1 <= |Name(r)| && Component(r) == LocaleName(r.mask, r.parts)
  {
    hide Place, FrontName, MidName, EndName;
    var l := LocaleName(r.mask, r.parts);
    assert Name(r) == Place(r.dirs) + l + ([SLASH] + r.filename);
  }

  predicate UsesXpg(c: nat) { Has(c, XPG_CODESET) || Has(c, XPG_NORM_CODESET) || Has(c, XPG_MODIFIER) }

  predicate UsesCen(c: nat)
  {
    Has(c, CEN_AUDIENCE) || Has(c, CEN_SPECIAL) || Has(c, CEN_SPONSOR) || Has(c, CEN_REVISION)
  }

  predicate WithCodeset(c: nat) { Has(c, XPG_CODESET) || Has(c, XPG_NORM_CODESET) }

  function CodesetOf(c: nat, p: Parts): Text { if Has(c, XPG_CODESET) then p.codeset else p.normalized }

  /** The parts that the mask asks for are free of the characters that end them. */
  predicate Fits(c: nat, p: Parts)
  {
    && p.language != [] && Free(p.language, LANGUAGE_ENDS)
    && (Has(c, TERRITORY) ==> Free(p.territory, TERRITORY_ENDS))
    && (WithCodeset(c) ==> Free(CodesetOf(c, p), if Has(c, TERRITORY) then {AT_SIGN} else LANGUAGE_ENDS))
    && (Has(c, CEN_AUDIENCE) ==> Free(p.modifier, AUDIENCE_ENDS))
    && (Has(c, CEN_SPECIAL) ==> Free(p.special, AUDIENCE_ENDS))
    && (Has(c, CEN_SPONSOR) ==> Free(p.sponsor, {UNDERSCORE}))
  }

  function Maybe(present: bool, text: Text): Optional { if present then Present(text) else Absent }

  /** The parts that the mask asks for. */
  function Asked(c: nat, p: Parts): Exploded
  {
    Exploded(p.language, Maybe(Has(c, TERRITORY), p.territory), Maybe(WithCodeset(c), CodesetOf(c, p)),
             Maybe(Has(c, XPG_MODIFIER) || Has(c, CEN_AUDIENCE), p.modifier), Maybe(Has(c, CEN_SPECIAL), p.special),
             Maybe(Has(c, CEN_SPONSOR), p.sponsor), Maybe(Has(c, CEN_REVISION), p.revision),
             if UsesXpg(c) then Xpg else if UsesCen(c) then Cen else Undecided)
  }

  /** The parts that are read: a codeset without a territory is taken for a part of the language, a special application
      without an audience for the audience, and a revision without a sponsor makes the sponsor empty. */
  function Found(c: nat, p: Parts): Exploded
  {
    var stray := WithCodeset(c) && !Has(c, TERRITORY);
    Exploded(p.language + Part(stray, DOT, CodesetOf(c, p)), Maybe(Has(c, TERRITORY), p.territory),
             Maybe(WithCodeset(c) && !stray, CodesetOf(c, p)),
             if Has(c, XPG_MODIFIER) || Has(c, CEN_AUDIENCE) then Present(p.modifier)
             else Maybe(Has(c, CEN_SPECIAL), p.special),
             Maybe(Has(c, CEN_SPECIAL) && Has(c, CEN_AUDIENCE), p.special),
             if Has(c, CEN_SPONSOR) then Present(p.sponsor) else Maybe(Has(c, CEN_REVISION), []),
             Maybe(Has(c, CEN_REVISION), p.revision),
             if Has(c, XPG_MODIFIER) || (WithCodeset(c) && !stray) then Xpg
             else if UsesCen(c) then Cen else Undecided)
  }

  // ----- reading part by part -----

  /** A part is read back, if a character that ends it follows. */
  lemma TakePresent(lead: bv8, text: Text, rest: Text, ends: set<bv8>)
    requires Free(text, ends) && (rest == [] || rest[0] in ends)
    ensures Take([lead] + text + rest, lead, ends) == Taken(Present(text), rest)
  {
    var s := [lead] + text + rest;
    assert s[1..] == text + rest;
    UntilAt(text, rest, ends);
    assert s[1..1 + |text|] == text && s[1 + |text|..] == rest;
  }

  lemma TakeBack(present: bool, lead: bv8, text: Text, rest: Text, ends: set<bv8>)
    requires present ==> Free(text, ends) && (rest == [] || rest[0] in ends)
    requires !present ==> rest == [] || rest[0] != lead
    ensures Take(Part(present, lead, text) + rest, lead, ends) == Taken(Maybe(present, text), rest)
  {
    if present {
      TakePresent(lead, text, rest, ends);
    } else {
      assert Part(present, lead, text) + rest == rest;
    }
  }

  /** What a text with an optional part in front begins with. */
  lemma HeadOfPart(present: bool, lead: bv8, text: Text, rest: Text)
    ensures present ==> Part(present, lead, text) + rest != [] && (Part(present, lead, text) + rest)[0] == lead
    ensures !present ==> Part(present, lead, text) + rest == rest
  {
  }

  /** A name in the XPG syntax. */
  lemma XpgIsRead(language: Text, territory: bool, t: Text, codeset: bool, k: Text, modifier: bool, m: Text)
    requires territory ==> Free(t, TERRITORY_ENDS)
    requires codeset ==> territory && Free(k, {AT_SIGN})
    requires codeset || modifier
    ensures
      var s := Part(territory, UNDERSCORE, t) + (Part(codeset, DOT, k) + Part(modifier, AT_SIGN, m));
      Split(language, s) ==
        Exploded(language, Maybe(territory, t), Maybe(codeset, k), Maybe(modifier, m), Absent, Absent, Absent, Xpg)
  {
    var s1 := Part(modifier, AT_SIGN, m) + [];
    assert s1 == Part(modifier, AT_SIGN, m);
    var s2 := Part(codeset, DOT, k) + s1;
    HeadOfPart(modifier, AT_SIGN, m, []);
    HeadOfPart(codeset, DOT, k, s1);
    TakeBack(territory, UNDERSCORE, t, s2, TERRITORY_ENDS);
    TakeBack(modifier, AT_SIGN, m, [], {});
    if territory {
      TakeBack(codeset, DOT, k, s1, {AT_SIGN});
    }
    hide Part, Take;
  }

  /** The parts of the CEN syntax. */
  lemma CenIsRead(language: Text, t: Optional, audience: bool, a: Text, special: bool, x: Text, sponsor: bool, o: Text,
                  revision: bool, r: Text)
    requires audience ==> Free(a, AUDIENCE_ENDS)
    requires special ==> audience && Free(x, AUDIENCE_ENDS)
    requires sponsor ==> Free(o, {UNDERSCORE})
    requires revision ==> sponsor
    ensures
      var s := Part(audience, PLUS, a) + (Part(special, PLUS, x) + (Part(sponsor, COMMA, o)
                                                                    + Part(revision, UNDERSCORE, r)));
      SplitCen(language, t, s) ==
        Exploded(language, t, Absent, Maybe(audience, a), Maybe(special, x), Maybe(sponsor, o), Maybe(revision, r),
                 if audience || special || sponsor || revision then Cen else Undecided)
  {
    var s1 := Part(revision, UNDERSCORE, r) + [];
    assert s1 == Part(revision, UNDERSCORE, r);
    var s2 := Part(sponsor, COMMA, o) + s1;
    var s3 := Part(special, PLUS, x) + s2;
    HeadOfPart(revision, UNDERSCORE, r, []);
    HeadOfPart(sponsor, COMMA, o, s1);
    HeadOfPart(special, PLUS, x, s2);
    HeadOfPart(audience, PLUS, a, s3);
    TakeBack(audience, PLUS, a, s3, AUDIENCE_ENDS);
    assert Free(x, {COMMA, UNDERSCORE}) || !special;
    TakeBack(special, PLUS, x, s2, {COMMA, UNDERSCORE});
    TakeBack(sponsor, COMMA, o, s1, {UNDERSCORE});
    TakeBack(revision, UNDERSCORE, r, [], {});
    hide Part, Take;
  }

  /** Language and territory before the parts of the CEN syntax. */
  lemma TerritoryIsRead(language: Text, territory: bool, t: Text, s: Text)
    requires territory ==> Free(t, TERRITORY_ENDS)
    requires s == [] || s[0] == PLUS || s[0] == COMMA
    ensures Split(language, Part(territory, UNDERSCORE, t) + s) == SplitCen(language, Maybe(territory, t), s)
  {
    TakeBack(territory, UNDERSCORE, t, s, TERRITORY_ENDS);
    assert Take(s, DOT, {AT_SIGN}) == Taken(Absent, s) == Take(s, AT_SIGN, {});
    hide Part;
  }

  lemma LanguageIsRead(language: Text, s: Text)
    requires language != [] && Free(language, LANGUAGE_ENDS) && (s == [] || s[0] in LANGUAGE_ENDS)
    ensures Explode(language + s) == Split(language, s)
  {
    UntilAt(language, s, LANGUAGE_ENDS);
    assert (language + s)[..|language|] == language && (language + s)[|language|..] == s;
  }

  // ----- the name of a mask -----

  /** The language as it is read, with a codeset that no territory parts from it. */
  function Stem(c: nat, p: Parts): Text
  {
    p.language + Part(WithCodeset(c) && !Has(c, TERRITORY), DOT, CodesetOf(c, p))
  }

  lemma StemFree(c: nat, p: Parts)
    requires Fits(c, p)
    ensures Stem(c, p) != [] && Free(Stem(c, p), LANGUAGE_ENDS)
  {
  }

  /** What follows it in the XPG syntax. */
  function XpgTail(c: nat, p: Parts): Text
  {
    Part(Has(c, TERRITORY), UNDERSCORE, p.territory)
    + (Part(WithCodeset(c) && Has(c, TERRITORY), DOT, CodesetOf(c, p))
       + Part(Has(c, XPG_MODIFIER), AT_SIGN, p.modifier))
  }

  /** What follows the territory in the CEN syntax. */
  function CenTail(c: nat, p: Parts): Text
  {
    var audience, sponsor := Has(c, CEN_AUDIENCE), Has(c, CEN_SPONSOR);
    Part(audience || Has(c, CEN_SPECIAL), PLUS, if audience then p.modifier else p.special)
    + (Part(audience && Has(c, CEN_SPECIAL), PLUS, p.special)
       + (Part(sponsor || Has(c, CEN_REVISION), COMMA, if sponsor then p.sponsor else [])
          + Part(Has(c, CEN_REVISION), UNDERSCORE, p.revision)))
  }

  lemma NameXpg(c: nat, p: Parts)
    requires Admissible(c) && !UsesCen(c)
    ensures LocaleName(c, p) == Stem(c, p) + XpgTail(c, p)
  {
  }

  lemma NameCen(c: nat, p: Parts)
    requires Admissible(c) && !UsesXpg(c)
    ensures LocaleName(c, p) == p.language + (Part(Has(c, TERRITORY), UNDERSCORE, p.territory) + CenTail(c, p))
  {
  }

  lemma XpgFound(c: nat, p: Parts)
    requires Admissible(c) && UsesXpg(c) && Fits(c, p)
    ensures Explode(LocaleName(c, p)) == Found(c, p)
  {
    NameXpg(c, p);
    StemFree(c, p);
    var territory, codeset, modifier := Has(c, TERRITORY), WithCodeset(c) && Has(c, TERRITORY), Has(c, XPG_MODIFIER);
    var k, front, tail := CodesetOf(c, p), Stem(c, p), XpgTail(c, p);
    HeadOfPart(modifier, AT_SIGN, p.modifier, []);
    HeadOfPart(codeset, DOT, k, Part(modifier, AT_SIGN, p.modifier));
    HeadOfPart(territory, UNDERSCORE, p.territory, Part(codeset, DOT, k) + Part(modifier, AT_SIGN, p.modifier));
    assert Part(modifier, AT_SIGN, p.modifier) + [] == Part(modifier, AT_SIGN, p.modifier);
    hide Part, Explode, LocaleName, Split;
    assert tail == [] || tail[0] in LANGUAGE_ENDS;
    LanguageIsRead(front, tail);
    if codeset || modifier {
      XpgIsRead(front, territory, p.territory, codeset, k, modifier, p.modifier);
    } else {
      assert tail == [];
      NothingIsRead(front);
    }
  }

  lemma NothingIsRead(language: Text)
    ensures Split(language, []) == Exploded(language, Absent, Absent, Absent, Absent, Absent, Absent, Undecided)
  {
  }

  lemma CenFound(c: nat, p: Parts)
    requires Admissible(c) && !UsesXpg(c) && Fits(c, p)
    ensures Explode(LocaleName(c, p)) == Found(c, p)
  {
    NameCen(c, p);
    var territory, tail := Has(c, TERRITORY), CenTail(c, p);
    assert tail == [] || tail[0] == PLUS || tail[0] == COMMA;
    HeadOfPart(territory, UNDERSCORE, p.territory, tail);
    assert p.language + Part(false, DOT, CodesetOf(c, p)) == p.language;
    hide Part, Explode, LocaleName, Split, SplitCen;
    LanguageIsRead(p.language, Part(territory, UNDERSCORE, p.territory) + tail);
    TerritoryIsRead(p.language, territory, p.territory, tail);
    var audience, special, sponsor, revision :=
      Has(c, CEN_AUDIENCE), Has(c, CEN_SPECIAL), Has(c, CEN_SPONSOR), Has(c, CEN_REVISION);
    CenIsRead(p.language, Maybe(territory, p.territory), audience || special,
              if audience then p.modifier else p.special, audience && special, p.special, sponsor || revision,
              if sponsor then p.sponsor else [], revision, p.revision);
  }

  /** What is read from the name of any mask gone through. */
  lemma FoundIsRead(r: Request)
    requires Admissible(r.mask) && Fits(r.mask, r.parts)
    ensures |Place(r.dirs)| + |r.filename| + 1 <= |Name(r)|
    ensures Explode(Component(r)) == Found(r.mask, r.parts)
  {
    hide Explode, LocaleName, Found, Component;
    ComponentIsLocale(r);
    if UsesXpg(r.mask) {
      XpgFound(r.mask, r.parts);
    } else {
      CenFound(r.mask, r.parts);
    }
  }

  /** The name is read back as the language and exactly the parts that the mask asks for, if and only if a codeset has
      a territory before it, a special application an audience, and a revision a sponsor. */
  lemma ReadBack(r: Request)
    requires Admissible(r.mask) && Fits(r.mask, r.parts)
    ensures |Place(r.dirs)| + |r.filename| + 1 <= |Name(r)|
    ensures Explode(Component(r)) == Asked(r.mask, r.parts) <==>
              && (WithCodeset(r.mask) ==> Has(r.mask, TERRITORY))
              && (Has(r.mask, CEN_SPECIAL) ==> Has(r.mask, CEN_AUDIENCE))
              && (Has(r.mask, CEN_REVISION) ==> Has(r.mask, CEN_SPONSOR))
  {
    FoundIsRead(r);
    hide Explode, Component, Has, Name;
    var c, p := r.mask, r.parts;
    assert Part(true, DOT, CodesetOf(c, p)) == [DOT] + CodesetOf(c, p);
    assert p.language + Part(false, DOT, CodesetOf(c, p)) == p.language;
  }

  // ----- different masks, different names -----

  predicate SameBits(c: nat, d: nat)
  {
    && Has(c, TERRITORY) == Has(d, TERRITORY) && Has(c, XPG_CODESET) == Has(d, XPG_CODESET)
    && Has(c, XPG_NORM_CODESET) == Has(d, XPG_NORM_CODESET) && Has(c, XPG_MODIFIER) == Has(d, XPG_MODIFIER)
    && Has(c, CEN_AUDIENCE) == Has(d, CEN_AUDIENCE) && Has(c, CEN_SPECIAL) == Has(d, CEN_SPECIAL)
    && Has(c, CEN_SPONSOR) == Has(d, CEN_SPONSOR) && Has(c, CEN_REVISION) == Has(d, CEN_REVISION)
  }

  lemma SameNameBits(c: nat, d: nat, p: Parts)
    requires Found(c, p) == Found(d, p) && Admissible(c) && Admissible(d)
    requires p.codeset != p.normalized && p.modifier != p.special && p.sponsor != []
    ensures SameBits(c, d)
  {
    hide Has;
    assert Part(true, DOT, CodesetOf(c, p)) == [DOT] + CodesetOf(c, p);
    assert Part(true, DOT, CodesetOf(d, p)) == [DOT] + CodesetOf(d, p);
    assert p.language + Part(false, DOT, CodesetOf(c, p)) == p.language;
    assert p.language + Part(false, DOT, CodesetOf(d, p)) == p.language;
    StrayCodeset(c, d, p);
  }

  /** A codeset that is taken for a part of the language is still told from the language. */
  lemma StrayCodeset(c: nat, d: nat, p: Parts)
    ensures p.language + ([DOT] + CodesetOf(c, p)) == p.language + ([DOT] + CodesetOf(d, p)) ==>
              CodesetOf(c, p) == CodesetOf(d, p)
  {
    var a, b := p.language + ([DOT] + CodesetOf(c, p)), p.language + ([DOT] + CodesetOf(d, p));
    assert a[|p.language| + 1..] == CodesetOf(c, p) && b[|p.language| + 1..] == CodesetOf(d, p);
  }

  /** All parts are free of the characters that end them. */
  predicate Apart(p: Parts)
  {
    && p.language != [] && Free(p.language, LANGUAGE_ENDS) && Free(p.territory, TERRITORY_ENDS)
    && Free(p.codeset, LANGUAGE_ENDS) && Free(p.normalized, LANGUAGE_ENDS)
    && Free(p.modifier, AUDIENCE_ENDS) && Free(p.special, AUDIENCE_ENDS) && Free(p.sponsor, {UNDERSCORE})
  }

  /** Different masks give different names of files. */
  ghost predicate NamesDiffer(dirs: seq<Text>, p: Parts, filename: Text)
  {
    forall c, d ::
      Admissible(c) && Admissible(d) && Name(Request(dirs, c, p, filename)) == Name(Request(dirs, d, p, filename)) ==>
        SameBits(c, d)
  }

  lemma SameNameFound(dirs: seq<Text>, p: Parts, filename: Text, c: nat, d: nat)
    requires Apart(p) && Admissible(c) && Admissible(d)
    requires Name(Request(dirs, c, p, filename)) == Name(Request(dirs, d, p, filename))
    ensures Found(c, p) == Found(d, p)
  {
    assert Fits(c, p) && Fits(d, p);
    hide Explode, Found, Name, Fits, Apart;
    FoundIsRead(Request(dirs, c, p, filename));
    FoundIsRead(Request(dirs, d, p, filename));
  }

  lemma SameLocale(dirs: seq<Text>, p: Parts, filename: Text, c: nat, d: nat)
    requires LocaleName(c, p) == LocaleName(d, p)
    ensures Name(Request(dirs, c, p, filename)) == Name(Request(dirs, d, p, filename))
  {
    hide Place, FrontName, MidName, EndName;
    assert forall m :: Name(Request(dirs, m, p, filename)) == Place(dirs) + LocaleName(m, p) + [SLASH] + filename;
  }

  lemma SmallMasks()
    ensures Admissible(XPG_CODESET) && Admissible(XPG_NORM_CODESET) && !SameBits(XPG_CODESET, XPG_NORM_CODESET)
    ensures Admissible(CEN_AUDIENCE) && Admissible(CEN_SPECIAL) && !SameBits(CEN_AUDIENCE, CEN_SPECIAL)
    ensures Admissible(CEN_REVISION) && Admissible(CEN_SPONSOR + CEN_REVISION)
    ensures !SameBits(CEN_REVISION, CEN_SPONSOR + CEN_REVISION)
  {
  }

  lemma OneCodeset(p: Parts)
    requires p.codeset == p.normalized
    ensures LocaleName(XPG_CODESET, p) == LocaleName(XPG_NORM_CODESET, p)
  {
  }

  lemma AudienceOrSpecial(p: Parts)
    requires p.modifier == p.special
    ensures LocaleName(CEN_AUDIENCE, p) == LocaleName(CEN_SPECIAL, p)
  {
    assert FrontName(CEN_AUDIENCE, p) == FrontName(CEN_SPECIAL, p);
    assert EndName(CEN_AUDIENCE, p) == EndName(CEN_SPECIAL, p);
    assert MidName(CEN_AUDIENCE, p) == [PLUS] + p.modifier + [];
    assert MidName(CEN_SPECIAL, p) == [] + ([PLUS] + p.special);
    hide FrontName, EndName, MidName;
  }

  lemma NoSponsor(p: Parts)
    requires p.sponsor == []
    ensures LocaleName(CEN_REVISION, p) == LocaleName(CEN_SPONSOR + CEN_REVISION, p)
  {
    var a, b := CEN_REVISION, CEN_SPONSOR + CEN_REVISION;
    assert FrontName(a, p) == FrontName(b, p) && MidName(a, p) == MidName(b, p);
    assert EndName(a, p) == [COMMA] + [] + ([UNDERSCORE] + p.revision);
    assert EndName(b, p) == [COMMA] + p.sponsor + ([UNDERSCORE] + p.revision);
    hide FrontName, EndName, MidName;
  }

  /** Different masks give different names exactly if the normalised codeset differs from the codeset, the special
      application from the audience, and the sponsor is not empty. */
  lemma NamesDifferIff(dirs: seq<Text>, p: Parts, filename: Text)
    requires Apart(p)
    ensures NamesDiffer(dirs, p, filename) <==>
              p.codeset != p.normalized && p.modifier != p.special && p.sponsor != []
  {
    hide SameBits, LocaleName, Name, Found, Apart;
    if p.codeset != p.normalized && p.modifier != p.special && p.sponsor != [] {
      forall c, d |
        Admissible(c) && Admissible(d) && Name(Request(dirs, c, p, filename)) == Name(Request(dirs, d, p, filename))
        ensures SameBits(c, d)
      {
        SameNameFound(dirs, p, filename, c, d);
        SameNameBits(c, d, p);
      }
    }
    SmallMasks();
    if p.codeset == p.normalized {
      OneCodeset(p);
      SameLocale(dirs, p, filename, XPG_CODESET, XPG_NORM_CODESET);
    }
    if p.modifier == p.special {
      AudienceOrSpecial(p);
      SameLocale(dirs, p, filename, CEN_AUDIENCE, CEN_SPECIAL);
    }
    if p.sponsor == [] {
      NoSponsor(p);
      SameLocale(dirs, p, filename, CEN_REVISION, CEN_SPONSOR + CEN_REVISION);
    }
  }

  // ----- in bytes -----

  const GERMAN: Parts :=
    Parts([100, 101], [68, 69], [85, 84, 70, 45, 56], [117, 116, 102, 56], [101], [120], [83], [49])

  /** Language `de`, territory `DE`, codeset `UTF-8`, normalised codeset `utf8` and modifier `e`: `de_DE.UTF-8@e` and
      `de_DE.utf8`. */
  lemma GermanXpg()
    ensures LocaleName(TERRITORY + XPG_CODESET + XPG_MODIFIER, GERMAN)
         == [100, 101, 95, 68, 69, 46, 85, 84, 70, 45, 56, 64, 101]
    ensures LocaleName(TERRITORY + XPG_NORM_CODESET, GERMAN) == [100, 101, 95, 68, 69, 46, 117, 116, 102, 56]
  {
    var c, d := TERRITORY + XPG_CODESET + XPG_MODIFIER, TERRITORY + XPG_NORM_CODESET;
    assert FrontName(c, GERMAN) == [100, 101, 95, 68, 69, 46, 85, 84, 70, 45, 56];
    assert FrontName(d, GERMAN) == [100, 101, 95, 68, 69, 46, 117, 116, 102, 56];
    assert MidName(c, GERMAN) == [64, 101] && EndName(c, GERMAN) == [];
    assert MidName(d, GERMAN) == [] && EndName(d, GERMAN) == [];
    hide FrontName, MidName, EndName;
  }

  /** Special application `x`, sponsor `S` and revision `1`: `de_DE+e+x,S_1`. */
  lemma GermanCen()
    ensures LocaleName(TERRITORY + CEN_AUDIENCE + CEN_SPECIAL + CEN_SPONSOR + CEN_REVISION, GERMAN)
         == [100, 101, 95, 68, 69, 43, 101, 43, 120, 44, 83, 95, 49]
  {
    var c := TERRITORY + CEN_AUDIENCE + CEN_SPECIAL + CEN_SPONSOR + CEN_REVISION;
    assert FrontName(c, GERMAN) == [100, 101, 95, 68, 69];
    assert MidName(c, GERMAN) == [43, 101, 43, 120] && EndName(c, GERMAN) == [44, 83, 95, 49];
    hide FrontName, MidName, EndName;
  }
}
