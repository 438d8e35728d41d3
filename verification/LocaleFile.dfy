/** Putting together the file name of a locale catalogue in a buffer of exactly the computed size. */
module LocaleFile {
  import opened Masks
  import opened MessageIndex
  import opened LocaleNames

  /** The parts of a locale's name. */
  datatype Parts = Parts(language: Text, territory: Text, codeset: Text, normalized: Text, modifier: Text,
                         special: Text, sponsor: Text, revision: Text)
  {
    predicate Proper()
    {
      && Clean(language) && Clean(territory) && Clean(codeset) && Clean(normalized) && Clean(modifier)
      && Clean(special) && Clean(sponsor) && Clean(revision)
    }
  }

  /** A request for a catalogue: where to look, which parts to use, and the name of the file. */
  datatype Request = Request(dirs: seq<Text>, mask: nat, parts: Parts, filename: Text)
  {
    predicate Proper()
    {
      parts.Proper() && Clean(filename) && forall i :: 0 <= i < |dirs| ==> Clean(dirs[i])
    }
  }

  /** The directories in one text, with a slash at the end. */
  function Place(dirs: seq<Text>): Text
  {
    if dirs == [] then [] else Joined(dirs, COLON)[..|Joined(dirs, COLON)| - 1] + [SLASH]
  }

  function Part(present: bool, lead: bv8, text: Text): Text
  {
    if present then [lead] + text else []
  }

  /** The language, and after it territory, codeset and normalised codeset where they are asked for. */
  function Front(p: Parts, territory: bool, codeset: bool, normalized: bool): Text
  {
    p.language + (Part(territory, UNDERSCORE, p.territory) + Part(codeset, DOT, p.codeset))
    + Part(normalized, DOT, p.normalized)
  }

  function FrontName(mask: nat, p: Parts): Text
  {
    Front(p, Has(mask, TERRITORY), Has(mask, XPG_CODESET), Has(mask, XPG_NORM_CODESET))
  }

  function MidName(mask: nat, p: Parts): Text
  {
    Part(Has(mask, XPG_MODIFIER) || Has(mask, CEN_AUDIENCE), if Has(mask, CEN_AUDIENCE) then PLUS else AT_SIGN,
         p.modifier)
    + Part(Has(mask, CEN_SPECIAL), PLUS, p.special)
  }

  function EndName(mask: nat, p: Parts): Text
  {
    Part(Has(mask, CEN_SPONSOR) || Has(mask, CEN_REVISION), COMMA, if Has(mask, CEN_SPONSOR) then p.sponsor else [])
    + Part(Has(mask, CEN_REVISION), UNDERSCORE, p.revision)
  }

  function Name(r: Request): Text
  {
    Place(r.dirs) + FrontName(r.mask, r.parts) + MidName(r.mask, r.parts) + EndName(r.mask, r.parts)
    + [SLASH] + r.filename
  }

  /** The bytes that the source allocates for the name. */
  function Room(r: Request): nat
  {
    |Argz(r.dirs)| + |r.parts.language|
    + (if Has(r.mask, TERRITORY) then |r.parts.territory| + 1 else 0)
    + (if Has(r.mask, XPG_CODESET) then |r.parts.codeset| + 1 else 0)
    + (if Has(r.mask, XPG_NORM_CODESET) then |r.parts.normalized| + 1 else 0)
    + (if Has(r.mask, XPG_MODIFIER) || Has(r.mask, CEN_AUDIENCE) then |r.parts.modifier| + 1 else 0)
    + (if Has(r.mask, CEN_SPECIAL) then |r.parts.special| + 1 else 0)
    + (if Has(r.mask, CEN_SPONSOR) || Has(r.mask, CEN_REVISION)
       then 1 + (if Has(r.mask, CEN_SPONSOR) then |r.parts.sponsor| else 0)
            + (if Has(r.mask, CEN_REVISION) then |r.parts.revision| + 1 else 0)
       else 0)
    + 1 + |r.filename| + 1
  }

  lemma PlaceLength(dirs: seq<Text>)
    ensures |Place(dirs)| == |Argz(dirs)|
  {
    JoinedLength(dirs, COLON);
  }

  /** The name and its terminator take up exactly the bytes allocated. */
  lemma RoomIsExact(r: Request)
    ensures Room(r) == |Name(r)| + 1
  {
    hide Place, FrontName, MidName, EndName, Has, Argz;
    PlaceLength(r.dirs);
    FrontLength(r.mask, r.parts);
    MidLength(r.mask, r.parts);
    EndLength(r.mask, r.parts);
  }

  lemma FrontLength(mask: nat, p: Parts)
    ensures |FrontName(mask, p)| ==
      |p.language|
      + (if Has(mask, TERRITORY) then |p.territory| + 1 else 0)
      + (if Has(mask, XPG_CODESET) then |p.codeset| + 1 else 0)
      + (if Has(mask, XPG_NORM_CODESET) then |p.normalized| + 1 else 0)
  {
  }

  lemma MidLength(mask: nat, p: Parts)
    ensures |MidName(mask, p)| ==
      (if Has(mask, XPG_MODIFIER) || Has(mask, CEN_AUDIENCE) then |p.modifier| + 1 else 0)
      + (if Has(mask, CEN_SPECIAL) then |p.special| + 1 else 0)
  {
  }

  lemma EndLength(mask: nat, p: Parts)
    ensures |EndName(mask, p)| ==
      if Has(mask, CEN_SPONSOR) || Has(mask, CEN_REVISION)
      then 1 + (if Has(mask, CEN_SPONSOR) then |p.sponsor| else 0)
           + (if Has(mask, CEN_REVISION) then |p.revision| + 1 else 0)
      else 0
  {
  }

  // ----- writing -----

  /** `stpcpy`: copies the text and its terminator, and returns where the terminator is. */
  method StpCpy(buf: array<bv8>, cp: nat, text: Text) returns (end: nat)
    requires cp + |text| < buf.Length
    modifies buf
    ensures end == cp + |text| && buf[..end] == old(buf[..cp]) + text && buf[end] == 0
  {
    end := cp;
    while end < cp + |text|
      invariant cp <= end <= cp + |text|
      invariant buf[..end] == old(buf[..cp]) + text[..end - cp]
    {
      buf[end] := text[end - cp];
      end := end + 1;
    }
    buf[end] := 0;
  }

  /** A part with its leading character, if it is there. */
  method PutPart(buf: array<bv8>, cp: nat, present: bool, lead: bv8, text: Text) returns (end: nat)
    requires cp + |Part(present, lead, text)| < buf.Length
    modifies buf
    ensures end == cp + |Part(present, lead, text)| && buf[..end] == old(buf[..cp]) + Part(present, lead, text)
  {
    if present {
      buf[cp] := lead;
      assert buf[..cp + 1] == old(buf[..cp]) + [lead];
      end := StpCpy(buf, cp + 1, text);
    } else {
      end := cp;
    }
  }

  method PutPlace(buf: array<bv8>, dirs: seq<Text>) returns (cp: nat)
    requires |Argz(dirs)| <= buf.Length && forall i :: 0 <= i < |dirs| ==> Clean(dirs[i])
    modifies buf
    ensures cp == |Argz(dirs)| && buf[..cp] == Place(dirs)
  {
    var dirlist := Argz(dirs);
    cp := 0;
    while cp < |dirlist|
      invariant cp <= |dirlist| && buf[..cp] == dirlist[..cp]
    {
      buf[cp] := dirlist[cp];
      cp := cp + 1;
    }
    if |dirlist| > 0 {
      ghost var tail := buf[cp..];
      assert buf[..] == dirlist + tail;
      ArgzStringify(buf, |dirlist|, COLON, dirs, tail);
      ghost var before := buf[..cp - 1];
      assert Joined(dirs, COLON)[..|Joined(dirs, COLON)| - 1] == before;
      buf[cp - 1] := SLASH;
      assert buf[..cp] == before + [SLASH];
    }
  }

  method PutTwo(buf: array<bv8>, start: nat, one: bool, lead: bv8, text: Text, two: bool, next: bv8, other: Text)
    returns (cp: nat)
    requires start + |Part(one, lead, text) + Part(two, next, other)| < buf.Length
    modifies buf
    ensures cp == start + |Part(one, lead, text) + Part(two, next, other)|
    ensures buf[..cp] == old(buf[..start]) + (Part(one, lead, text) + Part(two, next, other))
  {
    cp := PutPart(buf, start, one, lead, text);
    cp := PutPart(buf, cp, two, next, other);
  }

  method PutFront(buf: array<bv8>, start: nat, p: Parts, territory: bool, codeset: bool, normalized: bool)
    returns (cp: nat)
    requires start + |Front(p, territory, codeset, normalized)| < buf.Length
    modifies buf
    ensures cp == start + |Front(p, territory, codeset, normalized)|
    ensures buf[..cp] == old(buf[..start]) + Front(p, territory, codeset, normalized)
  {
    cp := StpCpy(buf, start, p.language);
    cp := PutTwo(buf, cp, territory, UNDERSCORE, p.territory, codeset, DOT, p.codeset);
    cp := PutPart(buf, cp, normalized, DOT, p.normalized);
  }

  method PutMid(buf: array<bv8>, start: nat, mask: nat, p: Parts) returns (cp: nat)
    requires start + |MidName(mask, p)| < buf.Length
    modifies buf
    ensures cp == start + |MidName(mask, p)| && buf[..cp] == old(buf[..start]) + MidName(mask, p)
  {
    cp := PutTwo(buf, start, Has(mask, XPG_MODIFIER) || Has(mask, CEN_AUDIENCE),
                 if Has(mask, CEN_AUDIENCE) then PLUS else AT_SIGN, p.modifier,
                 Has(mask, CEN_SPECIAL), PLUS, p.special);
  }

  method PutEnd(buf: array<bv8>, start: nat, mask: nat, p: Parts) returns (cp: nat)
    requires start + |EndName(mask, p)| < buf.Length
    modifies buf
    ensures cp == start + |EndName(mask, p)| && buf[..cp] == old(buf[..start]) + EndName(mask, p)
  {
    cp := start;
    if Has(mask, CEN_SPONSOR) || Has(mask, CEN_REVISION) {
      buf[cp] := COMMA;
      cp := cp + 1;
      assert buf[..cp] == old(buf[..start]) + [COMMA];
      if Has(mask, CEN_SPONSOR) {
        cp := StpCpy(buf, cp, p.sponsor);
      }
      cp := PutPart(buf, cp, Has(mask, CEN_REVISION), UNDERSCORE, p.revision);
    }
  }

  method PutName(buf: array<bv8>, r: Request)
    requires r.Proper() && buf.Length == |Name(r)| + 1
    modifies buf
    ensures buf[..] == Name(r) + [0]
  {
    hide Place, Front, MidName, EndName, Argz;
    PlaceLength(r.dirs);
    var cp := PutPlace(buf, r.dirs);
    cp := PutFront(buf, cp, r.parts, Has(r.mask, TERRITORY), Has(r.mask, XPG_CODESET), Has(r.mask, XPG_NORM_CODESET));
    cp := PutMid(buf, cp, r.mask, r.parts);
    cp := PutEnd(buf, cp, r.mask, r.parts);
    buf[cp] := SLASH;
    assert buf[..cp + 1] == Place(r.dirs) + FrontName(r.mask, r.parts) + MidName(r.mask, r.parts)
                            + EndName(r.mask, r.parts) + [SLASH];
    cp := StpCpy(buf, cp + 1, r.filename);
    assert buf[..cp + 1] == buf[..cp] + [0];
  }

  /** Every write stays within the buffer, and the buffer ends with the name's terminator. */
  method MakeName(r: Request) returns (buf: array<bv8>)
    requires r.Proper()
    ensures fresh(buf) && buf.Length == Room(r) && buf[..] == Name(r) + [0]
  {
    RoomIsExact(r);
    buf := new bv8[Room(r)];
    PutName(buf, r);
  }
}
