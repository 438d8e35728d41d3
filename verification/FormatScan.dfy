/** Reading one directive of a format, character by character. */
module FormatScan {
  import opened Numerals
  import opened CheckedSizes
  import opened Interleaving
  import opened FormatSyntax
  import opened FormatMeaning
  import opened FormatArguments

  /** A width or precision as recorded: where its text is, and its argument if it has one by number. */
  datatype Field = Field(start: nat, end: nat, star: bool, index: Size)

  /** A directive as read, before its unnumbered arguments get their numbers. */
  datatype Scanned = Scanned(position: Size, flags: set<char>, width: Field, precision: Field, size: SizeFlags,
                             conversion: char)

  const NO_FIELD := Field(0, 0, false, ARG_NONE)

  function WidthText(w: Amount): string
  {
    match w case NoAmount => "" case Fixed(d) => d case Star(_) => "*"
  }

  function PrecisionText(q: Amount): string
  {
    match q case NoAmount => "" case Fixed(d) => "." + d case Star(_) => ".*"
  }

  predicate GoodAmount(a: Amount)
  {
    a.Star? ==> ShapedPosition(a.position) && GoodNumber(a.position)
  }

  /** The recorded argument number: one less than the number written, or none. */
  ghost predicate Numbers(index: Size, p: Position)
  {
    ShapedPosition(p) && GoodNumber(p)
    && index as nat == if p.Numbered? then Decimal(p.digits) - 1 else SIZE_MAX
  }

  ghost predicate Fields(x: Field, f: string, a: Amount, text: string)
  {
    && x.start <= x.end <= |f| && f[x.start..x.end] == text && x.star == a.Star?
    && if a.Star? then Numbers(x.index, a.position) else x.index == ARG_NONE
  }

  ghost predicate Scans(d: Scanned, f: string, x: Spec)
  {
    && Numbers(d.position, x.position) && d.flags == (set c | c in x.flags)
    && Fields(d.width, f, x.width, WidthText(x.width))
    && Fields(d.precision, f, x.precision, PrecisionText(x.precision))
    && d.size == Sized(x.size) && d.conversion == x.conversion
  }

  lemma DropDrop(f: string, a: nat, b: nat)
    requires a + b <= |f|
    ensures f[a..][b..] == f[a + b..]
  {
  }

  lemma RunAt(f: string, cp: nat, end: nat, cls: char -> bool)
    requires cp <= end <= |f| && All(f[cp..end], cls) && (end < |f| ==> !cls(f[end]))
    ensures Run(f[cp..], cls) == end - cp
  {
    assert f[cp..] == f[cp..end] + f[end..];
    RunSplits(f[cp..end], f[end..], cls);
  }

  method SkipDigits(f: string, cp: nat) returns (end: nat)
    requires cp <= |f|
    ensures cp <= end <= |f| && end == cp + Run(f[cp..], IsDigit) && All(f[cp..end], IsDigit)
  {
    end := cp;
    while end < |f| && IsDigit(f[end])
      invariant cp <= end <= |f| && All(f[cp..end], IsDigit)
    {
      assert f[cp..end + 1] == f[cp..end] + [f[end]];
      end := end + 1;
    }
    RunAt(f, cp, end, IsDigit);
  }

  /** The test for a positional argument. */
  method ScanPosition(f: string, cp: nat) returns (ok: bool, index: Size, end: nat)
    requires cp <= |f|
    ensures ok <==> GoodNumber(TakePosition(f[cp..]))
    ensures ok ==> Numbers(index, TakePosition(f[cp..])) && end == cp + |ShowPosition(TakePosition(f[cp..]))| <= |f|
  {
    var np := SkipDigits(f, cp);
    assert f[cp..][..np - cp] == f[cp..np];
    if np > cp && np < |f| && f[np] == '$' {
      assert f[cp..][np - cp] == '$';
      assert TakePosition(f[cp..]) == Numbered(f[cp..np]);
      ok, index := CheckPosition(f[cp..np]);
      end := np + 1;
    } else {
      assert np < |f| ==> f[cp..][np - cp] == f[np];
      assert TakePosition(f[cp..]) == Plain;
      ok, index, end := true, ARG_NONE, cp;
    }
  }

  method ScanFlags(f: string, cp: nat) returns (flags: set<char>, end: nat)
    requires cp <= |f|
    ensures cp <= end <= |f| && end == cp + Run(f[cp..], IsFlag) && flags == set c | c in f[cp..end]
  {
    flags, end := {}, cp;
    while end < |f| && IsFlag(f[end])
      invariant cp <= end <= |f| && All(f[cp..end], IsFlag) && flags == set c | c in f[cp..end]
    {
      assert f[cp..end + 1] == f[cp..end] + [f[end]];
      flags := flags + {f[end]};
      end := end + 1;
    }
    RunAt(f, cp, end, IsFlag);
  }

  method ScanWidth(f: string, cp: nat) returns (ok: bool, w: Field, end: nat)
    requires cp <= |f| && (cp < |f| ==> f[cp] != '0')
    ensures ok <==> GoodAmount(TakeWidth(f[cp..]))
    ensures ok ==> Fields(w, f, TakeWidth(f[cp..]), WidthText(TakeWidth(f[cp..])))
    ensures ok ==> end == cp + |ShowWidth(TakeWidth(f[cp..]))| <= |f|
  {
    if cp < |f| && f[cp] == '*' {
      DropDrop(f, cp, 1);
      assert f[cp..][0] == '*';
      var index;
      ok, index, end := ScanPosition(f, cp + 1);
      w := Field(cp, cp + 1, true, index);
    } else {
      end := SkipDigits(f, cp);
      ok := true;
      assert f[cp..][..end - cp] == f[cp..end];
      w := if end > cp then Field(cp, end, false, ARG_NONE) else NO_FIELD;
    }
  }

  method ScanPrecision(f: string, cp: nat) returns (ok: bool, q: Field, end: nat)
    requires cp <= |f|
    ensures ok <==> GoodAmount(TakePrecision(f[cp..]))
    ensures ok ==> Fields(q, f, TakePrecision(f[cp..]), PrecisionText(TakePrecision(f[cp..])))
    ensures ok ==> end == cp + |ShowPrecision(TakePrecision(f[cp..]))| <= |f|
  {
    if cp == |f| || f[cp] != '.' {
      return true, NO_FIELD, cp;
    }
    if cp + 1 < |f| && f[cp + 1] == '*' {
      ok, q, end := ScanStarPrecision(f, cp);
    } else {
      ok := true;
      q, end := ScanFixedPrecision(f, cp);
    }
  }

  method ScanStarPrecision(f: string, cp: nat) returns (ok: bool, q: Field, end: nat)
    requires cp + 1 < |f| && f[cp] == '.' && f[cp + 1] == '*'
    ensures TakePrecision(f[cp..]).Star?
    ensures ok <==> GoodAmount(TakePrecision(f[cp..]))
    ensures ok ==> Fields(q, f, TakePrecision(f[cp..]), ".*")
    ensures ok ==> end == cp + |ShowPrecision(TakePrecision(f[cp..]))| <= |f|
  {
    DropDrop(f, cp, 2);
    assert f[cp..][0] == '.' && f[cp..][1] == '*';
    var index;
    ok, index, end := ScanPosition(f, cp + 2);
    q := Field(cp, cp + 2, true, index);
    assert f[cp..cp + 2] == ".*";
  }

  method ScanFixedPrecision(f: string, cp: nat) returns (q: Field, end: nat)
    requires cp < |f| && f[cp] == '.' && !(cp + 1 < |f| && f[cp + 1] == '*')
    ensures TakePrecision(f[cp..]).Fixed?
    ensures Fields(q, f, TakePrecision(f[cp..]), "." + TakePrecision(f[cp..]).digits)
    ensures end == cp + |ShowPrecision(TakePrecision(f[cp..]))| <= |f|
  {
    DropDrop(f, cp, 1);
    end := SkipDigits(f, cp + 1);
    var n := end - cp - 1;
    assert f[cp..][1..1 + n] == f[cp + 1..end];
    assert f[cp..end] == "." + f[cp + 1..end];
    assert f[cp..][0] == '.' && (cp + 1 < |f| ==> f[cp..][1] == f[cp + 1]);
    assert TakePrecision(f[cp..]) == Fixed(f[cp + 1..end]);
    q := Field(cp, end, false, ARG_NONE);
  }

  method ScanSize(f: string, cp: nat) returns (size: SizeFlags, end: nat)
    requires cp <= |f|
    ensures cp <= end <= |f| && end == cp + Run(f[cp..], IsSize) && size == Sized(f[cp..end])
  {
    size, end := SizeFlags(false, false, false, 0), cp;
    while end < |f| && IsSize(f[end])
      invariant cp <= end <= |f| && All(f[cp..end], IsSize) && size == Sized(f[cp..end])
    {
      assert f[cp..end + 1] == f[cp..end] + [f[end]];
      assert f[cp..end + 1][..end - cp] == f[cp..end];
      size := AddSize(size, f[end]);
      end := end + 1;
    }
    RunAt(f, cp, end, IsSize);
  }

  lemma BodyLength(x: Spec)
    ensures |Body(x)| == |ShowPosition(x.position)| + |x.flags| + |ShowWidth(x.width)| + |ShowPrecision(x.precision)|
                         + |x.size| + 1
  {
  }

  /** The texts that are left after each part of a directive. */
  ghost predicate Stages(s: string, s1: string, s2: string, s3: string, s4: string)
  {
    && s1 == DropPosition(s) && s2 == DropFlags(s1) && (s2 == "" || s2[0] != '0')
    && s3 == DropWidth(s2) && s4 == DropPrecision(s3)
  }

  lemma ShapeParts(s: string, s1: string, s2: string, s3: string, s4: string)
    requires Stages(s, s1, s2, s3, s4)
    ensures ReadShape(s).Some? <==> DropSize(s4) != ""
    ensures ReadShape(s).Some? ==>
              ReadShape(s) == Some(Spec(TakePosition(s), TakeFlags(s1), TakeWidth(s2), TakePrecision(s3), TakeSize(s4),
                                        DropSize(s4)[0]))
  {
  }

  lemma ValidParts(s: string, s1: string, s2: string, s3: string, s4: string)
    requires Stages(s, s1, s2, s3, s4)
    ensures ReadShape(s).Some? && Valid(ReadShape(s).value) <==>
              && GoodNumber(TakePosition(s)) && GoodAmount(TakeWidth(s2)) && GoodAmount(TakePrecision(s3))
              && DropSize(s4) != "" && IsConversion(DropSize(s4)[0])
  {
    ShapeParts(s, s1, s2, s3, s4);
    if ReadShape(s).Some? {
      ReadIsSound(s);
    }
  }

  /** Reads the directive at `cp`; it fails exactly if there is no valid one. */
  method ScanDirective(f: string, cp: nat) returns (ok: bool, d: Scanned, end: nat)
    requires cp <= |f|
    ensures ok <==> ReadShape(f[cp..]).Some? && Valid(ReadShape(f[cp..]).value)
    ensures ok ==> Scans(d, f, ReadShape(f[cp..]).value) && end == cp + |Body(ReadShape(f[cp..]).value)| <= |f|
  {
    ghost var s := f[cp..];
    ghost var s1 := DropPosition(s);
    ghost var s2 := DropFlags(s1);
    ghost var s3 := DropWidth(s2);
    ghost var s4 := DropPrecision(s3);
    ValidParts(s, s1, s2, s3, s4);
    ShapeParts(s, s1, s2, s3, s4);
    d := Scanned(ARG_NONE, {}, NO_FIELD, NO_FIELD, SizeFlags(false, false, false, 0), '%');
    var position, flags, width, precision, size, conversion;
    ok, position, flags, end := ScanStart(f, cp, s, s1);
    if ok {
      ok, width, precision, end := ScanAmounts(f, end, s2, s3);
      if ok {
        ok, size, conversion, end := ScanEnd(f, end, s4);
        if ok {
          d := Scanned(position, flags, width, precision, size, conversion);
          BodyLength(ReadShape(s).value);
        }
      }
    }
  }

  method ScanStart(f: string, cp: nat, ghost s: string, ghost s1: string)
    returns (ok: bool, position: Size, flags: set<char>, end: nat)
    requires cp <= |f| && f[cp..] == s && s1 == DropPosition(s)
    ensures ok <==> GoodNumber(TakePosition(s))
    ensures ok ==>
      && Numbers(position, TakePosition(s)) && flags == (set c | c in TakeFlags(s1))
      && end == cp + |ShowPosition(TakePosition(s))| + |TakeFlags(s1)| <= |f| && f[end..] == DropFlags(s1)
  {
    flags := {};
    ok, position, end := ScanPosition(f, cp);
    if ok {
      DropDrop(f, cp, end - cp);
      flags, end := ScanFlagsOf(f, end, s1);
    }
  }

  method ScanFlagsOf(f: string, cp: nat, ghost s1: string) returns (flags: set<char>, end: nat)
    requires cp <= |f| && f[cp..] == s1
    ensures flags == (set c | c in TakeFlags(s1)) && end == cp + |TakeFlags(s1)| <= |f| && f[end..] == DropFlags(s1)
  {
    flags, end := ScanFlags(f, cp);
    assert f[cp..][..end - cp] == f[cp..end];
    DropDrop(f, cp, end - cp);
  }

  method ScanAmounts(f: string, cp: nat, ghost s2: string, ghost s3: string)
    returns (ok: bool, width: Field, precision: Field, end: nat)
    requires cp <= |f| && f[cp..] == s2 && (s2 == "" || s2[0] != '0') && s3 == DropWidth(s2)
    ensures ok <==> GoodAmount(TakeWidth(s2)) && GoodAmount(TakePrecision(s3))
    ensures ok ==>
      && Fields(width, f, TakeWidth(s2), WidthText(TakeWidth(s2)))
      && Fields(precision, f, TakePrecision(s3), PrecisionText(TakePrecision(s3)))
      && end == cp + |ShowWidth(TakeWidth(s2))| + |ShowPrecision(TakePrecision(s3))| <= |f|
      && f[end..] == DropPrecision(s3)
  {
    precision := NO_FIELD;
    assert cp < |f| ==> f[cp..][0] == f[cp];
    ok, width, end := ScanWidth(f, cp);
    if ok {
      DropDrop(f, cp, end - cp);
      ok, precision, end := ScanPrecisionOf(f, end, s3);
    }
  }

  method ScanPrecisionOf(f: string, cp: nat, ghost s3: string) returns (ok: bool, precision: Field, end: nat)
    requires cp <= |f| && f[cp..] == s3
    ensures ok <==> GoodAmount(TakePrecision(s3))
    ensures ok ==>
      && Fields(precision, f, TakePrecision(s3), PrecisionText(TakePrecision(s3)))
      && end == cp + |ShowPrecision(TakePrecision(s3))| <= |f| && f[end..] == DropPrecision(s3)
  {
    ok, precision, end := ScanPrecision(f, cp);
    if ok {
      DropDrop(f, cp, end - cp);
    }
  }

  method ScanEnd(f: string, cp: nat, ghost s4: string) returns (ok: bool, size: SizeFlags, conversion: char, end: nat)
    requires cp <= |f| && f[cp..] == s4
    ensures ok <==> DropSize(s4) != "" && IsConversion(DropSize(s4)[0])
    ensures ok ==>
      size == Sized(TakeSize(s4)) && conversion == DropSize(s4)[0] && end == cp + |TakeSize(s4)| + 1 <= |f|
  {
    size, end := ScanSize(f, cp);
    assert f[cp..][..end - cp] == f[cp..end];
    DropDrop(f, cp, end - cp);
    conversion := ' ';
    ok := false;
    if end < |f| {
      conversion := f[end];
      end := end + 1;
      ok := IsConversion(conversion);
    }
  }
}
