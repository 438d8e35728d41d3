/** The parser of printf formats: it finds the directives of a format and the types of its arguments. */
module FormatParser {
  import opened CheckedSizes
  import opened Interleaving
  import opened FormatSyntax
  import opened FormatMeaning
  import opened FormatArguments
  import opened FormatScan
  import opened FormatRecords
  import opened FormatResolved
  import opened FormatTypes

  // ----- claiming arguments -----

  /** Claims the numbered or the next argument. */
  method Claim(a: FormatArguments.Arguments, index: Size, next: Size, kind: ArgType, ghost p: Position,
               ghost uses: seq<Use>)
    returns (ok: bool, argument: Size, after: Size)
    requires a.Valid() && kind != NoType && TableOf(a.Table(), uses) && Numbers(index, p)
    modifies a, a.arg
    ensures a.Valid() && (a.arg == old(a.arg) || fresh(a.arg))
    ensures ok ==> argument as nat == IndexOf(p, next as nat) && after as nat == After(p, next as nat)
    ensures ok ==> TableOf(a.Table(), uses + [Use(IndexOf(p, next as nat), kind)])
    ensures !ok ==> Bad(uses + [Use(IndexOf(p, next as nat), kind)])
  {
    ghost var all := uses + [Use(IndexOf(p, next as nat), kind)];
    argument, after := index, next;
    if index == ARG_NONE {
      argument := next;
      if argument == ARG_NONE {
        assert all[|uses|].index == SIZE_MAX && TooLarge(all[|uses|].index, ARGUMENT_SIZE);
        return false, argument, after;
      }
      after := next + 1;
    }
    ok := a.Register(argument, kind, uses);
    if !ok && Consistent(all) {
      assert TooLarge(all[|uses|].index, ARGUMENT_SIZE);
    }
  }

  method ClaimStar(a: FormatArguments.Arguments, field: Field, next: Size, ghost q: Amount, ghost uses: seq<Use>)
    returns (ok: bool, argument: Size, after: Size)
    requires a.Valid() && TableOf(a.Table(), uses) && GoodAmount(q)
    requires field.star == q.Star? && (q.Star? ==> Numbers(field.index, q.position))
    modifies a, a.arg
    ensures a.Valid() && (a.arg == old(a.arg) || fresh(a.arg))
    ensures ok ==> after as nat == StarNext(q, next as nat) && TableOf(a.Table(), uses + StarUse(q, next as nat))
    ensures ok ==> TakesStar(argument, q, next as nat)
    ensures !ok ==> Bad(uses + StarUse(q, next as nat))
  {
    if field.star {
      ok, argument, after := Claim(a, field.index, next, Int, q.position, uses);
    } else {
      assert uses + StarUse(q, next as nat) == uses;
      ok, argument, after := true, ARG_NONE, next;
    }
  }

  /** Claims the arguments of width and precision. */
  method ClaimStars(a: FormatArguments.Arguments, d: Scanned, next: Size, ghost f: string, ghost x: Spec,
                    ghost uses: seq<Use>)
    returns (ok: bool, widthArg: Size, precisionArg: Size, after: Size)
    requires a.Valid() && TableOf(a.Table(), uses) && FormatMeaning.Valid(x) && Scans(d, f, x)
    modifies a, a.arg
    ensures a.Valid() && (a.arg == old(a.arg) || fresh(a.arg))
    ensures ok ==> after as nat == StarsNext(x, next as nat) && TableOf(a.Table(), uses + StarUses(x, next as nat))
    ensures ok ==> TakesStar(widthArg, x.width, next as nat)
    ensures ok ==> TakesStar(precisionArg, x.precision, StarNext(x.width, next as nat))
    ensures !ok ==> Bad(uses + StarUses(x, next as nat))
  {
    ghost var first := uses + StarUse(x.width, next as nat);
    assert uses + StarUses(x, next as nat) == first + StarUse(x.precision, StarNext(x.width, next as nat));
    precisionArg := ARG_NONE;
    ok, widthArg, after := ClaimStar(a, d.width, next, x.width, uses);
    if ok {
      ok, precisionArg, after := ClaimStar(a, d.precision, after, x.precision, first);
    } else {
      BadGrows(first, uses + StarUses(x, next as nat));
    }
  }

  /** Claims the argument of the conversion. */
  method ClaimOwn(a: FormatArguments.Arguments, d: Scanned, next: Size, ghost before: nat, ghost f: string,
                  ghost x: Spec, ghost uses: seq<Use>)
    returns (ok: bool, argument: Size, after: Size)
    requires a.Valid() && TableOf(a.Table(), uses) && FormatMeaning.Valid(x) && Scans(d, f, x)
    requires next as nat == StarsNext(x, before)
    modifies a, a.arg
    ensures a.Valid() && (a.arg == old(a.arg) || fresh(a.arg))
    ensures ok ==> after as nat == SpecNext(x, before) && TableOf(a.Table(), uses + OwnUse(x, before))
    ensures ok ==> argument as nat ==
                     if TypeOf(d.size, d.conversion) != NoType then IndexOf(x.position, next as nat) else SIZE_MAX
    ensures !ok ==> Bad(uses + OwnUse(x, before))
  {
    var kind := TypeOf(d.size, d.conversion);
    if kind == NoType {
      assert uses + OwnUse(x, before) == uses;
      return true, ARG_NONE, next;
    }
    ok, argument, after := Claim(a, d.position, next, kind, x.position, uses);
  }

  /** Claims the arguments of a directive, and records it. */
  method ClaimAll(a: FormatArguments.Arguments, d: Scanned, next: Size, ghost f: string, start: nat, end: nat,
                  ghost x: Spec, ghost uses: seq<Use>)
    returns (ok: bool, e: Entry, after: Size)
    requires a.Valid() && TableOf(a.Table(), uses) && FormatMeaning.Valid(x) && Scans(d, f, x)
    requires start <= end <= |f| && f[start..end] == "%" + Body(x)
    modifies a, a.arg
    ensures a.Valid() && (a.arg == old(a.arg) || fresh(a.arg))
    ensures ok ==> after as nat == SpecNext(x, next as nat)
    ensures ok ==> TableOf(a.Table(), uses + SpecUses(x, next as nat)) && Describes(e, f, x, start, next as nat)
    ensures !ok ==> Bad(uses + SpecUses(x, next as nat))
  {
    ghost var stars := uses + StarUses(x, next as nat);
    assert uses + SpecUses(x, next as nat) == stars + OwnUse(x, next as nat);
    e := BLANK;
    var widthArg, precisionArg, argument;
    ok, widthArg, precisionArg, after := ClaimStars(a, d, next, f, x, uses);
    if ok {
      ok, argument, after := ClaimOwn(a, d, after, next as nat, f, x, stars);
      e := Entry(start, end, d.flags, d.width, widthArg, d.precision, precisionArg, Recorded(d.conversion), argument);
    } else {
      BadGrows(stars, uses + SpecUses(x, next as nat));
    }
  }

  // ----- the list of directives -----

  class Directives {
    var dir: array<Entry>
    var count: nat

    /** There is always room for one more. */
    ghost predicate Valid()
      reads this
    {
      count < dir.Length && Allocated(dir.Length, DIRECTIVE_SIZE)
    }

    ghost function View(): seq<Entry>
      requires Valid()
      reads this, dir
    {
      dir[..count]
    }

    constructor ()
      ensures Valid() && View() == [] && fresh(dir)
    {
      dir := new Entry[1](_ => BLANK);
      count := 0;
    }

    method Append(e: Entry) returns (ok: bool)
      requires Valid()
      modifies this, dir
      ensures dir == old(dir) || fresh(dir)
      ensures ok ==> Valid() && View() == old(View()) + [e]
      ensures !ok ==> TooLarge(old(count) + 1, DIRECTIVE_SIZE)
    {
      dir[count] := e;
      count := count + 1;
      assert dir[..count] == old(View()) + [e];
      ok := true;
      if count >= dir.Length {
        AllocatedFits(dir.Length, DIRECTIVE_SIZE);
        var room := Xtimes(dir.Length as Size, 2);
        var memory := Xtimes(room, DIRECTIVE_SIZE);
        if Overflows(memory) {
          MoreTimes(room as nat, 2 * count + 1, DIRECTIVE_SIZE as nat);
          return false;
        }
        NotSaturated(room as nat, DIRECTIVE_SIZE as nat, memory as nat);
        var was := dir[..count];
        var more := new Entry[room as nat](i => if 0 <= i < |was| then was[i] else BLANK);
        assert more[..count] == was;
        dir := more;
      }
    }
  }

  // ----- the parser -----

  /** Reads the directive whose percent sign is at `cp`. */
  method ScanOne(f: string, cp: nat) returns (ok: bool, scanned: Scanned, end: nat, ghost x: Spec)
    requires cp < |f| && f[cp] == '%'
    ensures ok <==> ReadShape(f[cp + 1..]).Some? && FormatMeaning.Valid(ReadShape(f[cp + 1..]).value)
    ensures ok ==> ReadShape(f[cp + 1..]) == Some(x) && Scans(scanned, f, x)
    ensures ok ==> cp < end <= |f| && Body(x) == f[cp + 1..end] && f[cp..end] == "%" + Body(x)
  {
    ok, scanned, end := ScanDirective(f, cp + 1);
    x := Spec(Plain, "", NoAmount, NoAmount, "", '%');
    if ok {
      x := ReadShape(f[cp + 1..]).value;
      ghost var body := Body(x);
      BodyInFront(f[cp + 1..], x, body);
      TextAt(f, cp, end, body);
    }
  }

  /** Claims the arguments of a directive that has been read, and appends its record. */
  method RecordOne(f: string, cp: nat, end: nat, scanned: Scanned, a: FormatArguments.Arguments, d: Directives,
                   next: Size, ghost x: Spec, ghost uses: seq<Use>)
    returns (ok: bool, e: Entry, after: Size)
    requires a.Valid() && d.Valid() && a.arg != d.dir as object && TableOf(a.Table(), uses)
    requires FormatMeaning.Valid(x) && Scans(scanned, f, x) && cp <= end <= |f| && f[cp..end] == "%" + Body(x)
    modifies a, a.arg, d, d.dir
    ensures a.Valid() && (a.arg == old(a.arg) || fresh(a.arg)) && (d.dir == old(d.dir) || fresh(d.dir))
    ensures ok ==> d.Valid() && d.View() == old(d.View()) + [e] && after as nat == SpecNext(x, next as nat)
    ensures ok ==> TableOf(a.Table(), uses + SpecUses(x, next as nat)) && Describes(e, f, x, cp, next as nat)
    ensures !ok ==> Bad(uses + SpecUses(x, next as nat)) || TooLarge(old(d.count) + 1, DIRECTIVE_SIZE)
  {
    ok, e, after := ClaimAll(a, scanned, next, f, cp, end, x, uses);
    if ok {
      ok := d.Append(e);
    }
  }

  /** Reads and records the directive whose percent sign is at `cp`. */
  method ParseOne(f: string, upto: nat, cp: nat, a: FormatArguments.Arguments, d: Directives, next: Size, width: nat,
                  precision: nat, ghost done: seq<Directive>)
    returns (ok: bool, end: nat, after: Size, maxWidth: nat, maxPrecision: nat, ghost x: Spec)
    requires upto <= cp < |f| && f[cp] == '%' && LiteralFrom(f, upto, cp) && a.Valid() && d.Valid()
    requires Read(f, upto, done, a.Table(), d.View(), next as nat, width, precision)
    requires a.arg != d.dir as object
    modifies a, a.arg, d, d.dir
    ensures a.Valid() && (a.arg == old(a.arg) || fresh(a.arg)) && (d.dir == old(d.dir) || fresh(d.dir))
    ensures ok ==> d.Valid() && cp < end <= |f|
    ensures ok ==> Read(f, end, done + [Piece(f[upto..cp], x)], a.Table(), d.View(), after as nat, maxWidth,
        maxPrecision)
    ensures !ok ==> Hopeless(f)
  {
    ghost var gap, s, table, entries := f[upto..cp], f[cp + 1..], a.Table(), d.View();
    Around(f, upto, cp);
    LiteralSlice(f, upto, cp);
    maxWidth, maxPrecision, after := width, precision, next;
    var scanned;
    ok, scanned, end, x := ScanOne(f, cp);
    if ok {
      UsesMore(done, Piece(gap, x));
      var e;
      ok, e, after := RecordOne(f, cp, end, scanned, a, d, next, x, Uses(done));
      if ok {
        ReadAdds(f, upto, cp, end, done, x, table, a.Table(), entries, e, next as nat, width, precision);
        maxWidth := Max(width, e.width.end - e.width.start);
        maxPrecision := Max(precision, e.precision.end - e.precision.start);
      } else {
        BadEnds(f, done, gap, s);
      }
    } else {
      UnreadEnds(f, done, gap, s);
    }
  }

  /** Passes over literal text. */
  method SkipLiteral(f: string, start: nat) returns (cp: nat)
    requires start <= |f|
    ensures start <= cp <= |f| && LiteralFrom(f, start, cp) && (cp < |f| ==> f[cp] == '%')
  {
    cp := start;
    while cp < |f| && f[cp] != '%'
      invariant start <= cp <= |f| && LiteralFrom(f, start, cp)
    {
      cp := cp + 1;
    }
  }

  /** Parses a format: on success the directives and the literal text between them make up the format, with every
      argument in the table under one type; failure means that the format cannot be accepted. */
  method Parse(f: string)
    returns (ok: bool, a: FormatArguments.Arguments, d: Directives, maxWidth: nat, maxPrecision: nat,
             ghost pieces: seq<Directive>, ghost rest: string)
    ensures ok ==> a.Valid() && d.Valid() && Parsed(f, pieces, rest, a.Table(), d.View(), maxWidth, maxPrecision)
    ensures ok ==> |d.View()| == |pieces| && forall i :: 0 <= i < |pieces| ==>
                     Resolved(d.View()[i], pieces[i].item, a.Table()) && Within(d.View()[i], f, maxWidth, maxPrecision)
    ensures ok ==> forall p, end :: Consists(f, p, end) ==> Unmixed(p)
    ensures !ok ==> Hopeless(f)
  {
    a := new FormatArguments.Arguments();
    d := new Directives();
    maxWidth, maxPrecision, pieces, rest, ok := 0, 0, [], f, true;
    var upto: nat, next: Size := 0, 0;
    ReadNothing(f);
    var cp := SkipLiteral(f, upto);
    while cp < |f|
      invariant upto <= cp <= |f| && LiteralFrom(f, upto, cp) && (cp < |f| ==> f[cp] == '%') && a.Valid() && d.Valid()
      invariant fresh(a) && fresh(a.arg) && fresh(d) && fresh(d.dir)
      invariant Read(f, upto, pieces, a.Table(), d.View(), next as nat, maxWidth, maxPrecision)
      decreases |f| - upto
    {
      ghost var gap := f[upto..cp];
      ghost var x;
      ok, upto, next, maxWidth, maxPrecision, x := ParseOne(f, upto, cp, a, d, next, maxWidth, maxPrecision, pieces);
      if !ok {
        return;
      }
      pieces := pieces + [Piece(gap, x)];
      cp := SkipLiteral(f, upto);
    }
    LiteralSlice(f, upto, |f|);
    rest := f[upto..];
    ok := true;
    a.TableFits();
    IsParsed(f, upto, pieces, a.Table(), d.View(), next as nat, maxWidth, maxPrecision);
    PartsOfAll(f, pieces, rest, a.Table(), d.View(), maxWidth, maxPrecision);
    ParsedIsUnmixed(f, pieces, rest, a.Table());
  }
}
