/** What the parser records of a format, and what makes a format unacceptable. */
module FormatRecords {
  import opened CheckedSizes
  import opened Interleaving
  import opened FormatSyntax
  import opened FormatMeaning
  import opened FormatArguments
  import opened FormatScan

  /** A directive as recorded. */
  datatype Entry = Entry(start: nat, end: nat, flags: set<char>, width: Field, widthArg: Size, precision: Field,
                         precisionArg: Size, conversion: char, argument: Size)

  const BLANK := Entry(0, 0, {}, NO_FIELD, ARG_NONE, NO_FIELD, ARG_NONE, '%', ARG_NONE)

  /** `e` records the directive `x` at `start`, whose first unnumbered argument is `next`. */
  ghost predicate Describes(e: Entry, f: string, x: Spec, start: nat, next: nat)
  {
    && FormatMeaning.Valid(x)
    && e.start == start && e.start <= e.end <= |f| && f[e.start..e.end] == "%" + Body(x)
    && e.flags == (set c | c in x.flags) && e.conversion == Recorded(x.conversion)
    && Fields(e.width, f, x.width, WidthText(x.width))
    && Fields(e.precision, f, x.precision, PrecisionText(x.precision))
    && TakesArguments(e, x, next)
  }

  ghost predicate TakesArguments(e: Entry, x: Spec, next: nat)
    requires FormatMeaning.Valid(x)
  {
    && TakesStar(e.widthArg, x.width, next) && TakesStar(e.precisionArg, x.precision, StarNext(x.width, next))
    && e.argument as nat ==
       if TypeOf(Sized(x.size), x.conversion) != NoType then IndexOf(x.position, StarsNext(x, next)) else SIZE_MAX
  }

  ghost predicate TakesStar(argument: Size, q: Amount, next: nat)
    requires GoodAmount(q)
  {
    argument as nat == if q.Star? then IndexOf(q.position, next) else SIZE_MAX
  }

  // ----- what makes a format unacceptable -----

  predicate Bad(uses: seq<Use>)
  {
    !Consistent(uses) || exists i :: 0 <= i < |uses| && TooLarge(uses[i].index, ARGUMENT_SIZE)
  }

  lemma BadGrows(a: seq<Use>, b: seq<Use>)
    requires a <= b && Bad(a)
    ensures Bad(b)
  {
    if Consistent(a) {
      var i :| 0 <= i < |a| && TooLarge(a[i].index, ARGUMENT_SIZE);
      assert TooLarge(b[i].index, ARGUMENT_SIZE);
    } else {
      var i, j :| 0 <= i < j < |a| && a[i].index == a[j].index && a[i].kind != a[j].kind;
      assert b[i].index == b[j].index && b[i].kind != b[j].kind;
    }
  }

  // ----- the records of a whole format -----

  /** Where the `i`-th directive starts. */
  function Offset(pieces: seq<Directive>, i: nat): nat
    requires i < |pieces|
  {
    |Show(Body, pieces[..i])| + |pieces[i].gap|
  }

  /** The entries record the directives of `pieces` one by one. */
  ghost predicate Records(entries: seq<Entry>, f: string, pieces: seq<Directive>)
  {
    && |entries| == |pieces|
    && forall i :: 0 <= i < |pieces| ==>
         Describes(entries[i], f, pieces[i].item, Offset(pieces, i), NextArgument(pieces[..i]))
  }

  /** The greatest length of a recorded width, and of a recorded precision. */
  ghost predicate Longest(entries: seq<Entry>, width: nat, precision: nat)
  {
    && (forall i :: 0 <= i < |entries| ==>
          entries[i].width.start <= entries[i].width.end <= entries[i].width.start + width)
    && (forall i :: 0 <= i < |entries| ==>
          entries[i].precision.start <= entries[i].precision.end <= entries[i].precision.start + precision)
    && (width > 0 ==> exists i :: 0 <= i < |entries| && entries[i].width.end == entries[i].width.start + width)
    && (precision > 0 ==>
          exists i :: 0 <= i < |entries| && entries[i].precision.end == entries[i].precision.start + precision)
  }

  /** No way of splitting the format is acceptable. */
  ghost predicate Hopeless(f: string)
  {
    forall pieces, end :: Consists(f, pieces, end) ==> Bad(Uses(pieces)) || TooLarge(|pieces|, DIRECTIVE_SIZE)
  }

  lemma LongestMore(entries: seq<Entry>, width: nat, precision: nat, e: Entry)
    requires Longest(entries, width, precision) && e.width.start <= e.width.end && e.precision.start <= e.precision.end
    ensures Longest(entries + [e], Max(width, e.width.end - e.width.start),
                    Max(precision, e.precision.end - e.precision.start))
  {
    var all := entries + [e];
    var n := |entries|;
    assert all[n] == e;
    if e.width.end - e.width.start <= width && width > 0 {
      var i :| 0 <= i < n && entries[i].width.end == entries[i].width.start + width;
      assert all[i] == entries[i];
    }
    if e.precision.end - e.precision.start <= precision && precision > 0 {
      var i :| 0 <= i < n && entries[i].precision.end == entries[i].precision.start + precision;
      assert all[i] == entries[i];
    }
  }

  function Max(a: nat, b: nat): nat { if a < b then b else a }

  lemma RecordsMore(entries: seq<Entry>, f: string, done: seq<Directive>, e: Entry, p: Directive)
    requires Records(entries, f, done)
    requires Describes(e, f, p.item, |Show(Body, done)| + |p.gap|, NextArgument(done))
    ensures Records(entries + [e], f, done + [p])
  {
    var all, pieces := entries + [e], done + [p];
    forall i | 0 <= i < |done|
      ensures Describes(all[i], f, pieces[i].item, Offset(pieces, i), NextArgument(pieces[..i]))
    {
      assert pieces[..i] == done[..i];
      assert Offset(pieces, i) == Offset(done, i);
      assert all[i] == entries[i] && pieces[i] == done[i];
    }
    assert pieces[..|done|] == done;
    assert Offset(pieces, |done|) == |Show(Body, done)| + |p.gap|;
  }

  /** Every way of splitting a text that has begun with `done` goes on with the directive read at `%`. */
  lemma MustGoOn(f: string, done: seq<Directive>, gap: string, s: string, pieces: seq<Directive>, end: string)
    requires WellFormed(FormatMeaning.Valid, done) && Literal(gap) && f == Show(Body, done) + (gap + "%" + s)
    requires Consists(f, pieces, end)
    ensures ReadShape(s).Some? && FormatMeaning.Valid(ReadShape(s).value)
    ensures |done| < |pieces| && pieces[..|done| + 1] == done + [Piece(gap, ReadShape(s).value)]
  {
    DirectivesAreFaithful();
    SplitMustGoOn(Body, ReadShape, FormatMeaning.Valid, done, gap, s, pieces, end);
  }

  lemma BadEnds(f: string, done: seq<Directive>, gap: string, s: string)
    requires WellFormed(FormatMeaning.Valid, done) && Literal(gap) && f == Show(Body, done) + (gap + "%" + s)
    requires ReadShape(s).Some? && FormatMeaning.Valid(ReadShape(s).value)
    requires var more := done + [Piece(gap, ReadShape(s).value)];
             WellFormed(FormatMeaning.Valid, more) && (Bad(Uses(more)) || TooLarge(|more|, DIRECTIVE_SIZE))
    ensures Hopeless(f)
  {
    var more := done + [Piece(gap, ReadShape(s).value)];
    forall pieces, end | Consists(f, pieces, end)
      ensures Bad(Uses(pieces)) || TooLarge(|pieces|, DIRECTIVE_SIZE)
    {
      MustGoOn(f, done, gap, s, pieces, end);
      UsesOfPrefix(more, pieces);
      if Bad(Uses(more)) {
        BadGrows(Uses(more), Uses(pieces));
      } else {
        MoreTimes(2 * |more| + 1, 2 * |pieces| + 1, DIRECTIVE_SIZE as nat);
      }
    }
  }

  lemma UnreadEnds(f: string, done: seq<Directive>, gap: string, s: string)
    requires WellFormed(FormatMeaning.Valid, done) && Literal(gap) && f == Show(Body, done) + (gap + "%" + s)
    requires !(ReadShape(s).Some? && FormatMeaning.Valid(ReadShape(s).value))
    ensures Hopeless(f)
  {
    if pieces, end :| Consists(f, pieces, end) {
      MustGoOn(f, done, gap, s, pieces, end);
    }
  }

  lemma UsesMore(done: seq<Directive>, p: Directive)
    requires WellFormed(FormatMeaning.Valid, done) && Literal(p.gap) && FormatMeaning.Valid(p.item)
    ensures WellFormed(FormatMeaning.Valid, done + [p])
    ensures Uses(done + [p]) == Uses(done) + SpecUses(p.item, NextArgument(done))
    ensures NextArgument(done + [p]) == SpecNext(p.item, NextArgument(done))
  {
    assert (done + [p])[..|done|] == done;
  }

  /** What has been read so far: well-formed pieces, their arguments and their records. */
  ghost predicate Read(f: string, upto: nat, done: seq<Directive>, table: seq<ArgType>, entries: seq<Entry>, next: nat,
                       width: nat, precision: nat)
  {
    && upto <= |f| && f[..upto] == Show(Body, done) && WellFormed(FormatMeaning.Valid, done)
    && TableOf(table, Uses(done)) && next == NextArgument(done)
    && Records(entries, f, done) && Longest(entries, width, precision)
  }

  /** What one more directive adds. */
  lemma ReadAdds(f: string, upto: nat, cp: nat, end: nat, done: seq<Directive>, x: Spec, table: seq<ArgType>,
                 more: seq<ArgType>, entries: seq<Entry>, e: Entry, next: nat, width: nat, precision: nat)
    requires Read(f, upto, done, table, entries, next, width, precision)
    requires upto <= cp < end <= |f| && f[cp] == '%' && Literal(f[upto..cp]) && Body(x) == f[cp + 1..end]
    requires FormatMeaning.Valid(x) && TableOf(more, Uses(done) + SpecUses(x, next)) && Describes(e, f, x, cp, next)
    ensures Read(f, end, done + [Piece(f[upto..cp], x)], more, entries + [e], SpecNext(x, next),
                 Max(width, e.width.end - e.width.start), Max(precision, e.precision.end - e.precision.start))
  {
    var p := Piece(f[upto..cp], x);
    ShowOn(Body, f, upto, cp, end, done, x);
    UsesMore(done, p);
    RecordsMore(entries, f, done, e, p);
    LongestMore(entries, width, precision, e);
  }

  lemma BodyInFront(s: string, x: Spec, body: string)
    requires ReadShape(s) == Some(x) && body == Body(x)
    ensures body <= s
  {
    ReadIsSound(s);
  }

  lemma TextAt(f: string, cp: nat, end: nat, body: string)
    requires cp < |f| && f[cp] == '%' && body <= f[cp + 1..] && end == cp + 1 + |body|
    ensures end <= |f| && body == f[cp + 1..end] && f[cp..end] == "%" + body
  {
    PrefixAt(f, cp + 1, body);
    CutAround(f, cp, cp, end);
  }

  lemma Finished(f: string, upto: nat, pieces: seq<Directive>, table: seq<ArgType>, entries: seq<Entry>, next: nat,
                 width: nat, precision: nat)
    requires Read(f, upto, pieces, table, entries, next, width, precision) && Literal(f[upto..|f|])
    ensures Consists(f, pieces, f[upto..])
    ensures next == NextArgument(pieces) && |f| - |f[upto..]| == upto
  {
    assert f[upto..|f|] == f[upto..];
    SplitsAt(Body, FormatMeaning.Valid, f, upto, pieces);
  }

  lemma ReadNothing(f: string)
    ensures Read(f, 0, [], [], [], 0, 0, 0)
  {
  }
}
