/** What the records of a parsed format promise to the code that uses them: every argument number is in the table,
    under the type asked for, and the longest width and precision bound every directive. */
module FormatResolved {
  import opened CheckedSizes
  import opened Interleaving
  import opened FormatSyntax
  import opened FormatMeaning
  import opened FormatArguments
  import opened FormatScan
  import opened FormatRecords

  /** An argument number, if there is one, is in the table under this type. */
  predicate In(table: seq<ArgType>, argument: Size, kind: ArgType)
  {
    argument != ARG_NONE ==> argument as nat < |table| && table[argument as nat] == kind
  }

  /** The record of `x` has a number for each argument that `x` takes, and finds it in the table under its type. */
  predicate Resolved(e: Entry, x: Spec, table: seq<ArgType>)
  {
    && (e.widthArg != ARG_NONE <==> x.width.Star?) && In(table, e.widthArg, Int)
    && (e.precisionArg != ARG_NONE <==> x.precision.Star?) && In(table, e.precisionArg, Int)
    && (e.argument == ARG_NONE <==> e.conversion == '%')
    && In(table, e.argument, TypeOf(Sized(x.size), x.conversion))
  }

  lemma UsesOfPiece(pieces: seq<Directive>, i: nat)
    requires WellFormed(FormatMeaning.Valid, pieces) && i < |pieces|
    ensures forall u :: u in SpecUses(pieces[i].item, NextArgument(pieces[..i])) ==> u in Uses(pieces)
  {
    var done := pieces[..i + 1];
    assert done[..i] == pieces[..i];
    UsesOfPrefix(done, pieces);
    assert Uses(done) == Uses(pieces[..i]) + SpecUses(pieces[i].item, NextArgument(pieces[..i]));
  }

  lemma UseInTable(table: seq<ArgType>, uses: seq<Use>, u: Use)
    requires TableOf(table, uses) && u in uses
    ensures u.index < |table| && table[u.index] == u.kind
  {
    var k :| 0 <= k < |uses| && uses[k] == u;
  }

  lemma StarInTable(table: seq<ArgType>, uses: seq<Use>, argument: Size, q: Amount, next: nat)
    requires TableOf(table, uses) && |table| <= SIZE_MAX && GoodAmount(q) && TakesStar(argument, q, next)
    requires forall u :: u in StarUse(q, next) ==> u in uses
    ensures (argument != ARG_NONE <==> q.Star?) && In(table, argument, Int)
  {
    if q.Star? {
      var u := Use(IndexOf(q.position, next), Int);
      assert u in StarUse(q, next);
      UseInTable(table, uses, u);
    }
  }

  lemma NoTypeIsPercent(f: SizeFlags, conversion: char)
    requires IsConversion(conversion)
    ensures TypeOf(f, conversion) == NoType <==> Recorded(conversion) == '%'
  {
  }

  lemma OwnInTable(table: seq<ArgType>, uses: seq<Use>, e: Entry, x: Spec, next: nat)
    requires TableOf(table, uses) && |table| <= SIZE_MAX && FormatMeaning.Valid(x) && TakesArguments(e, x, next)
    requires e.conversion == Recorded(x.conversion) && forall u :: u in OwnUse(x, next) ==> u in uses
    ensures e.argument == ARG_NONE <==> e.conversion == '%'
    ensures In(table, e.argument, TypeOf(Sized(x.size), x.conversion))
  {
    var kind := TypeOf(Sized(x.size), x.conversion);
    NoTypeIsPercent(Sized(x.size), x.conversion);
    if kind != NoType {
      var u := Use(IndexOf(x.position, StarsNext(x, next)), kind);
      assert u in OwnUse(x, next);
      UseInTable(table, uses, u);
    }
  }

  lemma DescribedIsResolved(table: seq<ArgType>, uses: seq<Use>, e: Entry, f: string, x: Spec, start: nat, next: nat)
    requires TableOf(table, uses) && |table| <= SIZE_MAX && Describes(e, f, x, start, next)
    requires forall u :: u in SpecUses(x, next) ==> u in uses
    ensures Resolved(e, x, table)
  {
    StarInTable(table, uses, e.widthArg, x.width, next);
    StarInTable(table, uses, e.precisionArg, x.precision, StarNext(x.width, next));
    OwnInTable(table, uses, e, x, next);
  }

  /** Every argument number recorded is in the table, under the one type that the directive asks for. */
  lemma EntriesResolve(f: string, upto: nat, pieces: seq<Directive>, table: seq<ArgType>, entries: seq<Entry>,
                       next: nat, width: nat, precision: nat, i: nat)
    requires Read(f, upto, pieces, table, entries, next, width, precision) && i < |entries| && |table| <= SIZE_MAX
    ensures Resolved(entries[i], pieces[i].item, table)
  {
    UsesOfPiece(pieces, i);
    DescribedIsResolved(table, Uses(pieces), entries[i], f, pieces[i].item, Offset(pieces, i),
        NextArgument(pieces[..i]));
  }

  /** Everything that parsing a whole format yields. */
  ghost predicate Parsed(f: string, pieces: seq<Directive>, rest: string, table: seq<ArgType>, entries: seq<Entry>,
                         width: nat, precision: nat)
  {
    && Consists(f, pieces, rest) && |rest| <= |f| && |table| < SIZE_MAX
    && Read(f, |f| - |rest|, pieces, table, entries, NextArgument(pieces), width, precision)
  }

  lemma ParsedParts(f: string, pieces: seq<Directive>, rest: string, table: seq<ArgType>, entries: seq<Entry>,
                    width: nat, precision: nat)
    requires Parsed(f, pieces, rest, table, entries, width, precision)
    ensures Consists(f, pieces, rest) && Records(entries, f, pieces) && |entries| == |pieces| && |table| < SIZE_MAX
  {
  }

  lemma ParsedResolves(f: string, pieces: seq<Directive>, rest: string, table: seq<ArgType>, entries: seq<Entry>,
                       width: nat, precision: nat, i: nat)
    requires Parsed(f, pieces, rest, table, entries, width, precision) && i < |entries|
    ensures i < |pieces| && Resolved(entries[i], pieces[i].item, table)
  {
    EntriesResolve(f, |f| - |rest|, pieces, table, entries, NextArgument(pieces), width, precision, i);
  }

  lemma ParsedDescribes(f: string, pieces: seq<Directive>, rest: string, table: seq<ArgType>, entries: seq<Entry>,
                        width: nat, precision: nat, i: nat)
    requires Parsed(f, pieces, rest, table, entries, width, precision) && i < |entries|
    ensures i < |pieces| && Describes(entries[i], f, pieces[i].item, Offset(pieces, i), NextArgument(pieces[..i]))
  {
  }

  /** The fields of a record lie in the format, and are no longer than these. */
  predicate Within(e: Entry, f: string, width: nat, precision: nat)
  {
    && e.width.start <= e.width.end <= |f| && e.precision.start <= e.precision.end <= |f|
    && e.width.end <= e.width.start + width && e.precision.end <= e.precision.start + precision
  }

  /** The longest width and precision bound every directive of the format. */
  lemma ParsedFits(f: string, pieces: seq<Directive>, rest: string, table: seq<ArgType>, entries: seq<Entry>,
                   width: nat, precision: nat, i: nat)
    requires Parsed(f, pieces, rest, table, entries, width, precision) && i < |entries|
    ensures Within(entries[i], f, width, precision)
  {
    assert Describes(entries[i], f, pieces[i].item, Offset(pieces, i), NextArgument(pieces[..i]));
  }

  /** They are lengths of parts of the format. */
  lemma LongestFit(f: string, pieces: seq<Directive>, rest: string, table: seq<ArgType>, entries: seq<Entry>,
                   width: nat, precision: nat)
    requires Parsed(f, pieces, rest, table, entries, width, precision)
    ensures width <= |f| && precision <= |f|
  {
    if width > 0 {
      var i :| 0 <= i < |entries| && entries[i].width.end == entries[i].width.start + width;
      ParsedFits(f, pieces, rest, table, entries, width, precision, i);
    }
    if precision > 0 {
      var i :| 0 <= i < |entries| && entries[i].precision.end == entries[i].precision.start + precision;
      ParsedFits(f, pieces, rest, table, entries, width, precision, i);
    }
  }

  lemma IsParsed(f: string, upto: nat, pieces: seq<Directive>, table: seq<ArgType>, entries: seq<Entry>, next: nat,
                 width: nat, precision: nat)
    requires Read(f, upto, pieces, table, entries, next, width, precision) && Literal(f[upto..|f|])
        && |table| < SIZE_MAX
    ensures Parsed(f, pieces, f[upto..], table, entries, width, precision)
  {
    Finished(f, upto, pieces, table, entries, next, width, precision);
  }

  /** Of every directive, the arguments are found in the table and the fields are within bounds. */
  lemma PartsOfAll(f: string, pieces: seq<Directive>, rest: string, table: seq<ArgType>, entries: seq<Entry>,
                   width: nat, precision: nat)
    requires Parsed(f, pieces, rest, table, entries, width, precision)
    ensures |entries| == |pieces| && forall i :: 0 <= i < |pieces| ==>
              Resolved(entries[i], pieces[i].item, table) && Within(entries[i], f, width, precision)
  {
    ParsedParts(f, pieces, rest, table, entries, width, precision);
    forall i | 0 <= i < |pieces|
      ensures Resolved(entries[i], pieces[i].item, table) && Within(entries[i], f, width, precision)
    {
      ParsedResolves(f, pieces, rest, table, entries, width, precision, i);
      ParsedFits(f, pieces, rest, table, entries, width, precision, i);
    }
  }
}
