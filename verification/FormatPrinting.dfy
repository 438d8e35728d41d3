/** Formatted printing as a whole: parsing the format, fetching the arguments and producing the output. */
module FormatPrinting {
  import opened CheckedSizes
  import opened Interleaving
  import opened FormatSyntax
  import opened FormatMeaning
  import opened FormatArguments
  import opened FormatRecords
  import opened FormatResolved
  import opened FormatTypes
  import opened FormatRebuilt
  import opened FormatParser
  import opened FormatOutput

  /** What the library is given for a directive: the same without argument positions, and a count of the output. */
  function Asked(x: Spec): string
  {
    "%" + Body(PlainSpec(x, set c | c in x.flags)) + "%n\0"
  }

  /** What the library prints for each directive of a format. */
  ghost function Prints(pieces: seq<Directive>, library: Library): (r: seq<string>)
    ensures |r| == |pieces| && forall i :: 0 <= i < |r| ==> r[i] == library(i, Asked(pieces[i].item))
  {
    seq(|pieces|, i requires 0 <= i < |pieces| => library(i, Asked(pieces[i].item)))
  }

  /** The meaning of a format: its literal text, with what the library prints for the directives in their places. */
  ghost function Expansion(pieces: seq<Directive>, rest: string, library: Library): string
  {
    Woven(pieces, Prints(pieces, library)) + rest
  }

  /** No argument is left out below the highest one used. */
  ghost predicate AllUsed(uses: seq<Use>)
  {
    forall i, n: nat :: 0 <= i < |uses| && n <= uses[i].index ==> Taken(uses, n)
  }

  lemma AllUsedByTable(table: seq<ArgType>, uses: seq<Use>)
    requires TableOf(table, uses)
    ensures AllUsed(uses) <==> forall n :: 0 <= n < |table| ==> Taken(uses, n)
  {
    if AllUsed(uses) && table != [] {
      assert table[|table| - 1] != NoType && Taken(uses, |table| - 1);
      var i :| 0 <= i < |uses| && uses[i].index == |table| - 1;
      assert forall n: nat :: n <= uses[i].index ==> Taken(uses, n);
    }
  }

  lemma ParsedUses(f: string, pieces: seq<Directive>, rest: string, table: seq<ArgType>, entries: seq<Entry>,
                   width: nat, precision: nat)
    requires Parsed(f, pieces, rest, table, entries, width, precision)
    ensures WellFormed(FormatMeaning.Valid, pieces) && TableOf(table, Uses(pieces)) && Unmixed(pieces)
  {
    TableIsConsistent(table, Uses(pieces));
    ConsistentByLetters(pieces);
  }

  /** Outputs that agree where they are printed are woven alike. */
  lemma WovenSame(pieces: seq<Directive>, a: seq<string>, b: seq<string>)
    requires |a| == |b| == |pieces|
    requires forall i :: 0 <= i < |pieces| && pieces[i].item.conversion !in {'%', 'n'} ==> a[i] == b[i]
    ensures Woven(pieces, a) == Woven(pieces, b)
  {
    if pieces != [] {
      var n := |pieces| - 1;
      WovenSame(pieces[..n], a[..n], b[..n]);
    }
  }

  lemma RecordedPlain(c: char)
    ensures Recorded(c) in {'%', 'n'} <==> c in {'%', 'n'}
  {
  }

  lemma OneAsked(f: string, pieces: seq<Directive>, rest: string, table: seq<ArgType>, entries: seq<Entry>,
                 width: nat, precision: nat, library: Library, i: nat)
    requires Parsed(f, pieces, rest, table, entries, width, precision) && i < |entries| && AllWithin(f, entries)
    requires i < |pieces| && pieces[i].item.conversion !in {'%', 'n'}
    ensures Outputs(f, table, entries, library)[i] == library(i, Asked(pieces[i].item))
  {
    hide Parsed, Rebuilt, KindOf, AllWithin;
    ParsedDescribes(f, pieces, rest, table, entries, width, precision, i);
    RecordedPlain(pieces[i].item.conversion);
    RebuiltMeans(f, pieces, rest, table, entries, width, precision, i);
  }

  lemma SameOutput(f: string, pieces: seq<Directive>, rest: string, table: seq<ArgType>, entries: seq<Entry>,
                   width: nat, precision: nat, library: Library)
    requires Parsed(f, pieces, rest, table, entries, width, precision) && AllWithin(f, entries)
    requires |entries| == |pieces|
    ensures Woven(pieces, Outputs(f, table, entries, library)) + rest == Expansion(pieces, rest, library)
  {
    hide Parsed, AllWithin, Asked, Woven;
    var a, b := Outputs(f, table, entries, library), Prints(pieces, library);
    forall i | 0 <= i < |pieces| && pieces[i].item.conversion !in {'%', 'n'}
      ensures a[i] == b[i]
    {
      OneAsked(f, pieces, rest, table, entries, width, precision, library, i);
    }
    WovenSame(pieces, a, b);
  }

  /** The whole of `vasnprintf`.  Success means that the format is well formed, takes no argument under two types and
      leaves none out, and the result is its meaning.  Failure means that it cannot be accepted, leaves an argument out,
      or is too long, itself or its output. */
  method Print(f: string, library: Library)
    returns (ok: bool, o: FormatOutput.Output, ghost pieces: seq<Directive>, ghost rest: string)
    requires |f| <= SIZE_MAX && PrintsInMemory(library)
    ensures ok ==>
      && Consists(f, pieces, rest) && Unmixed(pieces) && AllUsed(Uses(pieces))
      && o.Valid() && o.Text() == Expansion(pieces, rest, library)
      && o.length < o.result.Length && o.result[o.length] == '\0'
    ensures !ok ==>
      || Hopeless(f)
      || (Consists(f, pieces, rest)
          && (!AllUsed(Uses(pieces)) || TooLong(Expansion(pieces, rest, library)) || 7 + 2 * |f| + 6 >= SIZE_MAX))
  {
    hide Consists, Parsed, TableOf, Unmixed, Taken, Hopeless, Woven;
    o := new FormatOutput.Output();
    var a, d, width, precision;
    ok, a, d, width, precision, pieces, rest := Parse(f);
    if ok {
      ghost var table, entries := a.Table(), d.View();
      ParsedParts(f, pieces, rest, table, entries, width, precision);
      ParsedUses(f, pieces, rest, table, entries, width, precision);
      AllUsedByTable(table, Uses(pieces));
      LongestFit(f, pieces, rest, table, entries, width, precision);
      ok := FetchArgs(a, Uses(pieces));
      if ok {
        ok, o := Produce(f, a.arg[..a.count], d.dir[..d.count], width, precision, library, pieces, rest);
        SameOutput(f, pieces, rest, table, entries, width, precision, library);
      }
    }
  }
}
