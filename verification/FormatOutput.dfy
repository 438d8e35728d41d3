/** Producing formatted output: the growing result, and the run through the directives of a parsed format. */
module FormatOutput {
  import opened CheckedSizes
  import opened Interleaving
  import opened FormatSyntax
  import opened FormatMeaning
  import opened FormatArguments
  import opened FormatRecords
  import opened FormatResolved
  import opened FormatRebuilt

  // ----- the result -----

  class Output {
    var result: array<char>
    var length: nat

    ghost predicate Valid()
      reads this
    {
      length <= result.Length < SIZE_MAX
    }

    ghost function Text(): string
      requires Valid()
      reads this, result
    {
      result[..length]
    }

    constructor ()
      ensures Valid() && Text() == "" && fresh(result)
    {
      result := new char[0];
      length := 0;
    }

    /** Makes room for `needed` characters: fails only beyond half of all sizes. */
    method EnsureAllocation(needed: Size) returns (ok: bool)
      requires Valid()
      modifies this`result
      ensures Valid() && Text() == old(Text()) && (result == old(result) || fresh(result))
      ensures ok ==> needed as nat <= result.Length
      ensures !ok ==> 2 * needed as nat >= SIZE_MAX
    {
      ok := true;
      if needed as nat > result.Length {
        var room: Size := if result.Length > 0 then Xtimes(result.Length as Size, 2) else 12;
        if needed > room {
          room := needed;
        }
        ok := !Overflows(Xtimes(room, 1));
        if ok {
          var was := result[..];
          var memory := new char[room as nat](i => if 0 <= i < |was| then was[i] else ' ');
          assert memory[..length] == was[..length] == result[..length];
          result := memory;
        }
      }
    }

    method Append(text: string) returns (ok: bool)
      requires Valid() && |text| <= SIZE_MAX
      modifies this, result
      ensures Valid() && (result == old(result) || fresh(result))
      ensures ok ==> Text() == old(Text()) + text
      ensures !ok ==> 2 * (old(length) + |text|) >= SIZE_MAX
    {
      var augmented := Xsum(length as Size, |text| as Size);
      ok := EnsureAllocation(augmented);
      if ok {
        length := PutText(result, length, text);
      }
    }

    /** The terminator, behind the text. */
    method Terminate() returns (ok: bool)
      requires Valid()
      modifies this`result, result
      ensures Valid() && (result == old(result) || fresh(result)) && Text() == old(Text())
      ensures ok ==> length < result.Length && result[length] == '\0'
      ensures !ok ==> 2 * (|Text()| + 1) >= SIZE_MAX
    {
      ok := EnsureAllocation(Xsum(length as Size, 1));
      if ok {
        result[length] := '\0';
        assert result[..length] == old(Text());
      }
    }
  }

  // ----- the whole output -----

  lemma OneEntry(e: Entry, f: string, x: Spec, start: nat, next: nat, body: string)
    requires Describes(e, f, x, start, next) && body == Body(x)
    ensures e.start == start <= |f| && e.end == start + 1 + |body| && e.conversion == Recorded(x.conversion)
  {
    assert |f[e.start..e.end]| == |"%" + body|;
  }

  /** Where a recorded directive and the literal text before it stand. */
  ghost predicate Stands(e: Entry, f: string, cp: nat, gap: string, after: nat, conversion: char)
  {
    cp <= e.start <= |f| && f[cp..e.start] == gap && e.end == after && e.conversion == Recorded(conversion)
  }

  lemma RecordAt(entries: seq<Entry>, f: string, pieces: seq<Directive>, i: nat, start: nat)
    requires Records(entries, f, pieces) && i < |pieces| && start == Offset(pieces, i)
    ensures |entries| == |pieces|
    ensures Describes(entries[i], f, pieces[i].item, start, NextArgument(pieces[..i]))
  {
  }

  lemma StandsAt(e: Entry, f: string, x: Spec, cp: nat, gap: string, next: nat, after: nat, body: string)
    requires Describes(e, f, x, cp + |gap|, next) && body == Body(x)
    requires cp + |gap| <= |f| && f[cp..cp + |gap|] == gap && after == cp + |gap| + 1 + |body|
    ensures Stands(e, f, cp, gap, after, x.conversion)
  {
    OneEntry(e, f, x, cp + |gap|, next, body);
  }

  lemma PiecePlace(f: string, pieces: seq<Directive>, rest: string, i: nat, cp: nat, after: nat, body: string)
    requires i < |pieces| && f == Show(Body, pieces) + rest && body == Body(pieces[i].item)
    requires cp == |Show(Body, pieces[..i])| && after == |Show(Body, pieces[..i + 1])|
    ensures cp + |pieces[i].gap| <= |f| && f[cp..cp + |pieces[i].gap|] == pieces[i].gap
    ensures after == cp + |pieces[i].gap| + 1 + |body|
  {
    PieceAt(Body, f, pieces, rest, i);
  }

  lemma PlaceOf(f: string, entries: seq<Entry>, pieces: seq<Directive>, rest: string, i: nat, cp: nat)
    requires Records(entries, f, pieces) && i < |pieces| && f == Show(Body, pieces) + rest
    requires cp == |Show(Body, pieces[..i])|
    ensures Stands(entries[i], f, cp, pieces[i].gap, |Show(Body, pieces[..i + 1])|, pieces[i].item.conversion)
  {
    hide Records, Describes, Stands, Body, Show, NextArgument;
    var x, gap, after, start := pieces[i].item, pieces[i].gap, |Show(Body, pieces[..i + 1])|, Offset(pieces, i);
    RecordAt(entries, f, pieces, i, start);
    PiecePlace(f, pieces, rest, i, cp, after, Body(x));
    StandsAt(entries[i], f, x, cp, gap, NextArgument(pieces[..i]), after, Body(x));
  }

  lemma RestAt(f: string, pieces: seq<Directive>, rest: string)
    requires f == Show(Body, pieces) + rest
    ensures |Show(Body, pieces)| <= |f| && f[|Show(Body, pieces)|..] == rest
  {
  }

  /** A text that cannot be held: with its terminator it takes half of all sizes. */
  predicate TooLong(text: string) { 2 * (|text| + 1) >= SIZE_MAX }

  lemma LongerIsTooLong(a: string, b: string)
    requires TooLong(a) && |a| <= |b|
    ensures TooLong(b)
  {
  }

  /** Rebuilds a directive in the scratch buffer and has the library print it. */
  method CallLibrary(o: Output, buf: array<char>, f: string, table: seq<ArgType>, entries: seq<Entry>, i: nat,
                     width: nat, precision: nat, library: Library, ghost pieces: seq<Directive>, ghost rest: string)
    returns (ok: bool)
    requires Parsed(f, pieces, rest, table, entries, width, precision) && i < |entries| && PrintsInMemory(library)
    requires buf.Length == 7 + width + precision + 6 && o.Valid() && buf != o.result && AllWithin(f, entries)
    requires entries[i].conversion != '%'
    modifies o, o.result, buf
    ensures o.Valid() && (o.result == old(o.result) || fresh(o.result))
    ensures ok ==> o.Text() == old(o.Text()) + Outputs(f, table, entries, library)[i]
    ensures !ok ==> TooLong(old(o.Text()) + Outputs(f, table, entries, library)[i])
  {
    var end := Rebuild(buf, f, table, entries, i, width, precision, pieces, rest);
    ok := o.Append(library(i, buf[..end]));
  }

  /** The directive's own output: a percent sign, nothing, or what the library prints. */
  method Execute(o: Output, buf: array<char>, f: string, table: seq<ArgType>, entries: seq<Entry>, i: nat, width: nat,
                 precision: nat, library: Library, ghost pieces: seq<Directive>, ghost rest: string)
    returns (ok: bool)
    requires Parsed(f, pieces, rest, table, entries, width, precision) && i < |entries| && PrintsInMemory(library)
    requires buf.Length == 7 + width + precision + 6 && o.Valid() && buf != o.result && AllWithin(f, entries)
    modifies o, o.result, buf
    ensures o.Valid() && (o.result == old(o.result) || fresh(o.result))
    ensures
      var printed := Printed(entries[i].conversion, Outputs(f, table, entries, library)[i]);
      && (ok ==> o.Text() == old(o.Text()) + printed)
      && (!ok ==> TooLong(old(o.Text()) + printed))
  {
    hide Parsed, AllWithin, Rebuilt, KindOf, PrintsInMemory;
    if entries[i].conversion == '%' {
      ParsedResolves(f, pieces, rest, table, entries, width, precision, i);
      assert entries[i].argument == ARG_NONE;
      ok := o.Append("%");
    } else if entries[i].conversion == 'n' {
      assert o.Text() + "" == o.Text();
      ok := true;
    } else {
      ok := CallLibrary(o, buf, f, table, entries, i, width, precision, library, pieces, rest);
    }
  }

  lemma RecordedPrints(conversion: char, output: string)
    ensures Printed(Recorded(conversion), output) == Printed(conversion, output)
  {
  }

  /** The literal text before a directive, and the directive's output. */
  method ProduceOne(o: Output, buf: array<char>, f: string, table: seq<ArgType>, entries: seq<Entry>, i: nat, cp: nat,
                    width: nat, precision: nat, library: Library, ghost pieces: seq<Directive>, ghost rest: string,
                    ghost outputs: seq<string>)
    returns (ok: bool, after: nat)
    requires Job(f, pieces, rest, table, entries, width, precision, library, outputs) && i < |entries|
    requires buf.Length == 7 + width + precision + 6 && o.Valid() && buf != o.result
    requires Reached(pieces, outputs, i, cp, o.Text())
    modifies o, o.result, buf
    ensures o.Valid() && (o.result == old(o.result) || fresh(o.result))
    ensures ok ==> Reached(pieces, outputs, i + 1, after, o.Text())
    ensures !ok ==> |outputs| == |pieces| && TooLong(Woven(pieces, outputs))
  {
    var e := entries[i];
    after := e.end;
    ParsedParts(f, pieces, rest, table, entries, width, precision);
    ConsistsShow(f, pieces, rest);
    PlaceOf(f, entries, pieces, rest, i, cp);
    RecordedPrints(pieces[i].item.conversion, outputs[i]);
    ghost var text, printed := o.Text(), Printed(e.conversion, outputs[i]);
    ok := o.Append(f[cp..e.start]);
    if ok {
      ok := Execute(o, buf, f, table, entries, i, width, precision, library, pieces, rest);
    }
    OneReached(pieces, outputs, i, cp, text, after, printed);
    if !ok {
      StillTooLong(pieces, outputs, i + 1, text + pieces[i].gap + printed);
    }
  }

  lemma StillTooLong(pieces: seq<Directive>, outputs: seq<string>, i: nat, text: string)
    requires i <= |pieces| == |outputs| && text == Woven(pieces[..i], outputs[..i]) && TooLong(text)
    ensures TooLong(Woven(pieces, outputs))
  {
    WovenGrows(pieces, outputs, i);
  }

  lemma ConsistsShow(f: string, pieces: seq<Directive>, rest: string)
    requires Consists(f, pieces, rest)
    ensures f == Show(Body, pieces) + rest
  {
  }

  lemma OneReached(pieces: seq<Directive>, outputs: seq<string>, i: nat, cp: nat, text: string, after: nat,
                   printed: string)
    requires i < |pieces| && Reached(pieces, outputs, i, cp, text) && after == |Show(Body, pieces[..i + 1])|
    requires printed == Printed(pieces[i].item.conversion, outputs[i])
    ensures Reached(pieces, outputs, i + 1, after, text + pieces[i].gap + printed)
    ensures Woven(pieces[..i + 1], outputs[..i + 1]) == text + pieces[i].gap + printed
  {
    ReachedNext(pieces, outputs, i, cp, text, after, text + pieces[i].gap + printed);
  }

  lemma JobParts(f: string, pieces: seq<Directive>, rest: string, table: seq<ArgType>, entries: seq<Entry>,
                 width: nat, precision: nat, library: Library, outputs: seq<string>)
    requires Job(f, pieces, rest, table, entries, width, precision, library, outputs)
    ensures |entries| == |pieces| == |outputs|
  {
  }

  /** Every directive in turn. */
  method ProduceAll(o: Output, buf: array<char>, f: string, table: seq<ArgType>, entries: seq<Entry>, width: nat,
                    precision: nat, library: Library, ghost pieces: seq<Directive>, ghost rest: string,
                    ghost outputs: seq<string>)
    returns (ok: bool, cp: nat)
    requires Job(f, pieces, rest, table, entries, width, precision, library, outputs)
    requires buf.Length == 7 + width + precision + 6 && o.Valid() && buf != o.result && o.Text() == ""
    modifies o, o.result, buf
    ensures o.Valid() && (o.result == old(o.result) || fresh(o.result)) && |outputs| == |pieces|
    ensures ok ==> Reached(pieces, outputs, |pieces|, cp, o.Text())
    ensures !ok ==> TooLong(Woven(pieces, outputs))
  {
    hide Job;
    JobParts(f, pieces, rest, table, entries, width, precision, library, outputs);
    var i: nat;
    ok, cp, i := true, 0, 0;
    ReachedStart(pieces, outputs);
    while i < |entries|
      invariant i <= |entries| && ok
      invariant o.Valid() && (o.result == old(o.result) || fresh(o.result)) && buf != o.result
      invariant Reached(pieces, outputs, i, cp, o.Text())
    {
      ok, cp := ProduceOne(o, buf, f, table, entries, i, cp, width, precision, library, pieces, rest, outputs);
      if !ok {
        return;
      }
      i := i + 1;
    }
  }

  /** Copies the literal text of a parsed format and puts the directives' output in between.  It fails only if the
      output, or else a single directive, is too long to be held. */
  method Produce(f: string, table: seq<ArgType>, entries: seq<Entry>, width: nat, precision: nat, library: Library,
                 ghost pieces: seq<Directive>, ghost rest: string)
    returns (ok: bool, o: Output)
    requires Parsed(f, pieces, rest, table, entries, width, precision) && PrintsInMemory(library) && |f| <= SIZE_MAX
    ensures AllWithin(f, entries) && |entries| == |pieces| && o.Valid()
    ensures
      var text := Woven(pieces, Outputs(f, table, entries, library)) + rest;
      && (ok ==> o.Text() == text && o.length < o.result.Length && o.result[o.length] == '\0')
      && (!ok ==> TooLong(text) || 7 + width + precision + 6 >= SIZE_MAX)
  {
    ParsedParts(f, pieces, rest, table, entries, width, precision);
    ParsedWithin(f, pieces, rest, table, entries, width, precision);
    LongestFit(f, pieces, rest, table, entries, width, precision);
    ghost var outputs := Outputs(f, table, entries, library);
    o := new Output();
    var needed := Xsum4(7, width as Size, precision as Size, 6);
    if Overflows(Xtimes(needed, 1)) {
      return false, o;
    }
    var buf := new char[needed as nat](_ => ' ');
    var cp;
    ok, cp := ProduceAll(o, buf, f, table, entries, width, precision, library, pieces, rest, outputs);
    if ok {
      ok := Finish(o, f, cp, pieces, rest, outputs);
    } else {
      LongerIsTooLong(Woven(pieces, outputs), Woven(pieces, outputs) + rest);
    }
  }

  /** The literal end of the format, and the terminator. */
  method Finish(o: Output, f: string, cp: nat, ghost pieces: seq<Directive>, ghost rest: string,
                ghost outputs: seq<string>)
    returns (ok: bool)
    requires Consists(f, pieces, rest) && |f| <= SIZE_MAX && |outputs| == |pieces| && o.Valid()
    requires Reached(pieces, outputs, |pieces|, cp, o.Text())
    modifies o, o.result
    ensures o.Valid()
    ensures ok ==> o.Text() == Woven(pieces, outputs) + rest && o.length < o.result.Length && o.result[o.length] == '\0'
    ensures !ok ==> TooLong(Woven(pieces, outputs) + rest)
  {
    ConsistsShow(f, pieces, rest);
    ReachedEnd(pieces, outputs, cp, o.Text());
    RestAt(f, pieces, rest);
    ok := o.Append(f[cp..]);
    if ok {
      ok := o.Terminate();
    }
  }
}
