/** What a format prints: each directive in its place, and any text at all by doubling its percent signs. */
module FormatLiteral {
  import opened Interleaving
  import opened FormatSyntax
  import opened FormatMeaning
  import opened FormatTypes
  import opened FormatRebuilt
  import opened FormatPrinting

  /** A further directive adds the text before it and then what the library prints for it; only a doubled percent sign
      adds a percent sign, and `n` nothing. */
  lemma WovenLast(pieces: seq<Directive>, outputs: seq<string>, p: Directive, output: string)
    requires |pieces| == |outputs|
    ensures
      var text, more := Woven(pieces, outputs), Woven(pieces + [p], outputs + [output]);
      && (p.item.conversion == '%' ==> more == text + p.gap + "%")
      && (p.item.conversion == 'n' ==> more == text + p.gap)
      && (p.item.conversion != '%' && p.item.conversion != 'n' ==> more == text + p.gap + output)
  {
    assert (pieces + [p])[..|pieces|] == pieces && (outputs + [output])[..|outputs|] == outputs;
  }

  function Double(c: char): string { if c == '%' then "%%" else [c] }

  /** The text with its percent signs doubled. */
  function Escaped(text: string): string
  {
    if text == "" then "" else Escaped(text[..|text| - 1]) + Double(text[|text| - 1])
  }

  const PERCENT: Spec := Spec(Plain, "", NoAmount, NoAmount, "", '%')

  lemma PercentBody()
    ensures Body(PERCENT) == "%" && FormatMeaning.Valid(PERCENT)
  {
  }

  lemma Doubled(shown: string, rest: string)
    ensures shown + rest + "%%" == shown + (rest + "%" + "%") + ""
  {
  }

  lemma ConsistsMore(f: string, pieces: seq<Directive>, rest: string)
    requires Consists(f, pieces, rest)
    ensures Consists(f + "%%", pieces + [Piece(rest, PERCENT)], "")
  {
    PercentBody();
    ShowMore(Body, pieces, Piece(rest, PERCENT));
    hide Body, Show, FormatMeaning.Valid;
    Doubled(Show(Body, pieces), rest);
  }

  lemma ConsistsOn(f: string, pieces: seq<Directive>, rest: string, c: char)
    requires Consists(f, pieces, rest) && c != '%'
    ensures Consists(f + [c], pieces, rest + [c])
  {
    hide Body, Show, FormatMeaning.Valid;
    assert Show(Body, pieces) + rest + [c] == Show(Body, pieces) + (rest + [c]);
  }

  lemma PercentTakesNothing(pieces: seq<Directive>, gap: string)
    requires WellFormed(FormatMeaning.Valid, pieces) && Literal(gap) && Uses(pieces) == []
    ensures WellFormed(FormatMeaning.Valid, pieces + [Piece(gap, PERCENT)])
    ensures Uses(pieces + [Piece(gap, PERCENT)]) == []
  {
    PercentBody();
    var all := pieces + [Piece(gap, PERCENT)];
    assert all[..|pieces|] == pieces;
    assert SpecUses(PERCENT, NextArgument(pieces)) == [];
  }

  /** Whatever the library prints, the pieces and the rest come out as the text, and take no arguments. */
  ghost predicate Yields(pieces: seq<Directive>, rest: string, text: string)
    requires WellFormed(FormatMeaning.Valid, pieces)
  {
    Uses(pieces) == [] && forall outputs: seq<string> :: |outputs| == |pieces| ==> Woven(pieces, outputs) + rest == text
  }

  lemma PercentPrinted(pieces: seq<Directive>, rest: string, text: string, outputs: seq<string>)
    requires |outputs| == |pieces| + 1 && Woven(pieces, outputs[..|pieces|]) + rest == text
    ensures Woven(pieces + [Piece(rest, PERCENT)], outputs) + "" == text + "%"
  {
    hide Woven;
    var last := Piece(rest, PERCENT);
    assert last.item.conversion == '%';
    WovenLast(pieces, outputs[..|pieces|], last, outputs[|pieces|]);
    assert outputs[..|pieces|] + [outputs[|pieces|]] == outputs;
  }

  lemma YieldsPercent(pieces: seq<Directive>, rest: string, text: string)
    requires WellFormed(FormatMeaning.Valid, pieces) && Literal(rest) && Yields(pieces, rest, text)
    ensures WellFormed(FormatMeaning.Valid, pieces + [Piece(rest, PERCENT)])
    ensures Yields(pieces + [Piece(rest, PERCENT)], "", text + "%")
  {
    PercentTakesNothing(pieces, rest);
    hide Woven, Uses, WellFormed;
    var all := pieces + [Piece(rest, PERCENT)];
    forall outputs: seq<string> | |outputs| == |all|
      ensures Woven(all, outputs) + "" == text + "%"
    {
      PercentPrinted(pieces, rest, text, outputs);
    }
  }

  lemma YieldsChar(pieces: seq<Directive>, rest: string, text: string, c: char)
    requires WellFormed(FormatMeaning.Valid, pieces) && Yields(pieces, rest, text)
    ensures Yields(pieces, rest + [c], text + [c])
  {
    hide Woven, Uses, WellFormed;
    forall outputs: seq<string> | |outputs| == |pieces|
      ensures Woven(pieces, outputs) + (rest + [c]) == text + [c]
    {
      assert Woven(pieces, outputs) + (rest + [c]) == Woven(pieces, outputs) + rest + [c];
    }
  }

  lemma EscapedNothing()
    ensures Consists(Escaped(""), [], "") && Yields([], "", "")
  {
    assert Show(Body, []) + "" == "";
  }

  lemma {:induction false} EscapedSplits(text: string) returns (pieces: seq<Directive>, rest: string)
    ensures Consists(Escaped(text), pieces, rest) && Yields(pieces, rest, text)
  {
    hide Yields, FormatMeaning.Valid, Body, Show;
    if text == "" {
      pieces, rest := [], "";
      EscapedNothing();
    } else {
      var n := |text| - 1;
      assert text == text[..n] + [text[n]];
      pieces, rest := EscapedSplits(text[..n]);
      if text[n] == '%' {
        ConsistsMore(Escaped(text[..n]), pieces, rest);
        YieldsPercent(pieces, rest, text[..n]);
        pieces, rest := pieces + [Piece(rest, PERCENT)], "";
      } else {
        ConsistsOn(Escaped(text[..n]), pieces, rest, text[n]);
        YieldsChar(pieces, rest, text[..n], text[n]);
        rest := rest + [text[n]];
      }
    }
  }

  /** Any text is printed by the format that doubles its percent signs, which takes no arguments. */
  lemma EscapedPrints(text: string, library: Library, pieces: seq<Directive>, rest: string)
    requires Consists(Escaped(text), pieces, rest)
    ensures Expansion(pieces, rest, library) == text && Uses(pieces) == [] && Unmixed(pieces)
  {
    hide Woven, Uses, Escaped, Unmixed, Prints;
    var p, end := EscapedSplits(text);
    FormatIsUnambiguous(Escaped(text), p, end, pieces, rest);
    assert |Prints(pieces, library)| == |pieces|;
    ConsistentByLetters(pieces);
  }
}
