/** The directive rebuilt for the library: how long it can be, and what it means. */
module FormatRebuilt {
  import opened CheckedSizes
  import opened Interleaving
  import opened FormatSyntax
  import opened FormatMeaning
  import opened FormatArguments
  import opened FormatScan
  import opened FormatRecords
  import opened FormatResolved

  function Keep(present: bool, c: char): string { if present then [c] else "" }

  const FLAG_ORDER := "'-+ #0"

  /** The flags that are set, in the given order. */
  function FlagText(flags: set<char>, order: string): (r: string)
    ensures |r| <= |order|
  {
    if order == "" then ""
    else
      var n := |order| - 1;
      FlagText(flags, order[..n]) + Keep(order[n] in flags, order[n])
  }

  /** The size letters by the type of the argument. */
  function Letters(kind: ArgType): string
  {
    match kind
    case LongLong | ULongLong => "ll"
    case LongInt | ULongInt | WideChar | WideString => "l"
    case LongDouble => "L"
    case _ => ""
  }

  function Rebuilt(e: Entry, f: string, kind: ArgType): string
    requires Within(e, f, |f|, |f|)
  {
    "%" + FlagText(e.flags, FLAG_ORDER) + f[e.width.start..e.width.end] + f[e.precision.start..e.precision.end]
    + Letters(kind) + [e.conversion] + "%n\0"
  }

  /** The type that a directive's argument has in the table. */
  function KindOf(e: Entry, table: seq<ArgType>): ArgType
  {
    if e.argument as nat < |table| then table[e.argument as nat] else NoType
  }

  lemma WithinFormat(e: Entry, f: string, width: nat, precision: nat)
    requires Within(e, f, width, precision)
    ensures Within(e, f, |f|, |f|)
  {
  }

  /** The buffer's computed length is enough for a directive within bounds, and no less would be. */
  lemma RebuiltFits(e: Entry, f: string, kind: ArgType, width: nat, precision: nat)
    requires Within(e, f, width, precision) && Within(e, f, |f|, |f|)
    ensures |Rebuilt(e, f, kind)| <= 7 + width + precision + 6
    ensures |Rebuilt(e, f, kind)| == 7 + width + precision + 6 <==>
              FlagText(e.flags, FLAG_ORDER) == FLAG_ORDER && |Letters(kind)| == 2
              && e.width.end == e.width.start + width && e.precision.end == e.precision.start + precision
  {
    FlagTextLength(e.flags, FLAG_ORDER);
  }

  lemma {:induction false} FlagTextLength(flags: set<char>, order: string)
    ensures |FlagText(flags, order)| == |order| <==> FlagText(flags, order) == order
  {
    if order != "" {
      var n := |order| - 1;
      FlagTextLength(flags, order[..n]);
      assert order == order[..n] + [order[n]];
      if FlagText(flags, order[..n]) == order[..n] {
        assert order[n] in flags ==> FlagText(flags, order) == order;
      }
    }
  }

  /** Every directive of a parsed format fits the buffer, rebuilt with its argument's type. */
  lemma DirectivesFit(f: string, pieces: seq<Directive>, rest: string, table: seq<ArgType>, entries: seq<Entry>,
                      width: nat, precision: nat, i: nat)
    requires Parsed(f, pieces, rest, table, entries, width, precision) && i < |entries|
    ensures Within(entries[i], f, |f|, |f|)
    ensures |Rebuilt(entries[i], f, KindOf(entries[i], table))| <= 7 + width + precision + 6
  {
    ParsedFits(f, pieces, rest, table, entries, width, precision, i);
    WithinFormat(entries[i], f, width, precision);
    RebuiltFits(entries[i], f, KindOf(entries[i], table), width, precision);
  }

  /** The type that an argument has when it is passed on: small integers are widened. */
  function Widened(kind: ArgType): ArgType
  {
    match kind
    case SChar | Short => Int
    case UChar | UShort => UInt
    case _ => kind
  }

  function LetterFlags(kind: ArgType): SizeFlags
  {
    match kind
    case LongLong | ULongLong => SizeFlags(false, false, false, 2)
    case LongInt | ULongInt | WideChar | WideString => SizeFlags(false, false, false, 1)
    case LongDouble => SizeFlags(false, false, true, 0)
    case _ => SizeFlags(false, false, false, 0)
  }

  lemma SizedLetters(kind: ArgType)
    ensures Sized(Letters(kind)) == LetterFlags(kind)
  {
    assert "l"[..0] == "" && "L"[..0] == "" && "ll"[..1] == "l";
    assert Sized("") == SizeFlags(false, false, false, 0);
    assert Sized("l") == SizeFlags(false, false, false, 1);
  }

  lemma TypeByLetters(f: SizeFlags, conversion: char)
    requires IsConversion(conversion) && conversion != 'n'
    ensures TypeOf(LetterFlags(TypeOf(f, conversion)), Recorded(conversion)) == Widened(TypeOf(f, conversion))
  {
    if conversion == 'd' || conversion == 'i' {
      SignedByLetters(f, conversion);
    } else if conversion == 'o' || conversion == 'u' || conversion == 'x' || conversion == 'X' {
      UnsignedByLetters(f, conversion);
    } else {
      OtherByLetters(f, conversion);
    }
  }

  lemma SignedByLetters(f: SizeFlags, c: char)
    requires c == 'd' || c == 'i'
    ensures TypeOf(LetterFlags(TypeOf(f, c)), Recorded(c)) == Widened(TypeOf(f, c))
  {
  }

  lemma UnsignedByLetters(f: SizeFlags, c: char)
    requires c == 'o' || c == 'u' || c == 'x' || c == 'X'
    ensures TypeOf(LetterFlags(TypeOf(f, c)), Recorded(c)) == Widened(TypeOf(f, c))
  {
  }

  lemma OtherByLetters(f: SizeFlags, c: char)
    requires IsConversion(c) && c != 'n' && c != 'd' && c != 'i' && c != 'o' && c != 'u' && c != 'x' && c != 'X'
    ensures TypeOf(LetterFlags(TypeOf(f, c)), Recorded(c)) == Widened(TypeOf(f, c))
  {
    if c == 'c' || c == 'C' || c == 's' || c == 'S' {
      TextByLetters(f, c);
    } else if c != 'p' && c != '%' {
      RealByLetters(f, c);
    }
  }

  lemma TextByLetters(f: SizeFlags, c: char)
    requires c == 'c' || c == 'C' || c == 's' || c == 'S'
    ensures TypeOf(LetterFlags(TypeOf(f, c)), Recorded(c)) == Widened(TypeOf(f, c))
  {
  }

  lemma RealByLetters(f: SizeFlags, c: char)
    requires c == 'f' || c == 'F' || c == 'e' || c == 'E' || c == 'g' || c == 'G' || c == 'a' || c == 'A'
    ensures TypeOf(LetterFlags(TypeOf(f, c)), Recorded(c)) == Widened(TypeOf(f, c))
  {
  }

  /** The rebuilt directive takes the argument as of the type it was registered with, but for the widening. */
  lemma RebuiltType(size: string, conversion: char)
    requires IsConversion(conversion) && conversion != 'n'
    ensures
      var kind := TypeOf(Sized(size), conversion);
      TypeOf(Sized(Letters(kind)), Recorded(conversion)) == Widened(kind)
  {
    SizedLetters(TypeOf(Sized(size), conversion));
    TypeByLetters(Sized(size), conversion);
  }

  // ----- writing the directive -----

  method PutText(buf: array<char>, p: nat, text: string) returns (end: nat)
    requires p + |text| <= buf.Length
    modifies buf
    ensures end == p + |text| && buf[..end] == old(buf[..p]) + text
  {
    end := p;
    while end < p + |text|
      invariant p <= end <= p + |text|
      invariant buf[..end] == old(buf[..p]) + text[..end - p]
    {
      buf[end] := text[end - p];
      end := end + 1;
    }
  }

  method PutFlags(buf: array<char>, p: nat, flags: set<char>, order: string) returns (end: nat)
    requires p + |order| <= buf.Length
    modifies buf
    ensures end == p + |FlagText(flags, order)| && buf[..end] == old(buf[..p]) + FlagText(flags, order)
  {
    end := p;
    var i := 0;
    while i < |order|
      invariant i <= |order| && end == p + |FlagText(flags, order[..i])|
      invariant buf[..end] == old(buf[..p]) + FlagText(flags, order[..i])
    {
      assert order[..i + 1][..i] == order[..i];
      if order[i] in flags {
        buf[end] := order[i];
        end := end + 1;
      }
      i := i + 1;
    }
    assert order[..i] == order;
  }

  /** Writes a directive into the scratch buffer. */
  method PutDirective(buf: array<char>, f: string, e: Entry, kind: ArgType, width: nat, precision: nat)
    returns (end: nat)
    requires Within(e, f, width, precision) && Within(e, f, |f|, |f|) && buf.Length == 7 + width + precision + 6
    modifies buf
    ensures end <= buf.Length && buf[..end] == Rebuilt(e, f, kind)
  {
    buf[0] := '%';
    assert buf[..1] == "%";
    end := PutFlags(buf, 1, e.flags, FLAG_ORDER);
    end := PutText(buf, end, f[e.width.start..e.width.end]);
    end := PutText(buf, end, f[e.precision.start..e.precision.end]);
    end := PutText(buf, end, Letters(kind));
    end := PutText(buf, end, [e.conversion] + "%n\0");
    assert Rebuilt(e, f, kind) == "%" + FlagText(e.flags, FLAG_ORDER) + f[e.width.start..e.width.end]
      + f[e.precision.start..e.precision.end] + Letters(kind) + ([e.conversion] + "%n\0");
  }

  /** Rebuilds a directive of a parsed format in the scratch buffer, whose size is that of the longest width and
      precision.  The type is taken from the table; none of the checks on the way can fail. */
  method Rebuild(buf: array<char>, f: string, table: seq<ArgType>, entries: seq<Entry>, i: nat, width: nat,
                 precision: nat, ghost pieces: seq<Directive>, ghost rest: string)
    returns (end: nat)
    requires Parsed(f, pieces, rest, table, entries, width, precision) && i < |entries|
    requires entries[i].conversion != '%' && buf.Length == 7 + width + precision + 6
    modifies buf
    ensures Within(entries[i], f, |f|, |f|)
    ensures end <= buf.Length && buf[..end] == Rebuilt(entries[i], f, KindOf(entries[i], table))
  {
    var e := entries[i];
    ParsedResolves(f, pieces, rest, table, entries, width, precision, i);
    assert e.argument != ARG_NONE;
    assert e.widthArg != ARG_NONE ==> table[e.widthArg as nat] == Int;
    assert e.precisionArg != ARG_NONE ==> table[e.precisionArg as nat] == Int;
    ParsedFits(f, pieces, rest, table, entries, width, precision, i);
    WithinFormat(e, f, width, precision);
    end := PutDirective(buf, f, e, table[e.argument as nat], width, precision);
  }

  // ----- what the rebuilt directive means -----

  function PlainAmount(a: Amount): Amount { if a.Star? then Star(Plain) else a }

  /** The directive without argument positions, with its flags in order and the size letters for its type. */
  function PlainSpec(x: Spec, flags: set<char>): Spec
  {
    Spec(Plain, FlagText(flags, FLAG_ORDER), PlainAmount(x.width), PlainAmount(x.precision),
         Letters(TypeOf(Sized(x.size), x.conversion)), Recorded(x.conversion))
  }

  lemma {:induction false} FlagTextHas(flags: set<char>, order: string)
    ensures forall c :: c in FlagText(flags, order) <==> c in flags && c in order
  {
    if order != "" {
      var n := |order| - 1;
      FlagTextHas(flags, order[..n]);
      assert order == order[..n] + [order[n]];
    }
  }

  /** The rebuilt directive has the flags that were written, each once. */
  lemma FlagsKept(x: Spec)
    requires Shaped(x)
    ensures
      var flags := set c | c in x.flags;
      (set c | c in FlagText(flags, FLAG_ORDER)) == flags && All(FlagText(flags, FLAG_ORDER), IsFlag)
  {
    var flags := set c | c in x.flags;
    FlagTextHas(flags, FLAG_ORDER);
    forall c | c in flags
      ensures c in FLAG_ORDER
    {
      InOrder(c);
    }
    forall i | 0 <= i < |FlagText(flags, FLAG_ORDER)|
      ensures IsFlag(FlagText(flags, FLAG_ORDER)[i])
    {
      var c := FlagText(flags, FLAG_ORDER)[i];
      assert c in flags;
    }
  }

  lemma InOrder(c: char)
    requires IsFlag(c)
    ensures c in FLAG_ORDER
  {
    assert FLAG_ORDER[0] == '\'' && FLAG_ORDER[1] == '-' && FLAG_ORDER[2] == '+' && FLAG_ORDER[3] == ' '
      && FLAG_ORDER[4] == '#' && FLAG_ORDER[5] == '0';
  }

  lemma PlainSpecShaped(x: Spec)
    requires Shaped(x) && IsConversion(x.conversion)
    ensures Shaped(PlainSpec(x, set c | c in x.flags)) && IsConversion(Recorded(x.conversion))
  {
    FlagsKept(x);
    LettersShaped(TypeOf(Sized(x.size), x.conversion));
  }

  lemma LettersShaped(kind: ArgType)
    ensures All(Letters(kind), IsSize)
  {
  }

  lemma PlainAmounts(w: Amount, q: Amount)
    ensures ShowWidth(PlainAmount(w)) == WidthText(w) && ShowPrecision(PlainAmount(q)) == PrecisionText(q)
  {
  }

  lemma BodyOf(plain: Spec, flags: string, w: string, q: string, size: string, conversion: char)
    requires plain.position == Plain && plain.flags == flags && ShowWidth(plain.width) == w
    requires ShowPrecision(plain.precision) == q && plain.size == size && plain.conversion == conversion
    ensures Body(plain) == flags + w + q + size + [conversion]
  {
    assert ShowPosition(plain.position) + flags == flags;
  }

  lemma Around(a: string, b: string, c: string, d: string, e: string, tail: string)
    ensures "%" + a + b + c + d + e + tail == "%" + (a + b + c + d + e) + tail
  {
  }

  /** The text of the rebuilt directive, field by field. */
  lemma RebuiltText(e: Entry, f: string, x: Spec, start: nat, next: nat, kind: ArgType)
    requires Describes(e, f, x, start, next) && Within(e, f, |f|, |f|) && kind == TypeOf(Sized(x.size), x.conversion)
    ensures Rebuilt(e, f, kind) == "%" + Body(PlainSpec(x, e.flags)) + "%n\0"
  {
    var plain, flags, w, q := PlainSpec(x, e.flags), FlagText(e.flags, FLAG_ORDER), WidthText(x.width),
        PrecisionText(x.precision);
    PlainAmounts(x.width, x.precision);
    BodyOf(plain, flags, w, q, Letters(kind), e.conversion);
    Around(flags, w, q, Letters(kind), [e.conversion], "%n\0");
  }

  /** `text` is a directive that the library reads as `x` without its positions, the flags in order, and that takes an
      argument of this type, small integers widened. */
  predicate Means(text: string, x: Spec, flags: set<char>, kind: ArgType)
  {
    var plain := PlainSpec(x, flags);
    && text == "%" + Body(plain) + "%n\0" && ReadShape(Body(plain) + "%n\0") == Some(plain)
    && kind == TypeOf(Sized(x.size), x.conversion) && TypeOf(Sized(plain.size), plain.conversion) == Widened(kind)
  }

  lemma MeansIt(e: Entry, f: string, x: Spec, start: nat, next: nat, kind: ArgType)
    requires Describes(e, f, x, start, next) && Within(e, f, |f|, |f|) && kind == TypeOf(Sized(x.size), x.conversion)
    requires e.conversion != '%' && e.conversion != 'n'
    ensures Means(Rebuilt(e, f, kind), x, e.flags, kind)
  {
    var plain := PlainSpec(x, e.flags);
    RebuiltText(e, f, x, start, next, kind);
    PlainSpecShaped(x);
    ReadIsComplete(plain, "%n\0");
    RebuiltType(x.size, x.conversion);
  }

  /** The library reads the rebuilt directive as the original one without its positions, and takes its argument as of
      the type in the table, small integers widened. */
  lemma RebuiltMeans(f: string, pieces: seq<Directive>, rest: string, table: seq<ArgType>, entries: seq<Entry>,
                     width: nat, precision: nat, i: nat)
    requires Parsed(f, pieces, rest, table, entries, width, precision) && i < |entries|
    requires entries[i].conversion != '%' && entries[i].conversion != 'n'
    ensures i < |pieces| && Within(entries[i], f, |f|, |f|)
    ensures
      var kind := KindOf(entries[i], table);
      Means(Rebuilt(entries[i], f, kind), pieces[i].item, entries[i].flags, kind)
  {
    ParsedResolves(f, pieces, rest, table, entries, width, precision, i);
    ParsedFits(f, pieces, rest, table, entries, width, precision, i);
    ParsedDescribes(f, pieces, rest, table, entries, width, precision, i);
    WithinFormat(entries[i], f, width, precision);
    MeansIt(entries[i], f, pieces[i].item, Offset(pieces, i), NextArgument(pieces[..i]), KindOf(entries[i], table));
  }

  // ----- what the library prints -----

  /** What the library prints for the `i`-th directive, given that directive rebuilt. */
  type Library = (nat, string) -> string

  ghost predicate PrintsInMemory(library: Library)
  {
    forall i, text :: |library(i, text)| <= SIZE_MAX
  }

  ghost predicate AllWithin(f: string, entries: seq<Entry>)
  {
    forall i :: 0 <= i < |entries| ==> Within(entries[i], f, |f|, |f|)
  }

  /** The output of every directive. */
  ghost function Outputs(f: string, table: seq<ArgType>, entries: seq<Entry>, library: Library): (r: seq<string>)
    requires AllWithin(f, entries)
    ensures |r| == |entries|
    ensures forall i :: 0 <= i < |r| ==> r[i] == library(i, Rebuilt(entries[i], f, KindOf(entries[i], table)))
  {
    seq(|entries|, i requires 0 <= i < |entries| => library(i, Rebuilt(entries[i], f, KindOf(entries[i], table))))
  }

  lemma ParsedWithin(f: string, pieces: seq<Directive>, rest: string, table: seq<ArgType>, entries: seq<Entry>,
                     width: nat, precision: nat)
    requires Parsed(f, pieces, rest, table, entries, width, precision)
    ensures AllWithin(f, entries)
  {
    forall i | 0 <= i < |entries|
      ensures Within(entries[i], f, |f|, |f|)
    {
      ParsedFits(f, pieces, rest, table, entries, width, precision, i);
      WithinFormat(entries[i], f, width, precision);
    }
  }

  /** All that a run through the directives of a parsed format works on. */
  ghost predicate Job(f: string, pieces: seq<Directive>, rest: string, table: seq<ArgType>, entries: seq<Entry>,
                      width: nat, precision: nat, library: Library, outputs: seq<string>)
  {
    && Parsed(f, pieces, rest, table, entries, width, precision) && PrintsInMemory(library) && |f| <= SIZE_MAX
    && AllWithin(f, entries) && outputs == Outputs(f, table, entries, library)
  }
}
