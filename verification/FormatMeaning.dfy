/** Whole formats: literal text and directives in turn, and the arguments that the directives take. */
module FormatMeaning {
  import opened Numerals
  import opened CheckedSizes
  import opened FormatSyntax
  import opened Interleaving

  /** The type of an argument, on a machine with 32-bit `int` and 64-bit `long`. */
  datatype ArgType =
    | NoType | SChar | UChar | Short | UShort | Int | UInt | LongInt | ULongInt | LongLong | ULongLong
    | Double | LongDouble | Char | WideChar | String | WideString | Pointer
    | CountSChar | CountShort | CountInt | CountLong | CountLongLong

  /** The size letters: whether there is one `h` or more, an `L`, and how many letters that make a `long`. */
  datatype SizeFlags = SizeFlags(h: bool, hh: bool, big: bool, longs: nat)

  function AddSize(f: SizeFlags, c: char): SizeFlags
  {
    if c == 'h' then (if f.h then f.(hh := true) else f.(h := true))
    else if c == 'L' then f.(big := true)
    else f.(longs := f.longs + 1)
  }

  function Sized(size: string): SizeFlags
  {
    if size == "" then SizeFlags(false, false, false, 0) else AddSize(Sized(size[..|size| - 1]), size[|size| - 1])
  }

  function TypeOf(f: SizeFlags, conversion: char): ArgType
  {
    var longLong := f.longs >= 2 || f.big;
    match conversion
    case 'd' | 'i' =>
      if longLong then LongLong else if f.longs >= 1 then LongInt else if f.hh then SChar
      else if f.h then Short else Int
    case 'o' | 'u' | 'x' | 'X' =>
      if longLong then ULongLong else if f.longs >= 1 then ULongInt else if f.hh then UChar
      else if f.h then UShort else UInt
    case 'f' | 'F' | 'e' | 'E' | 'g' | 'G' | 'a' | 'A' => if longLong then LongDouble else Double
    case 'c' => if f.longs >= 1 then WideChar else Char
    case 'C' => WideChar
    case 's' => if f.longs >= 1 then WideString else String
    case 'S' => WideString
    case 'p' => Pointer
    case 'n' =>
      if longLong then CountLongLong else if f.longs >= 1 then CountLong else if f.hh then CountSChar
      else if f.h then CountShort else CountInt
    case _ => NoType
  }

  /** The conversion as recorded. */
  function Recorded(conversion: char): char
  {
    if conversion == 'C' then 'c' else if conversion == 'S' then 's' else conversion
  }

  predicate GoodNumber(p: Position)
    requires ShapedPosition(p)
  {
    p.Numbered? ==> GoodPosition(p.digits)
  }

  predicate Valid(x: Spec)
  {
    && Shaped(x) && IsConversion(x.conversion) && GoodNumber(x.position)
    && (x.width.Star? ==> GoodNumber(x.width.position)) && (x.precision.Star? ==> GoodNumber(x.precision.position))
  }

  // ----- formats -----

  type Directive = Piece<Spec>

  /** `format` consists of these directives, with the literal text before each, and a literal end. */
  predicate Consists(format: string, pieces: seq<Directive>, end: string)
  {
    Splits(Body, Valid, format, pieces, end)
  }

  lemma DirectivesAreFaithful()
    ensures Faithful(Body, ReadShape, Valid)
  {
    forall x, rest | Valid(x)
      ensures ReadShape(Body(x) + rest) == Some(x)
    {
      ReadIsComplete(x, rest);
    }
  }

  /** A format can be understood in one way only. */
  lemma FormatIsUnambiguous(format: string, p: seq<Directive>, a: string, q: seq<Directive>, b: string)
    requires Consists(format, p, a) && Consists(format, q, b)
    ensures p == q && a == b
  {
    DirectivesAreFaithful();
    SplitIsUnique(Body, ReadShape, Valid, format, p, a, q, b);
  }

  // ----- arguments -----

  /** That a directive takes the argument `index` as of this type. */
  datatype Use = Use(index: nat, kind: ArgType)

  /** The argument at a position, when the next unnumbered argument is `next`. */
  function IndexOf(p: Position, next: nat): nat
    requires ShapedPosition(p) && GoodNumber(p)
  {
    if p.Numbered? then Decimal(p.digits) - 1 else next
  }

  function After(p: Position, next: nat): nat { if p.Numbered? then next else next + 1 }

  function StarUse(q: Amount, next: nat): seq<Use>
    requires q.Star? ==> ShapedPosition(q.position) && GoodNumber(q.position)
  {
    if q.Star? then [Use(IndexOf(q.position, next), Int)] else []
  }

  function StarNext(q: Amount, next: nat): nat { if q.Star? then After(q.position, next) else next }

  function StarUses(x: Spec, next: nat): seq<Use>
    requires Valid(x)
  {
    StarUse(x.width, next) + StarUse(x.precision, StarNext(x.width, next))
  }

  function StarsNext(x: Spec, next: nat): nat { StarNext(x.precision, StarNext(x.width, next)) }

  function OwnUse(x: Spec, next: nat): seq<Use>
    requires Valid(x)
  {
    var kind := TypeOf(Sized(x.size), x.conversion);
    if kind == NoType then [] else [Use(IndexOf(x.position, StarsNext(x, next)), kind)]
  }

  /** The arguments of a directive: of the width, of the precision, and of the conversion. */
  function SpecUses(x: Spec, next: nat): seq<Use>
    requires Valid(x)
  {
    StarUses(x, next) + OwnUse(x, next)
  }

  function SpecNext(x: Spec, next: nat): nat
  {
    if TypeOf(Sized(x.size), x.conversion) == NoType then StarsNext(x, next) else After(x.position, StarsNext(x, next))
  }

  function NextArgument(pieces: seq<Directive>): nat
  {
    if pieces == [] then 0 else SpecNext(pieces[|pieces| - 1].item, NextArgument(pieces[..|pieces| - 1]))
  }

  /** The arguments that the directives take, in the order of the format. */
  function Uses(pieces: seq<Directive>): seq<Use>
    requires WellFormed(Valid, pieces)
  {
    if pieces == [] then []
    else
      var n := |pieces| - 1;
      Uses(pieces[..n]) + SpecUses(pieces[n].item, NextArgument(pieces[..n]))
  }

  /** No argument is taken as of two types. */
  predicate Consistent(uses: seq<Use>)
  {
    forall i, j :: 0 <= i < j < |uses| && uses[i].index == uses[j].index ==> uses[i].kind == uses[j].kind
  }

  predicate Taken(uses: seq<Use>, n: nat)
  {
    exists i :: 0 <= i < |uses| && uses[i].index == n
  }

  /** The table of argument types: as long as the highest argument taken, with each argument's type, and no type for
      the arguments that nobody takes. */
  ghost predicate TableOf(table: seq<ArgType>, uses: seq<Use>)
  {
    && (forall i :: 0 <= i < |uses| ==>
          uses[i].kind != NoType && uses[i].index < |table| && table[uses[i].index] == uses[i].kind)
    && (forall n :: 0 <= n < |table| && table[n] != NoType ==> Taken(uses, n))
    && (|table| > 0 ==> table[|table| - 1] != NoType)
  }

  lemma TableIsConsistent(table: seq<ArgType>, uses: seq<Use>)
    requires TableOf(table, uses)
    ensures Consistent(uses)
  {
  }

  /** The uses determine the table. */
  lemma TableIsDetermined(a: seq<ArgType>, b: seq<ArgType>, uses: seq<Use>)
    requires TableOf(a, uses) && TableOf(b, uses)
    ensures a == b
  {
    SameLength(a, b, uses);
    SameLength(b, a, uses);
    forall n | 0 <= n < |a|
      ensures a[n] == b[n]
    {
      if a[n] != NoType {
        SameType(a, b, uses, n);
      }
      if b[n] != NoType {
        SameType(b, a, uses, n);
      }
    }
  }

  lemma SameType(a: seq<ArgType>, b: seq<ArgType>, uses: seq<Use>, n: nat)
    requires TableOf(a, uses) && TableOf(b, uses) && n < |a| && n < |b| && a[n] != NoType
    ensures a[n] == b[n]
  {
    assert Taken(uses, n);
    var i :| 0 <= i < |uses| && uses[i].index == n;
  }

  lemma SameLength(a: seq<ArgType>, b: seq<ArgType>, uses: seq<Use>)
    requires TableOf(a, uses) && TableOf(b, uses)
    ensures |a| <= |b|
  {
    if |a| > 0 {
      assert Taken(uses, |a| - 1);
      var i :| 0 <= i < |uses| && uses[i].index == |a| - 1;
    }
  }

  lemma StartOf(a: seq<Use>, b: seq<Use>)
    ensures a <= a + b
  {
  }

  lemma UsesGrow(pieces: seq<Directive>)
    requires WellFormed(Valid, pieces) && pieces != []
    ensures WellFormed(Valid, pieces[..|pieces| - 1]) && Uses(pieces[..|pieces| - 1]) <= Uses(pieces)
  {
    var fewer := pieces[..|pieces| - 1];
    StartOf(Uses(fewer), SpecUses(pieces[|pieces| - 1].item, NextArgument(fewer)));
  }

  lemma {:induction false} UsesOfPrefix(done: seq<Directive>, pieces: seq<Directive>)
    requires WellFormed(Valid, pieces) && |done| <= |pieces| && pieces[..|done|] == done
    ensures WellFormed(Valid, done) && Uses(done) <= Uses(pieces)
    decreases |pieces|
  {
    if |done| == |pieces| {
      assert done == pieces;
    } else {
      UsesGrow(pieces);
      var fewer := pieces[..|pieces| - 1];
      assert fewer[..|done|] == done;
      UsesOfPrefix(done, fewer);
    }
  }

  // ----- the output of a format -----

  /** What a directive puts out: a percent sign, nothing, or what the library prints for it. */
  function Printed(conversion: char, output: string): string
  {
    if conversion == '%' then "%" else if conversion == 'n' then "" else output
  }

  /** The literal text of the pieces, with the directives' output in place of the directives. */
  function Woven(pieces: seq<Directive>, outputs: seq<string>): string
    requires |outputs| == |pieces|
  {
    if pieces == [] then ""
    else
      var n := |pieces| - 1;
      Woven(pieces[..n], outputs[..n]) + pieces[n].gap + Printed(pieces[n].item.conversion, outputs[n])
  }

  /** The first `i` pieces take `cp` characters of the format and put out `text`. */
  predicate Reached(pieces: seq<Directive>, outputs: seq<string>, i: nat, cp: nat, text: string)
  {
    i <= |pieces| == |outputs| && cp == |Show(Body, pieces[..i])| && text == Woven(pieces[..i], outputs[..i])
  }

  lemma ReachedStart(pieces: seq<Directive>, outputs: seq<string>)
    requires |outputs| == |pieces|
    ensures Reached(pieces, outputs, 0, 0, "")
  {
  }

  lemma ReachedEnd(pieces: seq<Directive>, outputs: seq<string>, cp: nat, text: string)
    requires |outputs| == |pieces| && Reached(pieces, outputs, |pieces|, cp, text)
    ensures cp == |Show(Body, pieces)| && text == Woven(pieces, outputs)
  {
    assert pieces[..|pieces|] == pieces && outputs[..|pieces|] == outputs;
  }

  lemma ReachedNext(pieces: seq<Directive>, outputs: seq<string>, i: nat, cp: nat, text: string, after: nat,
                    more: string)
    requires i < |pieces| && Reached(pieces, outputs, i, cp, text) && after == |Show(Body, pieces[..i + 1])|
    requires more == text + pieces[i].gap + Printed(pieces[i].item.conversion, outputs[i])
    ensures Reached(pieces, outputs, i + 1, after, more)
  {
    WovenMore(pieces, outputs, i);
  }

  lemma WovenMore(pieces: seq<Directive>, outputs: seq<string>, i: nat)
    requires i < |pieces| == |outputs|
    ensures Woven(pieces[..i + 1], outputs[..i + 1]) ==
            Woven(pieces[..i], outputs[..i]) + pieces[i].gap + Printed(pieces[i].item.conversion, outputs[i])
  {
    assert pieces[..i + 1][..i] == pieces[..i] && outputs[..i + 1][..i] == outputs[..i];
  }

  lemma WovenGrows(pieces: seq<Directive>, outputs: seq<string>, i: nat)
    requires i <= |pieces| == |outputs|
    ensures |Woven(pieces[..i], outputs[..i])| <= |Woven(pieces, outputs)|
    decreases |pieces| - i
  {
    if i == |pieces| {
      assert pieces[..i] == pieces && outputs[..i] == outputs;
    } else {
      WovenMore(pieces, outputs, i);
      WovenGrows(pieces, outputs, i + 1);
    }
  }
}
