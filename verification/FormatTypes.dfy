/** Under which type a directive takes its argument, told by its letters: section 7.19.6.1 of ISO/IEC 9899:1999. */
module FormatTypes {
  import opened Numerals
  import opened Interleaving
  import opened FormatSyntax
  import opened FormatMeaning
  import opened FormatArguments
  import opened FormatScan
  import opened FormatRecords
  import opened FormatResolved

  /** What kind of value an argument is. */
  datatype Class = NoArgument | Signed | Unsigned | Floating | Character | Text | Address | Counter

  /** How wide a type its class has: those of `char`, `short`, `int`, `long` and `long long` integers. */
  datatype Width = Tiny | Narrow | Ordinary | Wide | Widest

  function ClassOf(t: ArgType): Class
  {
    match t
    case NoType => NoArgument
    case SChar | Short | Int | LongInt | LongLong => Signed
    case UChar | UShort | UInt | ULongInt | ULongLong => Unsigned
    case Double | LongDouble => Floating
    case Char | WideChar => Character
    case String | WideString => Text
    case Pointer => Address
    case CountSChar | CountShort | CountInt | CountLong | CountLongLong => Counter
  }

  function WidthOf(t: ArgType): Width
  {
    match t
    case SChar | UChar | CountSChar => Tiny
    case Short | UShort | CountShort => Narrow
    case LongInt | ULongInt | CountLong | WideChar | WideString => Wide
    case LongLong | ULongLong | CountLongLong | LongDouble => Widest
    case _ => Ordinary
  }

  /** The bytes of an integer of this width, and of one that a counter points to. */
  function Bytes(w: Width): nat
  {
    match w case Tiny => 1 case Narrow => 2 case Ordinary => 4 case Wide => 8 case Widest => 8
  }

  /** Class and width are all there is to a type. */
  lemma TypeByClass(a: ArgType, b: ArgType)
    requires ClassOf(a) == ClassOf(b) && WidthOf(a) == WidthOf(b)
    ensures a == b
  {
  }

  // ----- the letters -----

  function Converts(c: char): Class
  {
    match c
    case 'd' | 'i' => Signed
    case 'o' | 'u' | 'x' | 'X' => Unsigned
    case 'f' | 'F' | 'e' | 'E' | 'g' | 'G' | 'a' | 'A' => Floating
    case 'c' | 'C' => Character
    case 's' | 'S' => Text
    case 'p' => Address
    case 'n' => Counter
    case _ => NoArgument
  }

  /** The size letters that stand for a `long`, on a machine where `intmax_t`, `size_t` and `ptrdiff_t` are as wide. */
  function Longs(size: string): nat
  {
    var m := multiset(size);
    m['l'] + m['j'] + m['z'] + m['Z'] + m['t']
  }

  /** The width of an integer whose directive has these size letters, in whatever order: `L` or two letters for a `long`
      make it a `long long`, and letters for a `long` outweigh any `h`. */
  function IntegerWidth(size: string): Width
  {
    if 'L' in size || Longs(size) > 1 then Widest
    else if Longs(size) == 1 then Wide
    else match multiset(size)['h'] case 0 => Ordinary case 1 => Narrow case _ => Tiny
  }

  function Written(size: string, c: char): Width
  {
    match Converts(c)
    case Signed | Unsigned | Counter => IntegerWidth(size)
    case Floating => if IntegerWidth(size) == Widest then Widest else Ordinary
    case Character | Text => if c == 'C' || c == 'S' || Longs(size) > 0 then Wide else Ordinary
    case Address | NoArgument => Ordinary
  }

  lemma OneMore(size: string, c: char)
    requires IsSize(c)
    ensures
      var more := size + [c];
      && multiset(more)['h'] == multiset(size)['h'] + (if c == 'h' then 1 else 0)
      && ('L' in more <==> 'L' in size || c == 'L')
      && Longs(more) == Longs(size) + if c == 'h' || c == 'L' then 0 else 1
  {
  }

  lemma {:induction false} SizedCounts(size: string)
    requires All(size, IsSize)
    ensures
      var h := multiset(size)['h'];
      Sized(size) == SizeFlags(h > 0, h > 1, 'L' in size, Longs(size))
  {
    if size != "" {
      var n := |size| - 1;
      assert size == size[..n] + [size[n]];
      SizedCounts(size[..n]);
      OneMore(size[..n], size[n]);
      hide Longs;
    }
  }

  lemma IntegerWritten(f: SizeFlags, c: char)
    requires Converts(c) == Signed || Converts(c) == Unsigned || Converts(c) == Counter
    ensures WidthOf(TypeOf(f, c)) ==
            if f.big || f.longs > 1 then Widest else if f.longs == 1 then Wide
            else if f.hh then Tiny else if f.h then Narrow else Ordinary
  {
    match Converts(c)
    case Signed =>
    case Unsigned =>
    case Counter =>
  }

  lemma OtherWritten(f: SizeFlags, c: char)
    requires Converts(c) != Signed && Converts(c) != Unsigned && Converts(c) != Counter
    ensures WidthOf(TypeOf(f, c)) ==
            match Converts(c)
            case Floating => if f.big || f.longs > 1 then Widest else Ordinary
            case Character | Text => if c == 'C' || c == 'S' || f.longs > 0 then Wide else Ordinary
            case _ => Ordinary
  {
    match Converts(c)
    case Floating =>
    case Character =>
    case Text =>
    case _ =>
  }

  /** A directive takes its argument as of the class of its conversion, and of the width that its letters write. */
  lemma TypeIsWritten(size: string, c: char)
    requires All(size, IsSize) && IsConversion(c)
    ensures ClassOf(TypeOf(Sized(size), c)) == Converts(c) && WidthOf(TypeOf(Sized(size), c)) == Written(size, c)
  {
    SizedCounts(size);
    ConversionClass(Sized(size), c);
    hide Longs, Sized, TypeOf, Converts, WidthOf, ClassOf;
    if Converts(c) == Signed || Converts(c) == Unsigned || Converts(c) == Counter {
      IntegerWritten(Sized(size), c);
    } else {
      OtherWritten(Sized(size), c);
    }
  }

  lemma ConversionClass(f: SizeFlags, c: char)
    requires IsConversion(c)
    ensures ClassOf(TypeOf(f, c)) == Converts(c)
  {
  }

  /** The sizes that the standard knows, in bytes. */
  lemma StandardSizes(c: char)
    requires Converts(c) in {Signed, Unsigned, Counter}
    ensures Bytes(Written("hh", c)) == 1 && Bytes(Written("h", c)) == 2 && Bytes(Written("", c)) == 4
    ensures Bytes(Written("l", c)) == 8 && Bytes(Written("ll", c)) == 8
    ensures Bytes(Written("j", c)) == 8 && Bytes(Written("z", c)) == 8 && Bytes(Written("t", c)) == 8
    ensures Written("l", c) == Written("j", c) == Written("z", c) == Written("t", c) != Written("ll", c)
  {
  }

  /** Two directives may take the same argument exactly if their conversions are of one class and their letters write
      the same width. */
  lemma MayShare(size: string, c: char, more: string, d: char)
    requires All(size, IsSize) && All(more, IsSize) && IsConversion(c) && IsConversion(d)
    ensures TypeOf(Sized(size), c) == TypeOf(Sized(more), d) <==>
              Converts(c) == Converts(d) && Written(size, c) == Written(more, d)
  {
    hide TypeOf, Sized, Converts, Written, ClassOf, WidthOf;
    TypeIsWritten(size, c);
    TypeIsWritten(more, d);
    if Converts(c) == Converts(d) && Written(size, c) == Written(more, d) {
      TypeByClass(TypeOf(Sized(size), c), TypeOf(Sized(more), d));
    }
  }

  // ----- arguments of a format -----

  /** The argument taken for the conversion. */
  predicate TakesOwn(x: Spec, next: nat, n: nat, class_: Class, width: Width)
    requires FormatMeaning.Valid(x)
  {
    && x.conversion != '%' && n == IndexOf(x.position, StarsNext(x, next))
    && class_ == Converts(x.conversion) && width == Written(x.size, x.conversion)
  }

  /** An argument taken for the width or the precision. */
  predicate TakesAmount(q: Amount, next: nat, n: nat, class_: Class, width: Width)
    requires GoodAmount(q)
  {
    q.Star? && n == IndexOf(q.position, next) && class_ == Signed && width == Ordinary
  }

  /** A directive takes argument `n` as of this class and width: for its conversion, its width or its precision. */
  predicate SpecTakes(x: Spec, next: nat, n: nat, class_: Class, width: Width)
    requires FormatMeaning.Valid(x)
  {
    || TakesOwn(x, next, n, class_, width)
    || TakesAmount(x.width, next, n, class_, width)
    || TakesAmount(x.precision, StarNext(x.width, next), n, class_, width)
  }

  predicate Takes(pieces: seq<Directive>, i: nat, n: nat, class_: Class, width: Width)
    requires WellFormed(FormatMeaning.Valid, pieces) && i < |pieces|
  {
    SpecTakes(pieces[i].item, NextArgument(pieces[..i]), n, class_, width)
  }

  /** No argument is taken in two ways. */
  ghost predicate Unmixed(pieces: seq<Directive>)
    requires WellFormed(FormatMeaning.Valid, pieces)
  {
    forall i, j, n, c, w, d, v ::
      0 <= i < |pieces| && 0 <= j < |pieces| && Takes(pieces, i, n, c, w) && Takes(pieces, j, n, d, v) ==>
        c == d && w == v
  }

  lemma OwnIsUse(x: Spec, next: nat, n: nat, c: Class, w: Width) returns (u: Use)
    requires FormatMeaning.Valid(x) && TakesOwn(x, next, n, c, w)
    ensures OwnUse(x, next) == [u] && u.index == n && ClassOf(u.kind) == c && WidthOf(u.kind) == w
  {
    TypeIsWritten(x.size, x.conversion);
    hide TypeOf, Sized, Written;
    u := Use(n, TypeOf(Sized(x.size), x.conversion));
    assert u.kind != NoType;
  }

  lemma InSpecUses(x: Spec, next: nat, u: Use)
    requires FormatMeaning.Valid(x)
    ensures u in SpecUses(x, next) <==>
              u in StarUse(x.width, next) || u in StarUse(x.precision, StarNext(x.width, next)) || u in OwnUse(x, next)
  {
    hide StarUse, OwnUse, StarNext;
  }

  lemma SpecTakesUse(x: Spec, next: nat, n: nat, c: Class, w: Width) returns (u: Use)
    requires FormatMeaning.Valid(x) && SpecTakes(x, next, n, c, w)
    ensures u in SpecUses(x, next) && u.index == n && ClassOf(u.kind) == c && WidthOf(u.kind) == w
  {
    hide TypeOf, Sized, Written, Converts, OwnUse, SpecUses, TakesOwn, IndexOf, StarsNext, StarNext;
    u := Use(n, Int);
    if TakesOwn(x, next, n, c, w) {
      u := OwnIsUse(x, next, n, c, w);
    }
    InSpecUses(x, next, u);
  }

  lemma TakesUse(pieces: seq<Directive>, i: nat, n: nat, c: Class, w: Width) returns (u: Use)
    requires WellFormed(FormatMeaning.Valid, pieces) && i < |pieces| && Takes(pieces, i, n, c, w)
    ensures u in Uses(pieces) && u.index == n && ClassOf(u.kind) == c && WidthOf(u.kind) == w
  {
    hide Uses, NextArgument, SpecUses, SpecTakes, ClassOf, WidthOf;
    UsesOfPiece(pieces, i);
    u := SpecTakesUse(pieces[i].item, NextArgument(pieces[..i]), n, c, w);
  }

  lemma {:induction false} UseOfPiece(pieces: seq<Directive>, u: Use) returns (i: nat)
    requires WellFormed(FormatMeaning.Valid, pieces) && u in Uses(pieces)
    ensures i < |pieces| && u in SpecUses(pieces[i].item, NextArgument(pieces[..i]))
  {
    var n := |pieces| - 1;
    assert Uses(pieces) == Uses(pieces[..n]) + SpecUses(pieces[n].item, NextArgument(pieces[..n]));
    hide Uses, SpecUses, NextArgument, FormatMeaning.Valid;
    if u in Uses(pieces[..n]) {
      i := UseOfPiece(pieces[..n], u);
      assert pieces[..n][..i] == pieces[..i];
    } else {
      i := n;
    }
  }

  lemma SpecUseTaken(x: Spec, next: nat, u: Use)
    requires FormatMeaning.Valid(x) && u in SpecUses(x, next)
    ensures SpecTakes(x, next, u.index, ClassOf(u.kind), WidthOf(u.kind))
  {
    TypeIsWritten(x.size, x.conversion);
    InSpecUses(x, next, u);
    hide TypeOf, Sized, Written, SpecUses, IndexOf, StarsNext, StarNext;
    if u in OwnUse(x, next) {
      assert TypeOf(Sized(x.size), x.conversion) != NoType;
    }
  }

  lemma UseIsTaken(pieces: seq<Directive>, u: Use) returns (i: nat)
    requires WellFormed(FormatMeaning.Valid, pieces) && u in Uses(pieces)
    ensures i < |pieces| && Takes(pieces, i, u.index, ClassOf(u.kind), WidthOf(u.kind))
  {
    hide Uses, NextArgument, SpecUses, SpecTakes, ClassOf, WidthOf;
    i := UseOfPiece(pieces, u);
    SpecUseTaken(pieces[i].item, NextArgument(pieces[..i]), u);
  }

  /** The uses agree exactly if no argument is taken in two ways. */
  lemma ConsistentByLetters(pieces: seq<Directive>)
    requires WellFormed(FormatMeaning.Valid, pieces)
    ensures Consistent(Uses(pieces)) <==> Unmixed(pieces)
  {
    hide Takes, Uses, ClassOf, WidthOf;
    var uses := Uses(pieces);
    if Consistent(uses) {
      forall i, j, n, c, w, d, v |
        0 <= i < |pieces| && 0 <= j < |pieces| && Takes(pieces, i, n, c, w) && Takes(pieces, j, n, d, v)
        ensures c == d && w == v
      {
        var a := TakesUse(pieces, i, n, c, w);
        var b := TakesUse(pieces, j, n, d, v);
        SameKind(uses, a, b);
      }
    }
    if Unmixed(pieces) {
      forall a, b | 0 <= a < b < |uses| && uses[a].index == uses[b].index
        ensures uses[a].kind == uses[b].kind
      {
        var i := UseIsTaken(pieces, uses[a]);
        var j := UseIsTaken(pieces, uses[b]);
        TypeByClass(uses[a].kind, uses[b].kind);
      }
    }
  }

  lemma SameKind(uses: seq<Use>, u: Use, v: Use)
    requires Consistent(uses) && u in uses && v in uses && u.index == v.index
    ensures u.kind == v.kind
  {
    var a :| 0 <= a < |uses| && uses[a] == u;
    var b :| 0 <= b < |uses| && uses[b] == v;
    if a < b {
      assert uses[a].kind == uses[b].kind;
    } else if b < a {
      assert uses[b].kind == uses[a].kind;
    }
  }

  /** However a format that was parsed is split, it takes no argument in two ways. */
  lemma ParsedIsUnmixed(f: string, pieces: seq<Directive>, rest: string, table: seq<ArgType>)
    requires Consists(f, pieces, rest) && TableOf(table, Uses(pieces))
    ensures forall p, end :: Consists(f, p, end) ==> Unmixed(p)
  {
    TableIsConsistent(table, Uses(pieces));
    ConsistentByLetters(pieces);
    forall p, end | Consists(f, p, end)
      ensures Unmixed(p)
    {
      FormatIsUnambiguous(f, p, end, pieces, rest);
    }
  }

  /** A format that was refused, in whatever way it is split, takes an argument in two ways, or has an argument number
      or a number of directives too large to be held. */
  lemma HopelessByLetters(f: string, pieces: seq<Directive>, end: string)
    requires Hopeless(f) && Consists(f, pieces, end)
    ensures
      || !Unmixed(pieces) || TooLarge(|pieces|, DIRECTIVE_SIZE)
      || exists i :: 0 <= i < |Uses(pieces)| && TooLarge(Uses(pieces)[i].index, ARGUMENT_SIZE)
  {
    ConsistentByLetters(pieces);
  }

  // ----- the order of the arguments -----

  /** All amounts and positions of the directive are left to the order of the arguments. */
  predicate InOrder(x: Spec)
  {
    && x.position.Plain? && (x.width.Star? ==> x.width.position.Plain?)
    && (x.precision.Star? ==> x.precision.position.Plain?)
  }

  /** Numbered arguments count from one. */
  lemma FirstArgument(next: nat)
    ensures GoodNumber(Numbered("1")) && IndexOf(Numbered("1"), next) == 0
    ensures GoodNumber(Numbered("12")) && IndexOf(Numbered("12"), next) == 11
    ensures !GoodNumber(Numbered("0"))
  {
    assert "12"[..1] == "1" && "1"[..0] == "" && "0"[..0] == "";
    assert Decimal("1") == 1 && Decimal("0") == 0;
    assert Decimal("12") == 10 * Decimal("1") + 2;
  }

  function StarsIn(x: Spec): nat { (if x.width.Star? then 1 else 0) + (if x.precision.Star? then 1 else 0) }

  /** Such a directive takes the argument of its width first, then that of its precision, then its own. */
  lemma RecordInOrder(e: Entry, f: string, x: Spec, start: nat, next: nat)
    requires Describes(e, f, x, start, next) && InOrder(x)
    ensures x.width.Star? ==> e.widthArg as nat == next
    ensures x.precision.Star? ==> e.precisionArg as nat == next + if x.width.Star? then 1 else 0
    ensures x.conversion != '%' ==> e.argument as nat == next + StarsIn(x)
  {
    ConversionClass(Sized(x.size), x.conversion);
  }

  lemma SpecInOrder(x: Spec, next: nat)
    requires FormatMeaning.Valid(x) && InOrder(x)
    ensures SpecNext(x, next) == next + |SpecUses(x, next)|
    ensures forall k :: 0 <= k < |SpecUses(x, next)| ==> SpecUses(x, next)[k].index == next + k
  {
    hide TypeOf, Sized;
  }

  /** In a format without argument positions the directives take the arguments one after another. */
  lemma {:induction false} UsesInOrder(pieces: seq<Directive>)
    requires WellFormed(FormatMeaning.Valid, pieces) && forall i :: 0 <= i < |pieces| ==> InOrder(pieces[i].item)
    ensures NextArgument(pieces) == |Uses(pieces)|
    ensures forall k :: 0 <= k < |Uses(pieces)| ==> Uses(pieces)[k].index == k
  {
    if pieces != [] {
      var n := |pieces| - 1;
      UsesInOrder(pieces[..n]);
      SpecInOrder(pieces[n].item, NextArgument(pieces[..n]));
    }
  }
}
