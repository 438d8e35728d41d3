/** The directives of printf formats: what they look like, and how they are read from the front of a text.  The
    forms are those of section 7.19.6.1 of ISO/IEC 9899:1999 with POSIX argument positions. */
module FormatSyntax {
  import opened Numerals
  import opened Interleaving

  /** An argument position: the next argument, or one by its number. */
  datatype Position = Plain | Numbered(digits: string)

  /** A width or a precision: none, a number, or an argument. */
  datatype Amount = NoAmount | Fixed(digits: string) | Star(position: Position)

  datatype Spec = Spec(position: Position, flags: string, width: Amount, precision: Amount, size: string,
                       conversion: char)

  predicate IsFlag(c: char)
  {
    c == '\'' || c == '-' || c == '+' || c == ' ' || c == '#' || c == '0'
  }

  predicate IsSize(c: char)
  {
    c == 'h' || c == 'L' || c == 'l' || c == 'j' || c == 'z' || c == 'Z' || c == 't'
  }

  predicate IsConversion(c: char)
  {
    || c == 'd' || c == 'i' || c == 'o' || c == 'u' || c == 'x' || c == 'X'
    || c == 'f' || c == 'F' || c == 'e' || c == 'E' || c == 'g' || c == 'G' || c == 'a' || c == 'A'
    || c == 'c' || c == 'C' || c == 's' || c == 'S' || c == 'p' || c == 'n' || c == '%'
  }

  predicate All(s: string, cls: char -> bool) { forall i :: 0 <= i < |s| ==> cls(s[i]) }

  // ----- writing -----

  function ShowPosition(p: Position): string
  {
    match p case Plain => "" case Numbered(d) => d + "$"
  }

  function ShowWidth(w: Amount): string
  {
    match w case NoAmount => "" case Fixed(d) => d case Star(p) => "*" + ShowPosition(p)
  }

  function ShowPrecision(q: Amount): string
  {
    match q case NoAmount => "" case Fixed(d) => "." + d case Star(p) => ".*" + ShowPosition(p)
  }

  /** A directive without its percent sign. */
  function Body(x: Spec): string
  {
    ShowPosition(x.position) + x.flags + ShowWidth(x.width) + ShowPrecision(x.precision) + x.size + [x.conversion]
  }

  predicate ShapedPosition(p: Position) { p.Numbered? ==> p.digits != "" && All(p.digits, IsDigit) }

  predicate ShapedWidth(w: Amount)
  {
    match w
    case NoAmount => true
    case Fixed(d) => d != "" && d[0] != '0' && All(d, IsDigit)
    case Star(p) => ShapedPosition(p)
  }

  predicate ShapedPrecision(q: Amount)
  {
    match q
    case NoAmount => true
    case Fixed(d) => All(d, IsDigit)
    case Star(p) => ShapedPosition(p)
  }

  /** The parts have the right form. */
  predicate Shaped(x: Spec)
  {
    && ShapedPosition(x.position) && All(x.flags, IsFlag) && ShapedWidth(x.width) && ShapedPrecision(x.precision)
    && All(x.size, IsSize)
  }

  // ----- reading -----

  /** The length of the longest start of `s` in the class. */
  function Run(s: string, cls: char -> bool): (n: nat)
    ensures n <= |s| && All(s[..n], cls) && (n < |s| ==> !cls(s[n]))
  {
    if s == "" || !cls(s[0]) then 0
    else
      assert s == [s[0]] + s[1..];
      1 + Run(s[1..], cls)
  }

  lemma {:induction false} RunSplits(a: string, b: string, cls: char -> bool)
    requires All(a, cls) && (b == "" || !cls(b[0]))
    ensures Run(a + b, cls) == |a|
  {
    if a == "" {
      assert a + b == b;
    } else {
      assert (a + b)[1..] == a[1..] + b;
      RunSplits(a[1..], b, cls);
    }
  }

  function TakePosition(s: string): (p: Position)
    ensures ShapedPosition(p) && ShowPosition(p) <= s
  {
    var n := Run(s, IsDigit);
    if n > 0 && n < |s| && s[n] == '$' then Numbered(s[..n]) else Plain
  }

  function TakeWidth(s: string): (w: Amount)
    requires s == "" || s[0] != '0'
    ensures ShapedWidth(w) && ShowWidth(w) <= s
  {
    if s != "" && s[0] == '*' then
      assert s == "*" + s[1..];
      Star(TakePosition(s[1..]))
    else
      var n := Run(s, IsDigit);
      if n > 0 then Fixed(s[..n]) else NoAmount
  }

  function TakePrecision(s: string): (q: Amount)
    ensures ShapedPrecision(q) && ShowPrecision(q) <= s
  {
    if s == "" || s[0] != '.' then NoAmount
    else if |s| > 1 && s[1] == '*' then
      assert s == ".*" + s[2..];
      Star(TakePosition(s[2..]))
    else
      var n := Run(s[1..], IsDigit);
      assert s == "." + s[1..];
      assert s[1..1 + n] == s[1..][..n];
      Fixed(s[1..1 + n])
  }

  function DropPosition(s: string): string { s[|ShowPosition(TakePosition(s))|..] }

  function TakeFlags(s: string): string { s[..Run(s, IsFlag)] }

  function DropFlags(s: string): (r: string)
    ensures r == "" || r[0] != '0'
  {
    s[Run(s, IsFlag)..]
  }

  function DropWidth(s: string): string
    requires s == "" || s[0] != '0'
  {
    s[|ShowWidth(TakeWidth(s))|..]
  }

  function DropPrecision(s: string): string { s[|ShowPrecision(TakePrecision(s))|..] }

  function TakeSize(s: string): string { s[..Run(s, IsSize)] }

  function DropSize(s: string): string { s[Run(s, IsSize)..] }

  /** Reads the directive at the front of `s`, the text after a percent sign; the conversion may be any character. */
  function ReadShape(s: string): (r: Option<Spec>)
  {
    var s1 := DropPosition(s);
    var s2 := DropFlags(s1);
    var s3 := DropWidth(s2);
    var s4 := DropPrecision(s3);
    var s5 := DropSize(s4);
    if s5 == "" then None
    else Some(Spec(TakePosition(s), TakeFlags(s1), TakeWidth(s2), TakePrecision(s3), TakeSize(s4), s5[0]))
  }

  lemma Chain(s: string, a: string, b: string)
    requires a <= s && b <= s[|a|..]
    ensures a + b <= s && s[|a + b|..] == s[|a|..][|b|..]
  {
  }

  /** What is read has the right form and stands at the front of the text. */
  lemma ReadIsSound(s: string)
    requires ReadShape(s).Some?
    ensures Shaped(ReadShape(s).value) && Body(ReadShape(s).value) <= s
  {
    var s1 := DropPosition(s);
    var s2 := DropFlags(s1);
    var s3 := DropWidth(s2);
    var s4 := DropPrecision(s3);
    var front := ShowPosition(TakePosition(s));
    Chain(s, front, TakeFlags(s1));
    Chain(s, front + TakeFlags(s1), ShowWidth(TakeWidth(s2)));
    front := front + TakeFlags(s1) + ShowWidth(TakeWidth(s2));
    Chain(s, front, ShowPrecision(TakePrecision(s3)));
    front := front + ShowPrecision(TakePrecision(s3));
    Chain(s, front, TakeSize(s4));
    Chain(s, front + TakeSize(s4), [DropSize(s4)[0]]);
  }

  // ----- what is written is read back -----

  /** `s` does not start with a digit or a dollar sign. */
  predicate Closed(s: string) { s != "" && !IsDigit(s[0]) && s[0] != '$' }

  lemma PositionBack(p: Position, rest: string)
    requires ShapedPosition(p) && (p.Plain? ==> Closed(rest))
    ensures TakePosition(ShowPosition(p) + rest) == p
  {
    match p
    case Plain =>
      assert "" + rest == rest;
    case Numbered(d) =>
      assert (d + "$") + rest == d + ("$" + rest);
      RunSplits(d, "$" + rest, IsDigit);
  }

  lemma WidthBack(w: Amount, rest: string)
    requires ShapedWidth(w) && Closed(rest) && rest[0] != '*'
    ensures TakeWidth(ShowWidth(w) + rest) == w
    ensures Closed(ShowWidth(w) + rest) || w.Fixed?
  {
    match w
    case NoAmount =>
      assert "" + rest == rest;
    case Fixed(d) =>
      RunSplits(d, rest, IsDigit);
      assert (d + rest)[0] == d[0];
    case Star(p) =>
      assert ("*" + ShowPosition(p)) + rest == "*" + (ShowPosition(p) + rest);
      PositionBack(p, rest);
  }

  lemma PrecisionBack(q: Amount, rest: string)
    requires ShapedPrecision(q) && Closed(rest) && rest[0] != '*' && rest[0] != '.'
    ensures TakePrecision(ShowPrecision(q) + rest) == q
    ensures Closed(ShowPrecision(q) + rest) && (ShowPrecision(q) + rest)[0] != '*'
  {
    match q
    case NoAmount =>
      assert "" + rest == rest;
    case Fixed(d) =>
      FixedBack(d, rest);
    case Star(p) =>
      assert (".*" + ShowPosition(p)) + rest == ".*" + (ShowPosition(p) + rest);
      PositionBack(p, rest);
  }

  lemma FixedBack(d: string, rest: string)
    requires All(d, IsDigit) && Closed(rest) && rest[0] != '*'
    ensures TakePrecision("." + d + rest) == Fixed(d)
    ensures Closed("." + d + rest) && ("." + d + rest)[0] != '*'
  {
    var s := "." + d + rest;
    assert s[1..] == d + rest;
    RunSplits(d, rest, IsDigit);
    assert s[1] == if d == "" then rest[0] else d[0];
    assert s[1..1 + |d|] == d;
  }

  lemma FlagsBack(flags: string, w: Amount, rest: string)
    requires All(flags, IsFlag) && ShapedWidth(w) && Closed(rest) && rest[0] != '*' && !IsFlag(rest[0])
    ensures Run(flags + (ShowWidth(w) + rest), IsFlag) == |flags|
  {
    var tail := ShowWidth(w) + rest;
    if w.NoAmount? {
      assert tail == rest;
    }
    assert tail[0] == if w.NoAmount? then rest[0] else ShowWidth(w)[0];
    RunSplits(flags, tail, IsFlag);
  }

  lemma {:induction false} RunPast(a: string, b: string, cls: char -> bool)
    ensures var n := Run(a, cls); Run(a + b, cls) == if n < |a| then n else n + Run(b, cls)
  {
    if a == "" {
      assert a + b == b;
    } else if cls(a[0]) {
      assert (a + b)[1..] == a[1..] + b;
      RunPast(a[1..], b, cls);
    }
  }

  /** No position is read where none is written: what follows the leading digits is no dollar sign. */
  lemma NoPosition(flags: string, w: Amount, rest: string)
    requires All(flags, IsFlag) && ShapedWidth(w) && Closed(rest) && rest[0] != '*'
    ensures TakePosition(flags + (ShowWidth(w) + rest)) == Plain
  {
    var tail := ShowWidth(w) + rest;
    RunPast(flags, tail, IsDigit);
    match w
    case NoAmount =>
      assert tail == rest;
    case Fixed(d) =>
      RunSplits(d, rest, IsDigit);
    case Star(p) =>
      assert tail[0] == '*';
  }

  lemma ConversionApart(c: char)
    ensures IsConversion(c) || IsSize(c) ==> !IsFlag(c) && !IsDigit(c) && c != '$' && c != '*' && c != '.'
    ensures IsConversion(c) ==> !IsSize(c)
  {
  }

  lemma SizeBack(size: string, conversion: char, rest: string)
    requires All(size, IsSize) && IsConversion(conversion)
    ensures
      var t4 := size + ([conversion] + rest);
      && Run(t4, IsSize) == |size| && t4[|size|] == conversion
      && Closed(t4) && t4[0] != '*' && t4[0] != '.' && !IsFlag(t4[0])
  {
    var t5 := [conversion] + rest;
    ConversionApart(conversion);
    RunSplits(size, t5, IsSize);
    var head := if size == "" then conversion else size[0];
    ConversionApart(head);
    assert (size + t5)[0] == head;
  }

  lemma TailBack(x: Spec, rest: string)
    requires Shaped(x) && IsConversion(x.conversion)
    ensures
      var t4 := x.size + ([x.conversion] + rest);
      var t3 := ShowPrecision(x.precision) + t4;
      && Run(t4, IsSize) == |x.size| && t4[|x.size|] == x.conversion
      && TakePrecision(t3) == x.precision
      && Closed(t3) && t3[0] != '*' && !IsFlag(t3[0])
  {
    var t4 := x.size + ([x.conversion] + rest);
    SizeBack(x.size, x.conversion, rest);
    PrecisionBack(x.precision, t4);
    PrecisionHead(x.precision, t4);
  }

  lemma PrecisionHead(q: Amount, rest: string)
    requires Closed(rest) && !IsFlag(rest[0])
    ensures !IsFlag((ShowPrecision(q) + rest)[0])
  {
    assert (ShowPrecision(q) + rest)[0] == if q.NoAmount? then rest[0] else ShowPrecision(q)[0];
  }

  /** Every well-formed directive is read back as it was written, whatever follows it. */
  lemma ReadIsComplete(x: Spec, rest: string)
    requires Shaped(x) && IsConversion(x.conversion)
    ensures ReadShape(Body(x) + rest) == Some(x)
  {
    var t4 := x.size + ([x.conversion] + rest);
    var t3 := ShowPrecision(x.precision) + t4;
    var t2 := ShowWidth(x.width) + t3;
    var t1 := x.flags + t2;
    var t0 := ShowPosition(x.position) + t1;
    TailBack(x, rest);
    WidthBack(x.width, t3);
    FlagsBack(x.flags, x.width, t3);
    if x.position.Plain? {
      NoPosition(x.flags, x.width, t3);
      assert t0 == t1;
    } else {
      PositionBack(x.position, t1);
    }
    Unglue(t0, ShowPosition(x.position), t1, x.flags, t2, ShowWidth(x.width), t3, ShowPrecision(x.precision), t4);
    assert Body(x) + rest == t0 by { Assemble(x, rest); }
  }

  lemma Unglue(t0: string, a: string, t1: string, b: string, t2: string, c: string, t3: string, d: string, t4: string)
    requires t0 == a + t1 && t1 == b + t2 && t2 == c + t3 && t3 == d + t4
    ensures t0[|a|..] == t1 && t1[|b|..] == t2 && t1[..|b|] == b && t2[|c|..] == t3 && t3[|d|..] == t4
  {
  }

  lemma Assemble(x: Spec, rest: string)
    ensures Body(x) + rest ==
            ShowPosition(x.position) + (x.flags + (ShowWidth(x.width) + (ShowPrecision(x.precision)
            + (x.size + ([x.conversion] + rest)))))
  {
  }

  // ----- in letters -----

  lemma KnownLetters(c: char)
    ensures IsFlag(c) <==> c in "'-+ #0"
    ensures IsSize(c) <==> c in "hLljzZt"
    ensures IsConversion(c) <==> c in "diouxXfFeEgGaAcCsSpn%"
  {
  }

  lemma TextOfDirectives()
    ensures Body(Spec(Numbered("2"), "-0", Fixed("8"), Star(Numbered("1")), "hh", 'd')) == "2$-08.*1$hhd"
    ensures Body(Spec(Plain, "", Star(Plain), Fixed("3"), "l", 'f')) == "*.3lf"
  {
  }

  /** What stands behind a percent sign in two directives: argument 2 as a small integer, left-justified in 8 columns,
      its precision argument 1; and a real number, its width the next argument, with 3 digits. */
  lemma TwoDirectives(rest: string)
    ensures ReadShape("2$-08.*1$hhd" + rest) ==
              Some(Spec(Numbered("2"), "-0", Fixed("8"), Star(Numbered("1")), "hh", 'd'))
    ensures ReadShape("*.3lf" + rest) == Some(Spec(Plain, "", Star(Plain), Fixed("3"), "l", 'f'))
  {
    var x := Spec(Numbered("2"), "-0", Fixed("8"), Star(Numbered("1")), "hh", 'd');
    var y := Spec(Plain, "", Star(Plain), Fixed("3"), "l", 'f');
    assert Shaped(x) && Shaped(y);
    TextOfDirectives();
    hide *;
    assert IsConversion('d') && IsConversion('f') by { KnownLetters('d'); KnownLetters('f'); }
    ReadIsComplete(x, rest);
    ReadIsComplete(y, rest);
  }
}
