/** Printing a plural expression and compiling it again gives the same expression back. */
module PluralText {
  import opened Numerals
  import opened PluralGrammar
  import opened PluralDriver
  import opened PluralCorrect
  import opened PluralLexer

  function DecimalText(n: nat): (s: string)
    ensures s != "" && Digits(s) && Decimal(s) == n
  {
    var digit := ('0' as int + n % 10) as char;
    assert [digit][..0] == "";
    if n < 10 then [digit]
    else
      var s := DecimalText(n / 10) + [digit];
      assert s[..|s| - 1] == DecimalText(n / 10);
      s
  }

  function OpText(op: BinOp): string
  {
    match op
    case Mult => "*" case Divide => "/" case Module => "%" case Plus => "+" case Minus => "-"
    case LessThan => "<" case GreaterThan => ">" case LessOrEqual => "<=" case GreaterOrEqual => ">="
    case Equal => "==" case NotEqual => "!=" case LAnd => "&&" case LOr => "||"
  }

  /** The characters of a token of a derivation. */
  function TokenText(t: Token): string
  {
    if t.val.NumValue? then DecimalText(t.val.num)
    else if t.val.OpValue? then OpText(t.val.op)
    else if t == OpToken(LOr) then "||"
    else if t == OpToken(LAnd) then "&&"
    else if t == BANG then "!" else if t == QUESTION then "?" else if t == COLON then ":"
    else if t == NAME then "n" else if t == OPEN then "(" else ")"
  }

  predicate IsBlanks(s: string) { forall i :: 0 <= i < |s| ==> IsBlank(s[i]) }

  /** The text ends the expression: its NUL, a semicolon or a newline comes next. */
  predicate Ends(tail: string) { Head(tail) in {'\0', ';', '\n'} }

  /** Tokens with blanks (possibly none) before each of them, then `tail`. */
  function Render(ts: seq<Token>, gaps: seq<string>, tail: string): string
    requires |gaps| == |ts|
  {
    if ts == [] then tail else gaps[0] + TokenText(ts[0]) + Render(ts[1..], gaps[1..], tail)
  }

  // ----- tokens of a derivation never run into each other -----

  predicate StartsOperand(t: Token) { t in {NAME, BANG, OPEN} || t.val.NumValue? }

  predicate EndsOperand(t: Token) { t in {NAME, CLOSE} || t.val.NumValue? }

  predicate Alternating(ts: seq<Token>)
  {
    forall i :: 0 < i < |ts| ==> EndsOperand(ts[i - 1]) != StartsOperand(ts[i])
  }

  predicate InYield(t: Token)
  {
    t in {BANG, QUESTION, COLON, NAME, OPEN, CLOSE, OpToken(LOr), OpToken(LAnd)}
    || (t.val.NumValue? && t == NumberToken(t.val.num))
    || (t.val.OpValue? && Level(t.val.op) >= 3 && t == OpToken(t.val.op))
  }

  predicate WellSpelled(ts: seq<Token>)
  {
    Alternating(ts) && forall i :: 0 <= i < |ts| ==> InYield(ts[i])
  }

  predicate IsOperand(ts: seq<Token>)
  {
    ts != [] && WellSpelled(ts) && StartsOperand(ts[0]) && EndsOperand(ts[|ts| - 1])
  }

  lemma Between(a: seq<Token>, t: Token, b: seq<Token>)
    requires IsOperand(a) && IsOperand(b) && InYield(t) && !StartsOperand(t) && !EndsOperand(t)
    ensures IsOperand(a + [t] + b)
  {
  }

  lemma Prefixed(t: Token, a: seq<Token>)
    requires IsOperand(a) && t in {BANG, OPEN}
    ensures WellSpelled([t] + a) && StartsOperand(([t] + a)[0]) && EndsOperand(([t] + a)[|a|])
  {
  }

  lemma Closed(a: seq<Token>)
    requires a != [] && WellSpelled(a) && StartsOperand(a[0]) && EndsOperand(a[|a| - 1])
    ensures IsOperand(a + [CLOSE])
  {
  }

  lemma {:induction false} YieldIsOperand(c: Syntax)
    ensures IsOperand(Yield(c))
  {
    match c
    case Name =>
    case Literal(n) =>
    case Bang(x) => YieldIsOperand(x); Prefixed(BANG, Yield(x));
    case Paren(x) => YieldIsOperand(x); Prefixed(OPEN, Yield(x)); Closed([OPEN] + Yield(x));
    case Infix(op, l, r) =>
      YieldIsOperand(l); YieldIsOperand(r);
      Between(Yield(l), OpToken(op), Yield(r));
    case Ternary(b, y, n) =>
      YieldIsOperand(b); YieldIsOperand(y); YieldIsOperand(n);
      Between(Yield(b), QUESTION, Yield(y));
      Between(Yield(b) + [QUESTION] + Yield(y), COLON, Yield(n));
  }

  // ----- reading tokens back -----

  lemma {:induction false} SkipGap(gap: string, r: string)
    requires IsBlanks(gap)
    ensures SkipBlanks(gap + r) == SkipBlanks(r)
  {
    if gap == "" {
      assert gap + r == r;
    } else {
      assert (gap + r)[1..] == gap[1..] + r;
      SkipGap(gap[1..], r);
    }
  }

  lemma {:induction false} RunOfNumeral(ds: string, r: string)
    requires Digits(ds) && !IsDigit(Head(r))
    ensures DigitRun(ds + r) == |ds|
  {
    if ds == "" {
      assert ds + r == r;
    } else {
      assert (ds + r)[1..] == ds[1..] + r;
      RunOfNumeral(ds[1..], r);
    }
  }

  /** No character follows that would extend the token. */
  predicate Clear(t: Token, next: char)
  {
    (t.val.NumValue? ==> !IsDigit(next)) && (!EndsOperand(t) ==> next != '=')
  }

  lemma NextNumber(n: ULong, r: string)
    requires !IsDigit(Head(r))
    ensures NextToken(DecimalText(n) + r) == (NumberToken(n), r)
  {
    NextNumeral(DecimalText(n), n, r);
  }

  lemma NextNumeral(ds: string, n: ULong, r: string)
    requires ds != "" && Digits(ds) && Decimal(ds) == n && !IsDigit(Head(r))
    ensures NextToken(ds + r) == (NumberToken(n), r)
  {
    RunOfNumeral(ds, r);
    assert (ds + r)[..|ds|] == ds && (ds + r)[|ds|..] == r;
  }

  /** An operator or name is recognised by its text, unless the next character extends it. */
  lemma SymbolOfToken(t: Token, next: char)
    requires InYield(t) && !t.val.NumValue? && (!EndsOperand(t) ==> next != '=')
    ensures var w := TokenText(t);
            && 1 <= |w| <= 2 && !IsBlank(w[0]) && !IsDigit(w[0])
            && SymbolToken(w[0], if |w| == 2 then w[1] else next) == (t, |w|)
  {
  }

  lemma NextOfToken(t: Token, r: string)
    requires InYield(t) && Clear(t, Head(r))
    ensures NextToken(TokenText(t) + r) == (t, r)
  {
    if t.val.NumValue? {
      NextNumber(t.val.num, r);
    } else {
      SymbolOfToken(t, Head(r));
      NextSymbol(t, TokenText(t), r);
    }
  }

  lemma NextSymbol(t: Token, w: string, r: string)
    requires 1 <= |w| <= 2 && !IsBlank(w[0]) && !IsDigit(w[0])
    requires SymbolToken(w[0], if |w| == 2 then w[1] else Head(r)) == (t, |w|)
    ensures NextToken(w + r) == (t, r)
  {
    var s := w + r;
    assert s[1..] == w[1..] + r && Head(s[1..]) == if |w| == 2 then w[1] else Head(r);
    assert s[|w|..] == r;
    assert SkipBlanks(s) == s;
  }

  lemma LexWord(gap: string, t: Token, r: string)
    requires IsBlanks(gap) && InYield(t) && Clear(t, Head(r))
    ensures Lex(gap + TokenText(t) + r) == [t] + Lex(r)
  {
    var word := TokenText(t) + r;
    assert gap + TokenText(t) + r == gap + word;
    NextOfToken(t, r);
    SkipGap(gap, word);
    assert NextToken(gap + word) == NextToken(word);
  }

  lemma {:induction false} LexRender(ts: seq<Token>, gaps: seq<string>, tail: string)
    requires WellSpelled(ts) && |gaps| == |ts| && Ends(tail)
    requires forall i :: 0 <= i < |gaps| ==> IsBlanks(gaps[i])
    ensures Lex(Render(ts, gaps, tail)) == ts
  {
    if ts != [] {
      assert forall i :: 0 < i < |ts[1..]| ==> ts[1..][i - 1] == ts[i] && ts[1..][i] == ts[i + 1];
      LexRender(ts[1..], gaps[1..], tail);
      HeadOfRender(ts, gaps, tail);
      LexWord(gaps[0], ts[0], Render(ts[1..], gaps[1..], tail));
    }
  }

  lemma HeadOfRender(ts: seq<Token>, gaps: seq<string>, tail: string)
    requires WellSpelled(ts) && |gaps| == |ts| > 0 && Ends(tail)
    requires forall i :: 0 <= i < |gaps| ==> IsBlanks(gaps[i])
    ensures Clear(ts[0], Head(Render(ts[1..], gaps[1..], tail)))
  {
    if |ts| > 1 {
      assert IsBlanks(gaps[1]) && EndsOperand(ts[0]) != StartsOperand(ts[1]) && InYield(ts[1]);
      var word := TokenText(ts[1]);
      assert Render(ts[1..], gaps[1..], tail)[0] == (gaps[1] + word)[0];
    }
  }

  /** Compiling a text: the lexer's tokens through the parser. */
  function Compile(text: string): Value { Parse(Lex(text)) }

  /** Printing any expression with the parentheses C's precedence needs, and any blanks, and compiling
      the text, returns the expression. */
  lemma CompileInvertsPrint(e: Expr, gaps: seq<string>, tail: string)
    requires |gaps| == |Yield(Pretty(e, 0))| && Ends(tail)
    requires forall i :: 0 <= i < |gaps| ==> IsBlanks(gaps[i])
    ensures Compile(Render(Yield(Pretty(e, 0)), gaps, tail)) == ExpValue(e)
  {
    PrettyDerives(e, 0);
    YieldIsOperand(Pretty(e, 0));
    LexRender(Yield(Pretty(e, 0)), gaps, tail);
    DriverIsComplete(Pretty(e, 0));
  }
}
