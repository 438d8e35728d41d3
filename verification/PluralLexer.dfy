/** The lexer of plural expressions, and the parser run on text.  A text is the characters up to its
    terminating NUL; reading at its end yields NUL. */
module PluralLexer {
  import opened Numerals
  import opened PluralGrammar

  function Head(r: string): char { if r == "" then '\0' else r[0] }

  predicate IsBlank(c: char) { c == ' ' || c == '\t' }

  function SkipBlanks(r: string): string
  {
    if IsBlank(Head(r)) then SkipBlanks(r[1..]) else r
  }

  /** Length of the leading run of digits. */
  function DigitRun(r: string): (n: nat)
    ensures n <= |r|
    ensures forall i :: 0 <= i < n ==> IsDigit(r[i])
    ensures n < |r| ==> !IsDigit(r[n])
  {
    if IsDigit(Head(r)) then 1 + DigitRun(r[1..]) else 0
  }

  function NumberAt(r: string): Token
  {
    NumberToken(Decimal(r[..DigitRun(r)]) % ULONG_MOD)
  }

  /** The operator or name that begins with `c`, when `next` follows, and its length; nothing is consumed at the end
      of the expression. */
  function SymbolToken(c: char, next: char): (r: (Token, nat))
    ensures r.1 <= 2 && (r.1 == 2 ==> next != '\0')
  {
    match c
    case '=' => if next == c then (OpToken(Equal), 2) else (BAD, 1)
    case '!' => if next == '=' then (OpToken(NotEqual), 2) else (BANG, 1)
    case '&' => if next == c then (OpToken(LAnd), 2) else (BAD, 1)
    case '|' => if next == c then (OpToken(LOr), 2) else (BAD, 1)
    case '<' => if next == '=' then (OpToken(LessOrEqual), 2) else (OpToken(LessThan), 1)
    case '>' => if next == '=' then (OpToken(GreaterOrEqual), 2) else (OpToken(GreaterThan), 1)
    case '*' => (OpToken(Mult), 1)
    case '/' => (OpToken(Divide), 1)
    case '%' => (OpToken(Module), 1)
    case '+' => (OpToken(Plus), 1)
    case '-' => (OpToken(Minus), 1)
    case 'n' => (NAME, 1)
    case '?' => (QUESTION, 1)
    case ':' => (COLON, 1)
    case '(' => (OPEN, 1)
    case ')' => (CLOSE, 1)
    case ';' => (EOF, 0)
    case '\n' => (EOF, 0)
    case '\0' => (EOF, 0)
    case _ => (BAD, 1)
  }

  lemma KnownBlanks(c: char)
    ensures IsBlank(c) <==> c in " \t"
  {
  }

  /** The characters that are tokens by themselves or with an equals sign, and those that end the expression. */
  const SINGLE: string := "!<>*/%+-n?:()"
  const ENDING: string := ";\n\0"

  /** Refused are the characters of no operator, and an equals sign, an ampersand or a bar that stands alone. */
  lemma Refused(c: char, next: char)
    ensures SymbolToken(c, next).0 == BAD <==>
              if c == '=' || c == '&' || c == '|' then next != c else c !in SINGLE && c !in ENDING
  {
  }

  lemma OpTokenOk(op: BinOp)
    ensures TokenOk(OpToken(op)) && OpToken(op).code != YYEOF
  {
  }

  lemma SymbolIsToken(c: char, next: char)
    ensures var (t, n) := SymbolToken(c, next);
            (t.code == YYEOF ==> t == EOF) && (t != EOF ==> n > 0 && TokenOk(t))
  {
    var (t, n) := SymbolToken(c, next);
    if op :| t == OpToken(op) {
      OpTokenOk(op);
    }
  }

  /** The token at the front of `r` once blanks are skipped, and the text after it.  At the end of the
      expression the text does not advance. */
  function NextToken(text: string): (Token, string)
  {
    var r := SkipBlanks(text);
    if r == "" then (EOF, r)
    else if IsDigit(r[0]) then (NumberAt(r), r[DigitRun(r)..])
    else
      var (t, n) := SymbolToken(r[0], Head(r[1..]));
      (t, r[n..])
  }

  /** What the next token is, by the first character that is not a blank. */
  lemma NextTokenBegins(text: string, r: string)
    requires SkipBlanks(text) == r
    ensures r == "" || Head(r) == ';' || Head(r) == '\n' || Head(r) == '\0' ==> NextToken(text) == (EOF, r)
    ensures IsDigit(Head(r)) ==> NextToken(text) == (NumberAt(r), r[DigitRun(r)..])
    ensures r != "" && !IsDigit(Head(r)) ==>
      var (t, n) := SymbolToken(r[0], Head(r[1..]));
      n <= |r| && NextToken(text) == (t, r[n..])
  {
    hide SymbolToken, NumberAt, DigitRun;
    if r != "" && r[0] in {';', '\n', '\0'} { EndOfExpression(r[0], Head(r[1..])); }
  }

  lemma EndOfExpression(c: char, next: char)
    requires c in {';', '\n', '\0'}
    ensures SymbolToken(c, next) == (EOF, 0)
  {
  }

  lemma {:induction false} SkipBlanksSuffix(r: string)
    ensures |SkipBlanks(r)| <= |r|
    ensures SkipBlanks(r) == r[|r| - |SkipBlanks(r)|..]
    ensures !IsBlank(Head(SkipBlanks(r)))
  {
    if IsBlank(Head(r)) { SkipBlanksSuffix(r[1..]); }
  }

  /** Every token but the end marker consumes text, and is a token the parser is made for. */
  lemma NextTokenAdvances(r: string)
    ensures NextToken(r).0 != EOF ==> |NextToken(r).1| < |r| && TokenOk(NextToken(r).0)
    ensures NextToken(r).0.code == YYEOF ==> NextToken(r).0 == EOF
  {
    SkipBlanksSuffix(r);
    var s := SkipBlanks(r);
    if s != "" {
      SymbolIsToken(s[0], Head(s[1..]));
    }
  }

  /** All tokens of a text up to the end of the expression. */
  function Lex(r: string): (ts: seq<Token>)
    ensures TokensOk(ts)
    decreases |r|
  {
    NextTokenAdvances(r);
    var (t, rest) := NextToken(r);
    if t == EOF then [] else [t] + Lex(rest)
  }
}
