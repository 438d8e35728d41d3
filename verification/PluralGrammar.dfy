/** Plural expressions: trees, tokens, and the C grammar (section 6.5 of ISO/IEC 9899:1999)
    restricted to the operators a plural expression may use. */
module PluralGrammar {
  /** `unsigned long int`, 64 bits wide. */
  const ULONG_MOD: int := 0x1_0000_0000_0000_0000
  type ULong = n: int | 0 <= n < ULONG_MOD

  datatype BinOp =
    | Mult | Divide | Module | Plus | Minus
    | LessThan | GreaterThan | LessOrEqual | GreaterOrEqual
    | Equal | NotEqual | LAnd | LOr

  datatype Expr =
    | Var
    | Num(n: ULong)
    | Not(arg: Expr)
    | Bin(op: BinOp, left: Expr, right: Expr)
    | Cond(test: Expr, yes: Expr, no: Expr)

  /** The parser's semantic values; `NoValue` is whatever the union held before. */
  datatype Value = NoValue | NumValue(num: ULong) | OpValue(op: BinOp) | ExpValue(exp: Expr)

  datatype Token = Token(code: nat, val: Value)

  const YYEOF: nat := 0
  const YYERRCODE: nat := 256
  const EQUOP2: nat := 257
  const CMPOP2: nat := 258
  const ADDOP2: nat := 259
  const MULOP2: nat := 260
  const NUMBER: nat := 261

  const BANG: Token := Token('!' as nat, NoValue)
  const QUESTION: Token := Token('?' as nat, NoValue)
  const COLON: Token := Token(':' as nat, NoValue)
  const NAME: Token := Token('n' as nat, NoValue)
  const OPEN: Token := Token('(' as nat, NoValue)
  const CLOSE: Token := Token(')' as nat, NoValue)
  const EOF: Token := Token(YYEOF, NoValue)
  const BAD: Token := Token(YYERRCODE, NoValue)

  function NumberToken(n: ULong): Token { Token(NUMBER, NumValue(n)) }

  /** Precedence of the infix operators: `||` lowest, multiplication highest.  The conditional
      operator has level 0; unary `!` and primary expressions have level 7. */
  function Level(op: BinOp): (l: nat)
    ensures 1 <= l <= 6
  {
    match op
    case LOr => 1
    case LAnd => 2
    case Equal => 3 case NotEqual => 3
    case LessThan => 4 case GreaterThan => 4 case LessOrEqual => 4 case GreaterOrEqual => 4
    case Plus => 5 case Minus => 5
    case Mult => 6 case Divide => 6 case Module => 6
  }

  function OpToken(op: BinOp): Token
  {
    match op
    case LOr => Token('|' as nat, NoValue)
    case LAnd => Token('&' as nat, NoValue)
    case _ => Token(Level(op) + 254, OpValue(op))
  }

  /** What the lexer hands to the parser: every token class with the value that belongs to it. */
  predicate TokenOk(t: Token)
  {
    if t.code == NUMBER then t.val.NumValue?
    else if EQUOP2 <= t.code <= MULOP2 then t.val.OpValue? && t == OpToken(t.val.op)
    else 0 < t.code && t.val == NoValue
  }

  predicate TokensOk(ts: seq<Token>) { forall i :: 0 <= i < |ts| ==> TokenOk(ts[i]) }

  /** Concrete syntax: a derivation in the grammar, parentheses included. */
  datatype Syntax =
    | Name
    | Literal(n: ULong)
    | Bang(arg: Syntax)
    | Infix(op: BinOp, left: Syntax, right: Syntax)
    | Ternary(test: Syntax, yes: Syntax, no: Syntax)
    | Paren(inner: Syntax)

  /** The tokens of a derivation, left to right. */
  function Yield(c: Syntax): seq<Token>
  {
    match c
    case Name => [NAME]
    case Literal(n) => [NumberToken(n)]
    case Bang(x) => [BANG] + Yield(x)
    case Infix(op, l, r) => Yield(l) + [OpToken(op)] + Yield(r)
    case Ternary(b, y, n) => Yield(b) + [QUESTION] + Yield(y) + [COLON] + Yield(n)
    case Paren(x) => [OPEN] + Yield(x) + [CLOSE]
  }

  function Tree(c: Syntax): Expr
  {
    match c
    case Name => Var
    case Literal(n) => Num(n)
    case Bang(x) => Not(Tree(x))
    case Infix(op, l, r) => Bin(op, Tree(l), Tree(r))
    case Ternary(b, y, n) => Cond(Tree(b), Tree(y), Tree(n))
    case Paren(x) => Tree(x)
  }

  /** `c` derives from the nonterminal of precedence level `lvl`: infix operators associate to the
      left, the conditional operator to the right, `!` binds tightest. */
  predicate Derives(c: Syntax, lvl: nat)
  {
    match c
    case Name => true
    case Literal(_) => true
    case Bang(x) => Derives(x, 7)
    case Infix(op, l, r) => lvl <= Level(op) && Derives(l, Level(op)) && Derives(r, Level(op) + 1)
    case Ternary(b, y, n) => lvl == 0 && Derives(b, 1) && Derives(y, 0) && Derives(n, 0)
    case Paren(x) => Derives(x, 0)
  }

  lemma DerivesWeaken(c: Syntax, hi: nat, lo: nat)
    requires Derives(c, hi) && lo <= hi
    ensures Derives(c, lo)
  {
  }

  lemma {:induction false} YieldOk(c: Syntax)
    ensures TokensOk(Yield(c)) && Yield(c) != []
  {
    match c
    case Name =>
    case Literal(n) =>
    case Bang(x) => YieldOk(x);
    case Infix(op, l, r) => YieldOk(l); YieldOk(r);
    case Ternary(b, y, n) => YieldOk(b); YieldOk(y); YieldOk(n);
    case Paren(x) => YieldOk(x);
  }

  // ----- printing with the fewest parentheses -----

  function ExprLevel(e: Expr): nat
  {
    match e
    case Bin(op, _, _) => Level(op)
    case Cond(_, _, _) => 0
    case _ => 7
  }

  /** The derivation of `e` at level `lvl` that adds parentheses only where precedence asks. */
  function Pretty(e: Expr, lvl: nat): Syntax
    decreases e, 1
  {
    if lvl <= ExprLevel(e) then Bare(e) else Paren(Bare(e))
  }

  function Bare(e: Expr): Syntax
    decreases e, 0
  {
    match e
    case Var => Name
    case Num(n) => Literal(n)
    case Not(x) => Bang(Pretty(x, 7))
    case Bin(op, l, r) => Infix(op, Pretty(l, Level(op)), Pretty(r, Level(op) + 1))
    case Cond(b, y, n) => Ternary(Pretty(b, 1), Pretty(y, 0), Pretty(n, 0))
  }

  lemma {:induction false} PrettyDerives(e: Expr, lvl: nat)
    requires lvl <= 7
    ensures Derives(Pretty(e, lvl), lvl) && Tree(Pretty(e, lvl)) == e
    decreases e
  {
    match e
    case Var =>
    case Num(n) =>
    case Not(x) => PrettyDerives(x, 7);
    case Bin(op, l, r) => PrettyDerives(l, Level(op)); PrettyDerives(r, Level(op) + 1);
    case Cond(b, y, n) => PrettyDerives(b, 1); PrettyDerives(y, 0); PrettyDerives(n, 0);
  }

  /** No derivation of the same tree at the same level has fewer tokens. */
  lemma {:induction false} PrettyIsShortest(c: Syntax, lvl: nat)
    requires Derives(c, lvl) && lvl <= 7
    ensures |Yield(Pretty(Tree(c), lvl))| <= |Yield(c)|
  {
    match c
    case Name =>
    case Literal(n) =>
    case Bang(x) => PrettyIsShortest(x, 7);
    case Infix(op, l, r) => PrettyIsShortest(l, Level(op)); PrettyIsShortest(r, Level(op) + 1);
    case Ternary(b, y, n) => PrettyIsShortest(b, 1); PrettyIsShortest(y, 0); PrettyIsShortest(n, 0);
    case Paren(x) => PrettyIsShortest(x, 0);
  }
}
