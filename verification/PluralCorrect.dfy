/** The driver accepts a token list exactly when the C grammar derives it, and returns that
    derivation's tree. */
module PluralCorrect {
  import opened PluralGrammar
  import opened PluralTables
  import opened PluralDriver

  /** The precedence level of an operand that starts above state `s`. */
  function LevelAbove(s: nat): nat
    requires Expects(s)
  {
    if s == 1 then 7 else if 9 <= s <= 14 then s - 7 else 0
  }

  /** Seeing token number `t` next, the parser closes `c`: `t` is no operator, or one that does not
      bind tighter than any operator on the right edge of `c`. */
  predicate Closes(c: Syntax, t: nat)
  {
    3 <= t <= 9 ==> Derives(c, if t == 3 then 1 else t - 3)
  }

  // ----- completeness: the driver follows every derivation -----

  /** The stack once the operand `c` has been read and reduced above `k`. */
  function Over(k: Stack, c: Syntax): Stack
    requires Expects(k.Top())
  {
    Push(k, OperandState(k.Top()), ExpValue(Tree(c)))
  }

  /** `n` trips around the parser loop. */
  function Steps(c: Config, n: nat): Outcome
    decreases n
  {
    if n == 0 then Next(c)
    else if !Valid(c) then Rejected
    else
      match Step(c)
      case Next(d) => Steps(d, n - 1)
      case o => o
  }

  /** The driver gets from stack `k` before `input` to stack `k1` before `rest`. */
  ghost predicate Leads(k: Stack, input: seq<Token>, k1: Stack, rest: seq<Token>, res: Value)
  {
    exists n :: Steps(Config(k, input, res), n) == Next(Config(k1, rest, res))
  }

  lemma {:induction false} StepsAdd(c: Config, m: nat, n: nat)
    requires Steps(c, m).Next?
    ensures Steps(c, m + n) == Steps(Steps(c, m).config, n)
    decreases m
  {
    hide Step;
    if m > 0 { StepsAdd(Step(c).config, m - 1, n); }
  }

  lemma Chain(k: Stack, in0: seq<Token>, k1: Stack, in1: seq<Token>, k2: Stack, in2: seq<Token>, res: Value)
    requires Leads(k, in0, k1, in1, res) && Leads(k1, in1, k2, in2, res)
    ensures Leads(k, in0, k2, in2, res)
  {
    var m :| Steps(Config(k, in0, res), m) == Next(Config(k1, in1, res));
    var n :| Steps(Config(k1, in1, res), n) == Next(Config(k2, in2, res));
    StepsAdd(Config(k, in0, res), m, n);
  }

  lemma {:induction false} RunSteps(c: Config, n: nat)
    requires Valid(c) && Steps(c, n).Next?
    ensures Valid(Steps(c, n).config) && Run(c) == Run(Steps(c, n).config)
    decreases n
  {
    if n > 0 {
      StepProgress(c);
      RunSteps(Step(c).config, n - 1);
    }
  }

  lemma ShiftLeads(k: Stack, t: Token, rest: seq<Token>, s: nat, res: Value)
    requires Linked(k) && k.Top() !in {25, 26} && TokensOk(rest) && TokenOk(t)
    requires Automaton(k.Top(), YyTranslate(t.code)) == Shift(s)
    ensures Leads(k, [t] + rest, Push(k, s, t.val), rest, res)
  {
    var d := Config(k, [t] + rest, res);
    assert d.input[1..] == rest;
    assert Steps(Step(d).config, 0) == Next(Config(Push(k, s, t.val), rest, res));
    assert Steps(d, 1) == Next(Config(Push(k, s, t.val), rest, res));
  }

  lemma ReduceLeads(k: Stack, rule: nat, rest: seq<Token>, k1: Stack, res: Value)
    requires Linked(k) && TokensOk(rest) && rule != 1
    requires Automaton(k.Top(), Symbol(rest)) == Reduce(rule)
    requires CanReduce(k, rule) ==>
               var b := Base(k, rule); k1 == Push(b, OperandState(b.Top()), ExpValue(SemanticAction(k, rule)))
    ensures Leads(k, rest, k1, rest, res)
  {
    HandleOnTop(k, Symbol(rest));
    var d := Config(k, rest, res);
    assert Steps(Step(d).config, 0) == Next(Config(k1, rest, res));
    assert Steps(d, 1) == Next(Config(k1, rest, res));
  }

  /** The tokens of `c`, then `rest`. */
  function Spell(c: Syntax, rest: seq<Token>): seq<Token>
  {
    match c
    case Name => [NAME] + rest
    case Literal(n) => [NumberToken(n)] + rest
    case Bang(x) => [BANG] + Spell(x, rest)
    case Infix(op, l, r) => Spell(l, [OpToken(op)] + Spell(r, rest))
    case Ternary(b, y, n) => Spell(b, [QUESTION] + Spell(y, [COLON] + Spell(n, rest)))
    case Paren(x) => [OPEN] + Spell(x, [CLOSE] + rest)
  }

  lemma Regroup(b: seq<Token>, q: Token, y: seq<Token>, c: Token, n: seq<Token>, rest: seq<Token>)
    ensures b + ([q] + (y + ([c] + (n + rest)))) == (b + [q] + y + [c] + n) + rest
  {
  }

  lemma {:induction false} SpellIsYield(c: Syntax, rest: seq<Token>)
    ensures Spell(c, rest) == Yield(c) + rest
  {
    match c
    case Name =>
    case Literal(n) =>
    case Bang(x) => SpellIsYield(x, rest);
    case Infix(op, l, r) =>
      SpellIsYield(r, rest);
      SpellIsYield(l, [OpToken(op)] + Spell(r, rest));
    case Ternary(b, y, n) =>
      var in3 := Spell(n, rest);
      SpellIsYield(n, rest);
      SpellIsYield(y, [COLON] + in3);
      SpellIsYield(b, [QUESTION] + Spell(y, [COLON] + in3));
      Regroup(Yield(b), QUESTION, Yield(y), COLON, Yield(n), rest);
    case Paren(x) => SpellIsYield(x, [CLOSE] + rest);
  }

  lemma SpellOk(c: Syntax, rest: seq<Token>)
    requires TokensOk(rest)
    ensures TokensOk(Spell(c, rest))
  {
    SpellIsYield(c, rest);
    YieldOk(c);
  }

  lemma OverLinked(k: Stack, c: Syntax)
    requires Linked(k) && Expects(k.Top())
    ensures Linked(Over(k, c)) && Over(k, c).Top() !in {25, 26}
  {
  }

  lemma OperatorNumber(op: BinOp)
    ensures YyTranslate(OpToken(op).code) == Level(op) + 3 && TokenOk(OpToken(op))
    ensures Fits(Level(op) + 8, OpToken(op).val)
  {
  }

  /** After an operand, an operator binding at least as tightly as the context asks is shifted. */
  lemma OperatorShifts(k: Stack, c: Syntax, tok: Token, lvl: nat, rest: seq<Token>, res: Value)
    requires Linked(k) && Expects(k.Top()) && LevelAbove(k.Top()) <= lvl <= 6 && TokensOk(rest)
    requires TokenOk(tok) && YyTranslate(tok.code) == lvl + 3 && Fits(lvl + 8, tok.val)
    ensures var k1 := Push(Over(k, c), lvl + 8, tok.val);
            Linked(k1) && Leads(Over(k, c), [tok] + rest, k1, rest, res)
  {
    OverLinked(k, c);
    ShiftLeads(Over(k, c), tok, rest, lvl + 8, res);
  }

  lemma InfixReduces(k: Stack, op: BinOp, l: Syntax, r: Syntax, rest: seq<Token>, res: Value)
    requires Linked(k) && Expects(k.Top()) && TokensOk(rest) && Closes(Infix(op, l, r), Symbol(rest))
    requires Linked(Push(Over(k, l), Level(op) + 8, OpToken(op).val))
    ensures Leads(Over(Push(Over(k, l), Level(op) + 8, OpToken(op).val), r), rest, Over(k, Infix(op, l, r)), rest, res)
  {
    var k2 := Push(Over(k, l), Level(op) + 8, OpToken(op).val);
    OverLinked(k2, r);
    OperatorNumber(op);
    ReduceLeads(Over(k2, r), Level(op) + 2, rest, Over(k, Infix(op, l, r)), res);
  }

  /** The stack with a complete parenthesised operand on top. */
  function Closed(k: Stack, x: Syntax): Stack
    requires Expects(k.Top())
  {
    Push(Over(Push(k, 4, NoValue), x), 15, NoValue)
  }

  lemma ParenCloses(k: Stack, x: Syntax, rest: seq<Token>, res: Value)
    requires Linked(k) && Expects(k.Top()) && TokensOk(rest)
    ensures Linked(Closed(k, x)) && Leads(Over(Push(k, 4, NoValue), x), [CLOSE] + rest, Closed(k, x), rest, res)
  {
    OverLinked(Push(k, 4, NoValue), x);
    CloseParen(Over(Push(k, 4, NoValue), x), rest, res);
  }

  lemma CloseParen(k2: Stack, rest: seq<Token>, res: Value)
    requires Linked(k2) && k2.Top() == 7 && TokensOk(rest)
    ensures Linked(Push(k2, 15, NoValue)) && Leads(k2, [CLOSE] + rest, Push(k2, 15, NoValue), rest, res)
  {
    ShiftLeads(k2, CLOSE, rest, 15, res);
  }

  lemma ClosedReduces(k: Stack, x: Syntax, rest: seq<Token>, res: Value)
    requires Linked(k) && Expects(k.Top()) && TokensOk(rest) && Linked(Closed(k, x))
    ensures Leads(Closed(k, x), rest, Over(k, Paren(x)), rest, res)
  {
    ReduceParen(Closed(k, x), k, x, rest, res);
  }

  lemma ReduceParen(k3: Stack, k: Stack, x: Syntax, rest: seq<Token>, res: Value)
    requires Linked(k3) && k3.Top() == 15 && k3.below.Push? && k3.below.below.Push? && k3.below.below.below == k
    requires k3.below.val == ExpValue(Tree(x)) && Expects(k.Top()) && TokensOk(rest)
    ensures Leads(k3, rest, Over(k, Paren(x)), rest, res)
  {
    ReduceLeads(k3, 12, rest, Over(k, Paren(x)), res);
  }

  lemma ParenReduces(k: Stack, x: Syntax, rest: seq<Token>, res: Value)
    requires Linked(k) && Expects(k.Top()) && TokensOk(rest)
    ensures Leads(Over(Push(k, 4, NoValue), x), [CLOSE] + rest, Over(k, Paren(x)), rest, res)
  {
    ParenCloses(k, x, rest, res);
    ClosedReduces(k, x, rest, res);
    Chain(Over(Push(k, 4, NoValue), x), [CLOSE] + rest, Closed(k, x), rest, Over(k, Paren(x)), rest, res);
  }

  lemma CloseRight(op: BinOp, l: Syntax, r: Syntax, t: nat)
    requires Closes(Infix(op, l, r), t) && Derives(r, Level(op) + 1)
    ensures Closes(r, t)
  {
    if 3 <= t <= 9 { DerivesWeaken(r, Level(op) + 1, if t == 3 then 1 else t - 3); }
  }

  lemma CloseTight(c: Syntax, t: nat)
    requires Derives(c, 7)
    ensures Closes(c, t)
  {
    if 3 <= t <= 9 { DerivesWeaken(c, 7, if t == 3 then 1 else t - 3); }
  }

  lemma {:induction false} ReadOperand(k: Stack, c: Syntax, rest: seq<Token>, res: Value)
    requires Linked(k) && Expects(k.Top()) && Derives(c, LevelAbove(k.Top()))
    requires Closes(c, Symbol(rest)) && TokensOk(rest)
    ensures Leads(k, Spell(c, rest), Over(k, c), rest, res)
    decreases c
  {
    match c
    case Name => ReadPrimary(k, c, rest, res);
    case Literal(n) => ReadPrimary(k, c, rest, res);
    case Bang(x) => ReadBang(k, x, rest, res);
    case Paren(x) => ReadParen(k, x, rest, res);
    case Infix(op, l, r) => ReadInfix(k, op, l, r, rest, res);
    case Ternary(b, y, n) => ReadTernary(k, b, y, n, rest, res);
  }

  lemma ReadPrimary(k: Stack, c: Syntax, rest: seq<Token>, res: Value)
    requires Linked(k) && Expects(k.Top()) && TokensOk(rest) && (c.Name? || c.Literal?)
    ensures Leads(k, Spell(c, rest), Over(k, c), rest, res)
  {
    var tok, s := if c.Name? then NAME else NumberToken(c.n), if c.Name? then 3 else 2;
    ShiftLeads(k, tok, rest, s, res);
    ReduceLeads(Push(k, s, tok.val), if c.Name? then 10 else 11, rest, Over(k, c), res);
    Chain(k, Spell(c, rest), Push(k, s, tok.val), rest, Over(k, c), rest, res);
  }

  lemma {:induction false} ReadBang(k: Stack, x: Syntax, rest: seq<Token>, res: Value)
    requires Linked(k) && Expects(k.Top()) && Derives(x, 7) && TokensOk(rest)
    ensures Leads(k, Spell(Bang(x), rest), Over(k, Bang(x)), rest, res)
    decreases Bang(x), 0
  {
    var k1 := Push(k, 1, NoValue);
    SpellOk(x, rest);
    ShiftLeads(k, BANG, Spell(x, rest), 1, res);
    CloseTight(x, Symbol(rest));
    ReadOperand(k1, x, rest, res);
    OverLinked(k1, x);
    ReduceLeads(Over(k1, x), 9, rest, Over(k, Bang(x)), res);
    Chain(k1, Spell(x, rest), Over(k1, x), rest, Over(k, Bang(x)), rest, res);
    Chain(k, Spell(Bang(x), rest), k1, Spell(x, rest), Over(k, Bang(x)), rest, res);
  }

  lemma {:induction false} ReadParen(k: Stack, x: Syntax, rest: seq<Token>, res: Value)
    requires Linked(k) && Expects(k.Top()) && Derives(x, 0) && TokensOk(rest)
    ensures Leads(k, Spell(Paren(x), rest), Over(k, Paren(x)), rest, res)
    decreases Paren(x), 0
  {
    hide Leads;
    var rest1 := [CLOSE] + rest;
    var k1 := Push(k, 4, NoValue);
    SpellOk(x, rest1);
    ShiftLeads(k, OPEN, Spell(x, rest1), 4, res);
    ReadOperand(k1, x, rest1, res);
    ParenReduces(k, x, rest, res);
    Chain(k1, Spell(x, rest1), Over(k1, x), rest1, Over(k, Paren(x)), rest, res);
    Chain(k, Spell(Paren(x), rest), k1, Spell(x, rest1), Over(k, Paren(x)), rest, res);
  }

  lemma {:induction false} ReadInfix(k: Stack, op: BinOp, l: Syntax, r: Syntax, rest: seq<Token>, res: Value)
    requires var c := Infix(op, l, r);
             Linked(k) && Expects(k.Top()) && Derives(c, LevelAbove(k.Top())) && Closes(c, Symbol(rest))
    requires TokensOk(rest)
    ensures Leads(k, Spell(Infix(op, l, r), rest), Over(k, Infix(op, l, r)), rest, res)
    decreases Infix(op, l, r), 0
  {
    var c := Infix(op, l, r);
    var in1 := Spell(r, rest);
    var in0 := [OpToken(op)] + in1;
    SpellOk(r, rest);
    OperatorNumber(op);
    DerivesWeaken(l, Level(op), LevelAbove(k.Top()));
    ReadOperand(k, l, in0, res);
    ReadRight(k, op, l, r, rest, res);
    Chain(k, Spell(c, rest), Over(k, l), in0, Over(k, c), rest, res);
  }

  /** The operator and the right operand, once the left operand has been read. */
  lemma {:induction false} ReadRight(k: Stack, op: BinOp, l: Syntax, r: Syntax, rest: seq<Token>, res: Value)
    requires Linked(k) && Expects(k.Top()) && LevelAbove(k.Top()) <= Level(op) && Derives(r, Level(op) + 1)
    requires Closes(Infix(op, l, r), Symbol(rest)) && TokensOk(rest)
    ensures Leads(Over(k, l), [OpToken(op)] + Spell(r, rest), Over(k, Infix(op, l, r)), rest, res)
    decreases Infix(op, l, r), 0, 0
  {
    var in1 := Spell(r, rest);
    var k2 := Push(Over(k, l), Level(op) + 8, OpToken(op).val);
    SpellOk(r, rest);
    OperatorNumber(op);
    OperatorShifts(k, l, OpToken(op), Level(op), in1, res);
    CloseRight(op, l, r, Symbol(rest));
    ReadOperand(k2, r, rest, res);
    InfixReduces(k, op, l, r, rest, res);
    Chain(k2, in1, Over(k2, r), rest, Over(k, Infix(op, l, r)), rest, res);
    Chain(Over(k, l), [OpToken(op)] + in1, k2, in1, Over(k, Infix(op, l, r)), rest, res);
  }

  lemma {:induction false} ReadTernary(k: Stack, b: Syntax, y: Syntax, n: Syntax, rest: seq<Token>, res: Value)
    requires Linked(k) && Expects(k.Top()) && LevelAbove(k.Top()) == 0 && !(3 <= Symbol(rest) <= 9)
    requires Derives(Ternary(b, y, n), 0) && TokensOk(rest)
    ensures Leads(k, Spell(Ternary(b, y, n), rest), Over(k, Ternary(b, y, n)), rest, res)
    decreases Ternary(b, y, n), 0
  {
    hide Leads;
    var c := Ternary(b, y, n);
    var in3 := Spell(n, rest);
    var in2 := Spell(y, [COLON] + in3);
    var k2 := Push(Over(k, b), 8, NoValue);
    SpellOk(n, rest); SpellOk(y, [COLON] + in3);
    DerivesWeaken(b, 1, 0);
    ReadOperand(k, b, [QUESTION] + in2, res);
    OperatorShifts(k, b, QUESTION, 0, in2, res);
    ReadBranches(k, b, y, n, rest, res);
    Chain(Over(k, b), [QUESTION] + in2, k2, in2, Over(k, c), rest, res);
    Chain(k, Spell(c, rest), Over(k, b), [QUESTION] + in2, Over(k, c), rest, res);
  }

  /** Both branches of a conditional, once the question mark has been shifted. */
  lemma {:induction false} ReadBranches(k: Stack, b: Syntax, y: Syntax, n: Syntax, rest: seq<Token>, res: Value)
    requires Expects(k.Top()) && LevelAbove(k.Top()) == 0 && !(3 <= Symbol(rest) <= 9)
    requires Linked(Push(Over(k, b), 8, NoValue)) && Linked(k) && Derives(y, 0) && Derives(n, 0) && TokensOk(rest)
    ensures Leads(Push(Over(k, b), 8, NoValue), Spell(y, [COLON] + Spell(n, rest)), Over(k, Ternary(b, y, n)), rest,
        res)
    decreases Ternary(b, y, n), 0, 0
  {
    var in3 := Spell(n, rest);
    var in2 := Spell(y, [COLON] + in3);
    var k2 := Push(Over(k, b), 8, NoValue);
    var k4 := Push(Over(k2, y), 23, NoValue);
    SpellOk(n, rest); SpellOk(y, [COLON] + in3);
    ReadOperand(k2, y, [COLON] + in3, res);
    OverLinked(k2, y);
    ShiftLeads(Over(k2, y), COLON, in3, 23, res);
    ReadNo(k, b, y, n, rest, res);
    Chain(Over(k2, y), [COLON] + in3, k4, in3, Over(k, Ternary(b, y, n)), rest, res);
    Chain(k2, in2, Over(k2, y), [COLON] + in3, Over(k, Ternary(b, y, n)), rest, res);
  }

  /** The last operand of a conditional. */
  lemma {:induction false} ReadNo(k: Stack, b: Syntax, y: Syntax, n: Syntax, rest: seq<Token>, res: Value)
    requires Expects(k.Top()) && !(3 <= Symbol(rest) <= 9) && Derives(n, 0) && TokensOk(rest)
    requires Linked(k) && Linked(Push(Over(Push(Over(k, b), 8, NoValue), y), 23, NoValue))
    ensures Leads(Push(Over(Push(Over(k, b), 8, NoValue), y), 23, NoValue), Spell(n, rest), Over(k, Ternary(b, y, n)),
                  rest, res)
    decreases Ternary(b, y, n), 0, 0, 0
  {
    var k4 := Push(Over(Push(Over(k, b), 8, NoValue), y), 23, NoValue);
    ReadOperand(k4, n, rest, res);
    OverLinked(k4, n);
    ReduceLeads(Over(k4, n), 2, rest, Over(k, Ternary(b, y, n)), res);
    Chain(k4, Spell(n, rest), Over(k4, n), rest, Over(k, Ternary(b, y, n)), rest, res);
  }

  /** Every derivation is accepted, and its tree returned. */
  lemma DriverIsComplete(c: Syntax)
    requires Derives(c, 0)
    ensures TokensOk(Yield(c)) && Parse(Yield(c)) == ExpValue(Tree(c))
  {
    YieldOk(c);
    SpellIsYield(c, []);
    assert Spell(c, []) == Yield(c);
    ReadOperand(Bottom, c, [], NoValue);
    RunsTo(c, Yield(c));
  }

  lemma RunsTo(c: Syntax, input: seq<Token>)
    requires TokensOk(input) && Leads(Bottom, input, Over(Bottom, c), [], NoValue)
    ensures Parse(input) == ExpValue(Tree(c))
  {
    var d0, d1 := Init(input), Config(Over(Bottom, c), [], NoValue);
    var m :| Steps(d0, m) == Next(d1);
    RunSteps(d0, m);
    assert Valid(d1) && Run(d0) == Run(d1);
    AcceptsOperand(c, d1);
  }

  lemma AcceptsOperand(c: Syntax, d1: Config)
    requires Valid(d1) && d1 == Config(Over(Bottom, c), [], NoValue)
    ensures Run(d1) == ExpValue(Tree(c))
  {
    RunUnfolds(d1, Reduce(1));
    var d2 := ReduceBy(d1, 1);
    assert d2.stack.Top() == 25 && d2.input == [] && d2.res == ExpValue(Tree(c));
    RunUnfolds(d2, Shift(26));
    RunUnfolds(ShiftTo(d2, 26), Accept);
  }
}
