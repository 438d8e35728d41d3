/** The driver is sound on every token list: what it accepts is derived by the grammar.  Each stack
    entry stands for a stretch of the input, and the stretches join up to what has been read. */
module PluralSound {
  import opened PluralGrammar
  import opened PluralTables
  import opened PluralDriver
  import opened PluralCorrect

  /** What the stack entries stand for: a token, or a finished derivation. */
  datatype Forest = Ground | Leaf(below: Forest, tok: Token) | Node(below: Forest, tree: Syntax)

  function Consumed(f: Forest): seq<Token>
  {
    match f
    case Ground => []
    case Leaf(b, tok) => Consumed(b) + [tok]
    case Node(b, t) => Consumed(b) + Yield(t)
  }

  /** The token number that leads into state `s`. */
  function TerminalOf(s: nat): nat
  {
    match s
    case 1 => 10 case 2 => 11 case 3 => 13 case 4 => 14 case 15 => 15 case 23 => 12
    case _ => if 8 <= s <= 14 then s - 5 else 0
  }

  /** The topmost entries of `k` and `f` correspond.  Operands fit the context to their left; a left
      operand also fits the operator that follows it. */
  predicate Matches(k: Stack, f: Forest)
    requires k.Push?
  {
    if IsOperandState(k.state) then
      f.Node? && Expects(k.below.Top()) && Derives(f.tree, LevelAbove(k.below.Top()))
      && k.val == ExpValue(Tree(f.tree))
    else if k.state == 25 then
      f.Node? && k.below == Bottom && Derives(f.tree, 0) && k.val == ExpValue(Tree(f.tree))
    else
      f.Leaf? && TokenOk(f.tok) && YyTranslate(f.tok.code) == TerminalOf(k.state) && f.tok.val == k.val
      && (8 <= k.state <= 14 ==> f.below.Node? && Closes(f.below.tree, k.state - 5))
  }

  predicate Explains(k: Stack, f: Forest)
  {
    if k.Bottom? then f == Ground
    else k.state != 26 && Matches(k, f) && Explains(k.below, f.below)
  }

  /** An operand on top is closed by the lookahead whenever the automaton passed it over. */
  predicate Settled(k: Stack, f: Forest, t: nat)
  {
    IsOperandState(k.Top()) && f.Node? ==> Closes(f.tree, t)
  }

  lemma SoundShift(k: Stack, f: Forest, tok: Token, s: nat)
    requires Linked(k) && Explains(k, f) && Settled(k, f, YyTranslate(tok.code)) && TokenOk(tok)
    requires Automaton(k.Top(), YyTranslate(tok.code)) == Shift(s) && s != 26
    ensures Explains(Push(k, s, tok.val), Leaf(f, tok))
  {
  }

  /** `f1` matches the stack that reducing by `rule` leaves, and stands for the same tokens. */
  predicate Regrown(k: Stack, f: Forest, rule: nat, t: nat, f1: Forest)
    requires CanReduce(k, rule)
  {
    var k1 := ReduceBy(Config(k, [], NoValue), rule).stack;
    Explains(k1, f1) && Settled(k1, f1, t) && Consumed(f1) == Consumed(f)
  }

  predicate Reducing(k: Stack, f: Forest, rule: nat, t: nat)
  {
    Linked(k) && Explains(k, f) && Automaton(k.Top(), t) == Reduce(rule) && CanReduce(k, rule)
  }

  lemma SoundTerminal(k: Stack, f: Forest, rule: nat, t: nat) returns (f1: Forest)
    requires Reducing(k, f, rule, t) && rule in {10, 11}
    ensures Regrown(k, f, rule, t, f1)
  {
    f1 := Node(f.below, if rule == 10 then Name else Literal(k.val.num));
  }

  lemma SoundStart(k: Stack, f: Forest, t: nat) returns (f1: Forest)
    requires Reducing(k, f, 1, t)
    ensures Regrown(k, f, 1, t, f1)
  {
    f1 := f;
  }

  lemma SoundBang(k: Stack, f: Forest, t: nat) returns (f1: Forest)
    requires Reducing(k, f, 9, t)
    ensures Regrown(k, f, 9, t, f1)
  {
    assert Linked(k.below) && Explains(k.below, f.below) && Explains(k.below.below, f.below.below);
    f1 := Node(f.below.below, Bang(f.tree));
    assert f.below.tok == BANG;
  }

  lemma SoundParen(k: Stack, f: Forest, t: nat) returns (f1: Forest)
    requires Reducing(k, f, 12, t)
    ensures Regrown(k, f, 12, t, f1)
  {
    var k1, g1 := k.below, f.below;
    assert Linked(k1) && Explains(k1, g1);
    var k2, g2 := k1.below, g1.below;
    assert Linked(k2) && Explains(k2, g2) && k2.state == 4;
    f1 := Node(g2.below, Paren(g1.tree));
    assert f.tok == CLOSE && g2.tok == OPEN;
    JoinParen(g2.below, g1.tree);
  }

  lemma SoundInfix(k: Stack, f: Forest, rule: nat, t: nat) returns (f1: Forest)
    requires Reducing(k, f, rule, t) && 3 <= rule <= 8
    ensures Regrown(k, f, rule, t, f1)
  {
    var op := InfixOperator(k, f, rule, t);
    LeftOperand(k, f, rule, t, op);
    var g2 := f.below.below;
    f1 := Node(g2.below, Infix(op, g2.tree, f.tree));
    JoinInfix(g2.below, g2.tree, op, f.tree);
    InfixCloses(f1.tree, k.Top(), rule, t);
    RegrownInfix(k, f, rule, t, op, f1);
  }

  /** The operator and the right operand of the handle. */
  lemma InfixOperator(k: Stack, f: Forest, rule: nat, t: nat) returns (op: BinOp)
    requires Reducing(k, f, rule, t) && 3 <= rule <= 8
    ensures f.Node? && k.val == ExpValue(Tree(f.tree)) && Derives(f.tree, Level(op) + 1) && Level(op) == rule - 2
    ensures k.below.state == rule + 6 && k.Top() == rule + 14
    ensures f.below.Leaf? && f.below.tok == OpToken(op) && Matches(k.below, f.below)
    ensures (rule >= 5 ==> k.below.val.op == op) && (rule == 3 ==> op == LOr) && (rule == 4 ==> op == LAnd)
  {
    var k1, g1 := k.below, f.below;
    assert Linked(k1) && Explains(k1, g1) && k1.state == k.state - 8 == rule + 6;
    op := if rule == 3 then LOr else if rule == 4 then LAnd else k1.val.op;
    assert Fits(k1.state, k1.val) && Level(op) == rule - 2;
    TokenOfOperator(g1.tok, op);
  }

  /** The left operand of the handle: it fits its context and the operator. */
  lemma LeftOperand(k: Stack, f: Forest, rule: nat, t: nat, op: BinOp)
    requires Reducing(k, f, rule, t) && 3 <= rule <= 8 && Level(op) == rule - 2
    requires k.below.state == rule + 6 && f.Node? && f.below.Leaf? && Matches(k.below, f.below)
    ensures var k2, g2 := k.below.below, f.below.below;
            && g2.Node? && Explains(k2.below, g2.below) && k2.val == ExpValue(Tree(g2.tree))
            && Derives(g2.tree, Level(op)) && LevelAbove(k2.below.Top()) <= Level(op)
  {
    var k2, g2 := k.below.below, f.below.below;
    assert Linked(k.below) && Explains(k.below, f.below);
    assert Linked(k2) && Explains(k2, g2) && IsOperandState(k2.state);
    OperatorFollows(k2.below.Top(), Level(op) + 3);
  }

  lemma InfixCloses(c: Syntax, s: nat, rule: nat, t: nat)
    requires 3 <= rule <= 8 && s == rule + 14 && Automaton(s, t) == Reduce(rule)
    requires c.Infix? && Level(c.op) == rule - 2 && Derives(c.left, Level(c.op)) && Derives(c.right, Level(c.op) + 1)
    ensures Closes(c, t)
  {
  }

  /** The infix derivation fits where its left operand was. */
  lemma RegrownInfix(k: Stack, f: Forest, rule: nat, t: nat, op: BinOp, f1: Forest)
    requires CanReduce(k, rule) && 3 <= rule <= 8 && Level(op) == rule - 2 && f.Node? && !f.below.Ground?
    requires f.below.below.Node?
    requires var k2, g2 := k.below.below, f.below.below;
             && f1 == Node(g2.below, Infix(op, g2.tree, f.tree)) && Explains(k2.below, g2.below)
             && Derives(g2.tree, Level(op)) && LevelAbove(k2.below.Top()) <= Level(op)
             && k.val == ExpValue(Tree(f.tree)) && k2.val == ExpValue(Tree(g2.tree))
             && (rule >= 5 ==> k.below.val.op == op) && (rule == 3 ==> op == LOr) && (rule == 4 ==> op == LAnd)
    requires Derives(f.tree, Level(op) + 1) && Closes(f1.tree, t) && Consumed(f1) == Consumed(f)
    ensures Regrown(k, f, rule, t, f1)
  {
  }

  lemma TokenOfOperator(tok: Token, op: BinOp)
    requires TokenOk(tok) && YyTranslate(tok.code) == Level(op) + 3 && (Level(op) >= 3 ==> tok.val == OpValue(op))
    ensures tok == OpToken(op)
  {
  }

  /** An operator is shifted over an operand only if it binds as tightly as the context asks. */
  lemma OperatorFollows(s: nat, t: nat)
    requires Expects(s) && Automaton(OperandState(s), t).Shift? && 3 <= t <= 9
    ensures LevelAbove(s) <= t - 3
  {
  }

  lemma SoundTernary(k: Stack, f: Forest, t: nat) returns (f1: Forest)
    requires Reducing(k, f, 2, t)
    ensures Regrown(k, f, 2, t, f1)
  {
    var k1, g1 := k.below, f.below;
    assert Linked(k1) && Explains(k1, g1) && k1.state == 23;
    var k2, g2 := k1.below, g1.below;
    assert Linked(k2) && Explains(k2, g2) && k2.state == 16;
    var k3, g3 := k2.below, g2.below;
    assert Linked(k3) && Explains(k3, g3) && k3.state == 8;
    f1 := SoundCondition(k, f, t, g3);
  }

  lemma SoundCondition(k: Stack, f: Forest, t: nat, g3: Forest) returns (f1: Forest)
    requires Reducing(k, f, 2, t) && Derives(f.tree, 0)
    requires var k1 := k.below; var k3 := k1.below.below;
             k1.state == 23 && k1.below.state == 16 && k3.state == 8 && Linked(k3) && Explains(k3, g3)
             && Matches(k1, f.below) && Matches(k1.below, f.below.below) && g3 == f.below.below.below
    ensures Regrown(k, f, 2, t, f1)
  {
    var k4, g4 := k.below.below.below.below, g3.below;
    var g2 := f.below.below;
    assert Linked(k4) && Explains(k4, g4) && Explains(k4.below, g4.below);
    OperatorFollows(k4.below.Top(), 3);
    assert f.below.tok == COLON && g3.tok == QUESTION;
    f1 := Node(g4.below, Ternary(g4.tree, g2.tree, f.tree));
    JoinTernary(g4.below, g4.tree, g2.tree, f.tree);
  }

  lemma JoinParen(b: Forest, x: Syntax)
    ensures Consumed(Leaf(Node(Leaf(b, OPEN), x), CLOSE)) == Consumed(Node(b, Paren(x)))
  {
    ConsumedPair(Leaf(b, OPEN), x, CLOSE);
    AssociateThree(Consumed(b), [OPEN], Yield(x), [CLOSE]);
  }

  lemma AssociateThree(s: seq<Token>, a: seq<Token>, b: seq<Token>, c: seq<Token>)
    ensures s + a + b + c == s + (a + b + c)
  {
  }

  lemma JoinInfix(b: Forest, l: Syntax, op: BinOp, r: Syntax)
    ensures Consumed(Node(Leaf(Node(b, l), OpToken(op)), r)) == Consumed(Node(b, Infix(op, l, r)))
  {
    ConsumedPair(b, l, OpToken(op));
    AssociateThree(Consumed(b), Yield(l), [OpToken(op)], Yield(r));
  }

  lemma JoinTernary(b: Forest, c: Syntax, y: Syntax, n: Syntax)
    ensures Consumed(Node(Leaf(Node(Leaf(Node(b, c), QUESTION), y), COLON), n)) == Consumed(Node(b, Ternary(c, y, n)))
  {
    ConsumedTernary(b, c, y, n);
    Associate(Consumed(b), Yield(c), QUESTION, Yield(y), COLON, Yield(n));
  }

  lemma ConsumedTernary(b: Forest, c: Syntax, y: Syntax, n: Syntax)
    ensures Consumed(Node(Leaf(Node(Leaf(Node(b, c), QUESTION), y), COLON), n)) ==
            Consumed(b) + Yield(c) + [QUESTION] + Yield(y) + [COLON] + Yield(n)
  {
    var f2 := Leaf(Node(b, c), QUESTION);
    ConsumedPair(b, c, QUESTION);
    ConsumedTwo(f2, y, COLON, n, Consumed(b) + Yield(c) + [QUESTION]);
  }

  lemma ConsumedTwo(f: Forest, x: Syntax, t: Token, y: Syntax, s: seq<Token>)
    requires Consumed(f) == s
    ensures Consumed(Node(Leaf(Node(f, x), t), y)) == s + Yield(x) + [t] + Yield(y)
  {
    ConsumedPair(f, x, t);
  }

  lemma ConsumedPair(b: Forest, x: Syntax, t: Token)
    ensures Consumed(Leaf(Node(b, x), t)) == Consumed(b) + Yield(x) + [t]
  {
    assert Consumed(Node(b, x)) == Consumed(b) + Yield(x);
  }

  lemma Associate(s: seq<Token>, c: seq<Token>, q: Token, y: seq<Token>, l: Token, n: seq<Token>)
    ensures s + c + [q] + y + [l] + n == s + (c + [q] + y + [l] + n)
  {
  }

  lemma SoundReduce(k: Stack, f: Forest, rule: nat, t: nat) returns (f1: Forest)
    requires Reducing(k, f, rule, t)
    ensures Regrown(k, f, rule, t, f1)
  {
    if rule in {10, 11} { f1 := SoundTerminal(k, f, rule, t); }
    else if rule == 9 { f1 := SoundBang(k, f, t); }
    else if rule == 12 { f1 := SoundParen(k, f, t); }
    else if rule == 2 { f1 := SoundTernary(k, f, t); }
    else if rule == 1 { f1 := SoundStart(k, f, t); }
    else { f1 := SoundInfix(k, f, rule, t); }
  }

  /** From any configuration that a forest explains, an accepting run returns the tree of a
      derivation of everything consumed and still to come. */
  lemma {:induction false} SoundRun(c: Config, f: Forest) returns (d: Syntax)
    requires Valid(c) && Explains(c.stack, f) && Settled(c.stack, f, Symbol(c.input))
    requires c.stack.Top() == 25 ==> c.res == c.stack.val
    requires Run(c).ExpValue?
    ensures Derives(d, 0) && Tree(d) == Run(c).exp && Yield(d) == Consumed(f) + c.input
    decreases Measure(c)
  {
    var t := Symbol(c.input);
    var action := Automaton(c.stack.Top(), t);
    RunUnfolds(c, action);
    match action
    case Shift(s) =>
      if s == 26 {
        d := f.tree;
        SoundEnd(c, f);
      } else {
        ShiftKeeps(c, f, s);
        d := SoundRun(ShiftTo(c, s), Leaf(f, c.input[0]));
      }
    case Reduce(rule) =>
      var f1 := SoundReduce(c.stack, f, rule, t);
      d := SoundRun(ReduceBy(c, rule), f1);
  }

  lemma ShiftKeeps(c: Config, f: Forest, s: nat)
    requires Valid(c) && Explains(c.stack, f) && Settled(c.stack, f, Symbol(c.input)) && c.stack.Top() != 25
    requires Automaton(c.stack.Top(), Symbol(c.input)) == Shift(s) && s != 26
    ensures c.input != [] && ShiftTo(c, s).stack.Top() != 25
    ensures var g := Leaf(f, c.input[0]); var k := ShiftTo(c, s).stack;
            Explains(k, g) && Settled(k, g, Symbol(c.input[1..])) && Consumed(g) + c.input[1..] == Consumed(f) + c.input
  {
    ValidShift(c, s);
    SoundShift(c.stack, f, c.input[0], s);
    assert c.input == [c.input[0]] + c.input[1..];
  }

  lemma SoundEnd(c: Config, f: Forest)
    requires Valid(c) && Explains(c.stack, f) && c.stack.Top() == 25 && c.res == c.stack.val
    requires Run(c).ExpValue? && Symbol(c.input) == 0
    ensures f.Node? && Derives(f.tree, 0) && Tree(f.tree) == Run(c).exp && Yield(f.tree) == Consumed(f) + c.input
  {
    assert c.input != [] ==> TokenOk(c.input[0]);
    assert f.below == Ground;
    RunUnfolds(c, Shift(26));
    RunUnfolds(ShiftTo(c, 26), Accept);
    assert Consumed(f) == Yield(f.tree);
  }

  lemma DriverIsSound(input: seq<Token>) returns (d: Syntax)
    requires TokensOk(input) && Parse(input).ExpValue?
    ensures Derives(d, 0) && Tree(d) == Parse(input).exp && Yield(d) == input
  {
    d := SoundRun(Init(input), Ground);
  }

  /** The driver decides the grammar: it returns `e` exactly for the token lists that some C derivation
      with tree `e` spells. */
  lemma DriverIsExact(input: seq<Token>, e: Expr)
    requires TokensOk(input)
    ensures Parse(input) == ExpValue(e) <==> exists d :: Derives(d, 0) && Yield(d) == input && Tree(d) == e
  {
    if Parse(input) == ExpValue(e) {
      var d := DriverIsSound(input);
    }
    if d :| Derives(d, 0) && Yield(d) == input && Tree(d) == e {
      DriverIsComplete(d);
    }
  }

  /** Precedence leaves no ambiguity: derivations that spell the same tokens have the same tree. */
  lemma GrammarIsUnambiguous(c: Syntax, d: Syntax)
    requires Derives(c, 0) && Derives(d, 0) && Yield(c) == Yield(d)
    ensures Tree(c) == Tree(d)
  {
    DriverIsComplete(c);
    DriverIsComplete(d);
  }
}
