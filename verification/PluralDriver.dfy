/** The shift/reduce driver: one step of the parser on an explicit configuration, and the whole run.
    The stack is unbounded. */
module PluralDriver {
  import opened PluralGrammar
  import opened PluralTables

  /** The state stack and the value stack, which grow and shrink together.  The bottom entry is
      state 0, whose value is never used. */
  datatype Stack = Bottom | Push(below: Stack, state: nat, val: Value)
  {
    function Top(): nat { if Bottom? then 0 else state }

    function Height(): nat { if Bottom? then 0 else below.Height() + 1 }

    /** The stack without its `k` topmost entries. */
    function Drop(k: nat): Stack
    {
      if k == 0 || Bottom? then this else below.Drop(k - 1)
    }
  }

  /** The stack, the tokens not yet shifted, and the result slot that rule 1 fills. */
  datatype Config = Config(stack: Stack, input: seq<Token>, res: Value)

  datatype Outcome = Next(config: Config) | Accepted(exp: Expr) | Rejected

  function Lookahead(input: seq<Token>): Token
  {
    if input == [] then EOF else input[0]
  }

  function Symbol(input: seq<Token>): (t: nat)
    ensures t <= 15
  {
    YyTranslate(Lookahead(input).code)
  }

  // ----- the stack invariant -----

  predicate IsOperandState(s: nat) { 5 <= s <= 7 || 16 <= s <= 22 || s == 24 }

  /** `t` may stand directly above `s` on the stack. */
  predicate Edge(s: nat, t: nat)
  {
    if 1 <= t <= 4 then Expects(s)
    else if IsOperandState(t) then Expects(s) && t == OperandState(s)
    else if 8 <= t <= 14 then IsOperandState(s) && Automaton(s, t - 5) == Shift(t)
    else if t == 15 then s == 7
    else if t == 23 then s == 16
    else if t == 25 then s == 0
    else t == 26 && s == 25
  }

  /** The value that accompanies state `s`. */
  predicate Fits(s: nat, v: Value)
  {
    if IsOperandState(s) then v.ExpValue?
    else if s == 2 then v.NumValue?
    else if 11 <= s <= 14 then v.OpValue? && Level(v.op) == s - 8
    else true
  }

  predicate Linked(stk: Stack)
  {
    stk.Bottom? || (Edge(stk.below.Top(), stk.state) && Fits(stk.state, stk.val) && Linked(stk.below))
  }

  predicate Valid(c: Config)
  {
    Linked(c.stack) && TokensOk(c.input) && (c.stack.Top() in {25, 26} ==> c.res.ExpValue?)
  }

  function Init(input: seq<Token>): Config
  {
    Config(Bottom, input, NoValue)
  }

  // ----- one step -----

  function ShiftTo(c: Config, s: nat): Config
  {
    Config(Push(c.stack, s, Lookahead(c.input).val), if c.input == [] then [] else c.input[1..], c.res)
  }

  /** A right-hand side of `rule`, with the values its action reads, lies on top of the stack above a
      state that expects an operand. */
  predicate CanReduce(k: Stack, rule: nat)
  {
    k.Push?
    && match rule
       case 1 => k.val.ExpValue? && k.below == Bottom
       case 10 => Expects(k.below.Top())
       case 11 => k.val.NumValue? && Expects(k.below.Top())
       case 9 => k.val.ExpValue? && k.below.Push? && Expects(k.below.below.Top())
       case _ => k.below.Push? && k.below.below.Push?
                 && match rule
                    case 12 => k.below.val.ExpValue? && Expects(k.below.below.below.Top())
                    case 2 =>
                      k.val.ExpValue? && k.below.below.val.ExpValue?
                      && k.below.below.below.Push? && k.below.below.below.below.Push?
                      && k.below.below.below.below.val.ExpValue?
                      && Expects(k.below.below.below.below.below.Top())
                    case _ =>
                      3 <= rule <= 8 && k.val.ExpValue? && k.below.below.val.ExpValue?
                      && (rule >= 5 ==> k.below.val.OpValue?) && Expects(k.below.below.below.Top())
  }

  /** The tree that the action of `rule` builds from the top of the value stack. */
  function SemanticAction(k: Stack, rule: nat): Expr
    requires CanReduce(k, rule)
  {
    match rule
    case 1 => k.val.exp
    case 2 => Cond(k.below.below.below.below.val.exp, k.below.below.val.exp, k.val.exp)
    case 3 => Bin(LOr, k.below.below.val.exp, k.val.exp)
    case 4 => Bin(LAnd, k.below.below.val.exp, k.val.exp)
    case 9 => Not(k.val.exp)
    case 10 => Var
    case 11 => Num(k.val.num)
    case 12 => k.below.val.exp
    case _ => Bin(k.below.val.op, k.below.below.val.exp, k.val.exp)
  }

  /** The stack entries below the right-hand side of `rule`. */
  function Base(k: Stack, rule: nat): (b: Stack)
    requires CanReduce(k, rule)
    ensures Expects(b.Top())
  {
    match YyR2(rule)
    case 1 => k.below
    case 2 => k.below.below
    case 3 => k.below.below.below
    case _ => k.below.below.below.below.below
  }

  function ReduceBy(c: Config, rule: nat): Config
    requires CanReduce(c.stack, rule)
  {
    var b := Base(c.stack, rule);
    var e := ExpValue(SemanticAction(c.stack, rule));
    Config(Push(b, if rule == 1 then 25 else OperandState(b.Top()), e), c.input, if rule == 1 then e else c.res)
  }

  lemma ValidShift(c: Config, s: nat)
    requires Valid(c) && Automaton(c.stack.Top(), Symbol(c.input)) == Shift(s)
    ensures Valid(ShiftTo(c, s))
    ensures c.stack.Top() != 25 ==> c.input != []
  {
    if c.input != [] { assert TokenOk(c.input[0]); }
    assert Edge(c.stack.Top(), s) && Fits(s, Lookahead(c.input).val);
  }

  /** A right-hand side lies on the stack whenever the automaton reduces. */
  lemma HandleOnTop(k: Stack, t: nat)
    requires Linked(k) && Automaton(k.Top(), t).Reduce?
    ensures CanReduce(k, Automaton(k.Top(), t).rule)
    ensures Linked(Base(k, Automaton(k.Top(), t).rule))
  {
    if k.state == 24 {
      TernaryOnTop(k);
    } else if 17 <= k.state <= 22 || k.state == 15 {
      assert Edge(k.below.below.Top(), k.below.state) && Linked(k.below.below);
      assert Edge(k.below.below.below.Top(), k.below.below.state) && Linked(k.below.below.below);
    } else if k.state == 6 {
      assert Linked(k.below.below);
    }
  }

  lemma TernaryOnTop(k: Stack)
    requires Linked(k) && k.Top() == 24
    ensures CanReduce(k, 2) && Linked(Base(k, 2))
  {
    var k3 := k.below.below;
    assert k.below.state == 23 && Linked(k3) && Edge(k3.Top(), 23);
    assert k3.state == 16 && k3.below.state == 8 && Linked(k3.below);
    assert Edge(k3.below.below.Top(), 8) && Linked(k3.below.below);
  }

  /** What one trip around the parser loop does. */
  function Step(c: Config): (o: Outcome)
    requires Valid(c)
  {
    match Automaton(c.stack.Top(), Symbol(c.input))
    case Shift(s) => Next(ShiftTo(c, s))
    case Reduce(rule) => HandleOnTop(c.stack, Symbol(c.input)); Next(ReduceBy(c, rule))
    case Accept => Accepted(c.res.exp)
    case Error => Rejected
  }

  /** A step keeps the stack invariant and comes closer to the end of the run. */
  lemma StepProgress(c: Config)
    requires Valid(c)
    ensures Step(c).Next? ==> Valid(Step(c).config) && Measure(Step(c).config) < Measure(c)
  {
    match Automaton(c.stack.Top(), Symbol(c.input))
    case Shift(s) => ValidShift(c, s);
    case Reduce(rule) => HandleOnTop(c.stack, Symbol(c.input)); ReduceSmaller(c, rule);
    case _ =>
  }

  /** The whole parse from configuration `c`; it ends on every input. */
  function Run(c: Config): (r: Value)
    requires Valid(c)
    ensures r == NoValue || r.ExpValue?
    decreases Measure(c)
  {
    StepProgress(c);
    match Step(c)
    case Next(d) => Run(d)
    case Accepted(e) => ExpValue(e)
    case Rejected => NoValue
  }

  /** The run as it unfolds, action by action. */
  lemma RunUnfolds(c: Config, action: Action)
    requires Valid(c) && action == Automaton(c.stack.Top(), Symbol(c.input))
    ensures action.Error? ==> Run(c) == NoValue
    ensures action.Accept? ==> Run(c) == c.res && c.stack.Top() == 26
    ensures action.Shift? ==> var d := ShiftTo(c, action.state); Valid(d) && Run(c) == Run(d) && Measure(d) < Measure(c)
    ensures action.Reduce? ==> CanReduce(c.stack, action.rule) && Valid(ReduceBy(c, action.rule))
    ensures action.Reduce? ==>
              var d := ReduceBy(c, action.rule);
              Run(c) == Run(d) && Measure(d) < Measure(c) && (action.rule != 1 ==> d.stack.Top() !in {25, 26})
  {
    StepProgress(c);
    if action.Reduce? { HandleOnTop(c.stack, Symbol(c.input)); }
  }

  function Parse(input: seq<Token>): Value
    requires TokensOk(input)
  {
    Run(Init(input))
  }

  // ----- every run ends -----

  function Weight(s: nat): nat
  {
    if s == 2 || s == 3 then 3 else if IsOperandState(s) then 2 else 1
  }

  function StackWeight(k: Stack): nat
  {
    if k.Bottom? then 0 else StackWeight(k.below) + Weight(k.state)
  }

  function Measure(c: Config): nat
  {
    4 * |c.input| + StackWeight(c.stack) + if c.stack.Top() == 26 then 0 else 5
  }

  lemma ReduceSmaller(c: Config, rule: nat)
    requires Automaton(c.stack.Top(), Symbol(c.input)) == Reduce(rule) && CanReduce(c.stack, rule)
    ensures Measure(ReduceBy(c, rule)) < Measure(c)
  {
    var k := c.stack;
    var d := ReduceBy(c, rule);
    assert StackWeight(d.stack) == StackWeight(Base(k, rule)) + Weight(d.stack.state);
    match YyR2(rule)
    case 1 =>
    case 2 => assert StackWeight(k) == StackWeight(k.below.below) + Weight(k.state) + Weight(k.below.state);
    case 3 => assert StackWeight(k.below) >= StackWeight(k.below.below.below) + 2;
    case _ =>
      assert StackWeight(k.below) >= StackWeight(k.below.below.below) + 2;
      assert StackWeight(k.below.below.below) >= StackWeight(Base(k, rule)) + 2;
  }
}
