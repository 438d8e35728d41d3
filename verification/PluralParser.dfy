/** The parser as it runs: the lexer moves a cursor through the text, and the driver pushes and pops
    its two stacks by table lookup. */
module PluralParser {
  import opened Numerals
  import opened PluralGrammar
  import opened PluralTables
  import opened PluralDriver
  import opened PluralLexer

  /** The two stacks as one value; entry 0 is the bottom. */
  function Joined(states: seq<nat>, values: seq<Value>): Stack
    requires |states| == |values| > 0
  {
    var n := |states| - 1;
    if n == 0 then Bottom else Push(Joined(states[..n], values[..n]), states[n], values[n])
  }

  lemma {:induction false} JoinedDrop(states: seq<nat>, values: seq<Value>, k: nat)
    requires |states| == |values| > k
    ensures var m := |states| - k;
            Joined(states, values).Drop(k) == Joined(states[..m], values[..m])
            && (m > 1 ==> Joined(states, values).Drop(k).Push?
                          && Joined(states, values).Drop(k).state == states[m - 1]
                          && Joined(states, values).Drop(k).val == values[m - 1])
  {
    var n := |states|;
    assert states[..n] == states && values[..n] == values;
    if k > 0 {
      JoinedDrop(states[..n - 1], values[..n - 1], k - 1);
      assert states[..n - 1][..n - k] == states[..n - k] && values[..n - 1][..n - k] == values[..n - k];
    }
  }

  lemma JoinedPush(states: seq<nat>, values: seq<Value>, s: nat, v: Value)
    requires |states| == |values| > 0
    ensures Joined(states + [s], values + [v]) == Push(Joined(states, values), s, v)
  {
    var n := |states|;
    assert (states + [s])[..n] == states && (values + [v])[..n] == values;
  }

  /** The state has an entry for the error token. */
  predicate HandlesError(s: nat)
    requires s <= 26
  {
    var n := YyPact(s);
    n != YYFLAG && 0 <= n + 1 <= YYLAST && YyCheck(n + 1) == 1 && YyTable(n + 1) != 0
  }

  lemma NoStateHandlesError(s: nat)
    requires s <= 26
    ensures !HandlesError(s)
  {
  }

  lemma {:induction false} DropStep(k: Stack, n: nat)
    requires n < k.Height()
    ensures k.Drop(n).Push? && k.Drop(n + 1) == k.Drop(n).below
  {
    if n > 0 { DropStep(k.below, n - 1); }
  }

  /** Entry `i` from the top, by position in the two stacks. */
  lemma EntryByPosition(states: seq<nat>, values: seq<Value>, i: nat)
    requires |states| == |values| > i + 1
    ensures var k := Joined(states, values); var m := |states| - 1 - i;
            k.Drop(i).Push? && k.Drop(i).val == values[m] && k.Drop(i + 1) == k.Drop(i).below
            && k.Drop(i + 1) == Joined(states[..m], values[..m])
  {
    Heights(states, values);
    JoinedDrop(states, values, i);
    JoinedDrop(states, values, i + 1);
    DropStep(Joined(states, values), i);
  }

  /** The values that the action of `rule` reads are there, with the union members it expects. */
  predicate Readable(v: seq<Value>, rule: nat)
  {
    var n := |v|;
    match rule
    case 1 => n > 1 && v[n - 1].ExpValue?
    case 2 => n > 5 && v[n - 5].ExpValue? && v[n - 3].ExpValue? && v[n - 1].ExpValue?
    case 9 => n > 2 && v[n - 1].ExpValue?
    case 10 => n > 1
    case 11 => n > 1 && v[n - 1].NumValue?
    case 12 => n > 3 && v[n - 2].ExpValue?
    case _ =>
      3 <= rule <= 8 && n > 3 && v[n - 3].ExpValue? && v[n - 1].ExpValue? && (rule >= 5 ==> v[n - 2].OpValue?)
  }

  /** The action of `rule` on the value stack, by position. */
  function ActionAt(v: seq<Value>, rule: nat): Expr
    requires Readable(v, rule)
  {
    var n := |v|;
    match rule
    case 1 => v[n - 1].exp
    case 2 => Cond(v[n - 5].exp, v[n - 3].exp, v[n - 1].exp)
    case 3 => Bin(LOr, v[n - 3].exp, v[n - 1].exp)
    case 4 => Bin(LAnd, v[n - 3].exp, v[n - 1].exp)
    case 9 => Not(v[n - 1].exp)
    case 10 => Var
    case 11 => Num(v[n - 1].num)
    case 12 => v[n - 2].exp
    case _ => Bin(v[n - 2].op, v[n - 3].exp, v[n - 1].exp)
  }

  /** Reducing by position is reducing on the joined stack. */
  lemma HandleByPosition(states: seq<nat>, values: seq<Value>, rule: nat)
    requires |states| == |values| > 0 && CanReduce(Joined(states, values), rule)
    ensures SamePlace(states, values, rule)
  {
    if rule in {1, 10, 11} {
      HandleOfOne(states, values, rule);
    } else if rule == 9 {
      HandleOfTwo(states, values);
    } else if rule == 2 {
      HandleOfFive(states, values);
    } else {
      HandleOfThree(states, values, rule);
    }
  }

  predicate SamePlace(states: seq<nat>, values: seq<Value>, rule: nat)
    requires |states| == |values| > 0 && CanReduce(Joined(states, values), rule)
  {
    var k, m := Joined(states, values), |states| - YyR2(rule);
    && Readable(values, rule) && m >= 1
    && Base(k, rule) == Joined(states[..m], values[..m]) && ActionAt(values, rule) == SemanticAction(k, rule)
  }

  lemma HandleOfOne(states: seq<nat>, values: seq<Value>, rule: nat)
    requires |states| == |values| > 0 && CanReduce(Joined(states, values), rule) && rule in {1, 10, 11}
    ensures SamePlace(states, values, rule)
  {
    Heights(states, values);
    assert Joined(states, values).Drop(0) == Joined(states, values);
    EntryByPosition(states, values, 0);
  }

  lemma HandleOfTwo(states: seq<nat>, values: seq<Value>)
    requires |states| == |values| > 0 && CanReduce(Joined(states, values), 9)
    ensures SamePlace(states, values, 9)
  {
    Heights(states, values);
    assert Joined(states, values).Drop(0) == Joined(states, values);
    EntryByPosition(states, values, 0);
    EntryByPosition(states, values, 1);
  }

  /** The three topmost entries, by position. */
  lemma ThreeEntries(states: seq<nat>, values: seq<Value>)
    requires |states| == |values| > 3
    ensures var k, n := Joined(states, values), |values|;
            && k.Push? && k.below.Push? && k.below.below.Push?
            && k.val == values[n - 1] && k.below.val == values[n - 2] && k.below.below.val == values[n - 3]
            && k.below.below.below == Joined(states[..n - 3], values[..n - 3])
            && k.Drop(3) == k.below.below.below
  {
    assert Joined(states, values).Drop(0) == Joined(states, values);
    EntryByPosition(states, values, 0);
    EntryByPosition(states, values, 1);
    EntryByPosition(states, values, 2);
  }

  lemma HandleOfThree(states: seq<nat>, values: seq<Value>, rule: nat)
    requires |states| == |values| > 0 && CanReduce(Joined(states, values), rule) && rule !in {1, 2, 9, 10, 11}
    ensures SamePlace(states, values, rule)
  {
    Heights(states, values);
    var k := Joined(states, values);
    assert k.Height() == k.below.Height() + 1 && k.below.Height() == k.below.below.Height() + 1;
    ThreeEntries(states, values);
  }

  lemma HandleOfFive(states: seq<nat>, values: seq<Value>)
    requires |states| == |values| > 0 && CanReduce(Joined(states, values), 2)
    ensures SamePlace(states, values, 2)
  {
    Heights(states, values);
    var k := Joined(states, values);
    assert k.Height() == k.below.Height() + 1 && k.below.Height() == k.below.below.Height() + 1;
    ThreeEntries(states, values);
    var k3 := k.below.below.below;
    assert k.below.below.Height() == k3.Height() + 1 && k3.Height() == k3.below.Height() + 1;
    FiveEntries(states, values);
  }

  lemma FiveEntries(states: seq<nat>, values: seq<Value>)
    requires |states| == |values| > 5
    ensures var k3, n := Joined(states[..|states| - 3], values[..|values| - 3]), |values|;
            && k3.Push? && k3.below.Push? && k3.below.val == values[n - 5]
            && k3.below.below == Joined(states[..n - 5], values[..n - 5])
  {
    var n := |values|;
    var s, v := states[..n - 3], values[..n - 3];
    assert Joined(s, v).Drop(0) == Joined(s, v);
    EntryByPosition(s, v, 0);
    EntryByPosition(s, v, 1);
    assert s[..n - 5] == states[..n - 5] && v[..n - 5] == values[..n - 5];
  }

  lemma Heights(states: seq<nat>, values: seq<Value>)
    requires |states| == |values| > 0
    ensures Joined(states, values).Height() == |states| - 1
  {
  }

  /** Error recovery: states are popped until one handles the error token.  None does. */
  method Recover(states: seq<nat>) returns (recovered: bool)
    requires |states| > 0 && forall i :: 0 <= i < |states| ==> states[i] <= 26
    ensures !recovered
  {
    var n := |states|;
    while n > 1 && !HandlesError(states[n - 1])
      invariant 0 < n <= |states|
    {
      n := n - 1;
    }
    NoStateHandlesError(states[n - 1]);
    return HandlesError(states[n - 1]);
  }

  lemma ShiftTargets(s: nat, t: nat)
    ensures var a := Automaton(s, t); a.Shift? ==> a.state <= 26 && a.state != 25 && (a.state == 26 ==> s == 25)
  {
  }

  predicate IsStack(states: seq<nat>, values: seq<Value>)
  {
    |states| == |values| > 0 && states[0] == 0 && forall i :: 0 <= i < |states| ==> states[i] <= 26
  }

  /** Pops a handle and pushes what it reduces to. */
  method Reduced(states: seq<nat>, values: seq<Value>, rule: nat)
    returns (states': seq<nat>, values': seq<Value>, exp: Expr)
    requires IsStack(states, values) && CanReduce(Joined(states, values), rule)
    ensures IsStack(states', values')
    ensures Joined(states', values') == ReduceBy(Config(Joined(states, values), [], NoValue), rule).stack
    ensures exp == SemanticAction(Joined(states, values), rule)
  {
    HandleByPosition(states, values, rule);
    exp := ActionAt(values, rule);
    var m := |states| - YyR2(rule);
    states', values' := states[..m], values[..m];
    TablesEncodeGoto(states'[m - 1], rule);
    var to := TableGoto(states'[m - 1], rule);
    JoinedPush(states', values', to, ExpValue(exp));
    states', values' := states' + [to], values' + [ExpValue(exp)];
  }

  /** Wrapping at every digit gives the wrapped numeral. */
  lemma WrapStep(d: nat, digit: nat)
    ensures (d % ULONG_MOD * 10 % ULONG_MOD + digit) % ULONG_MOD == (10 * d + digit) % ULONG_MOD
  {
    var q, r := d / ULONG_MOD, d % ULONG_MOD;
    assert 10 * d + digit == ULONG_MOD * (10 * q) + (10 * r + digit);
  }

  /** `struct parse_args`: the cursor into the text, and the parsed expression. */
  class ParseArgs {
    const text: string
    var cp: nat
    var res: Value

    constructor (text: string)
      ensures this.text == text && cp == 0 && res == NoValue
    {
      this.text := text;
      cp := 0;
      res := NoValue;
    }

    ghost predicate InText()
      reads this
    {
      cp <= |text|
    }

    function At(i: nat): char { if i < |text| then text[i] else '\0' }

    /** The value of the number that starts at `exp`, reduced as `unsigned long` arithmetic does. */
    method ReadNumber(exp: nat) returns (n: ULong, q: nat)
      requires exp < |text| && IsDigit(text[exp])
      ensures q == exp + DigitRun(text[exp..]) <= |text|
      ensures n == Decimal(text[exp..q]) % ULONG_MOD
    {
      n := text[exp] as int - '0' as int;
      q := exp + 1;
      assert text[exp..exp + 1] == [text[exp]] && [text[exp]][..0] == "";
      while IsDigit(At(q))
        invariant exp < q <= |text|
        invariant forall i :: exp <= i < q ==> IsDigit(text[i])
        invariant n == Decimal(text[exp..q]) % ULONG_MOD
        decreases |text| - q
      {
        assert text[exp..q + 1][..q - exp] == text[exp..q];
        WrapStep(Decimal(text[exp..q]), Digit(text[q]));
        n := n * 10 % ULONG_MOD;
        n := (n + (At(q) as int - '0' as int)) % ULONG_MOD;
        q := q + 1;
      }
      RunLength(text[exp..], q - exp);
    }

    /** Reads one token and moves the cursor past it. */
    method YyLex() returns (tok: Token)
      requires InText()
      modifies this`cp
      ensures InText()
      ensures NextToken(old(text[cp..])) == (tok, text[cp..])
    {
      hide NextToken, SymbolToken, DigitRun, Decimal, NumberToken;
      var exp := cp;
      while IsBlank(At(exp))
        invariant exp <= |text|
        invariant SkipBlanks(text[exp..]) == SkipBlanks(old(text[cp..]))
        decreases |text| - exp
      {
        assert text[exp..][1..] == text[exp + 1..];
        exp := exp + 1;
      }
      ghost var r := text[exp..];
      NextTokenBegins(old(text[cp..]), r);
      var c := At(exp);
      if c == '\0' || c == ';' || c == '\n' {
        cp := exp;
        return EOF;
      }
      if IsDigit(c) {
        var n, q := ReadNumber(exp);
        assert r[..q - exp] == text[exp..q] && r[q - exp..] == text[q..];
        cp := q;
        return NumberToken(n);
      }
      assert r[1..] == text[exp + 1..];
      var next := At(exp + 1);
      assert next == Head(r[1..]);
      var len;
      tok, len := ReadSymbol(c, next);
      assert r[len..] == text[exp + len..];
      cp := exp + len;
    }

    /** The operator or name that begins with `c`. */
    method ReadSymbol(c: char, next: char) returns (tok: Token, len: nat)
      requires c !in {'\0', ';', '\n'} && !IsDigit(c)
      ensures (tok, len) == SymbolToken(c, next)
    {
      tok, len := BAD, 1;
      if c == '=' {
        if next == '=' { tok, len := OpToken(Equal), 2; }
      } else if c == '!' {
        if next == '=' { tok, len := OpToken(NotEqual), 2; } else { tok := BANG; }
      } else if c == '&' || c == '|' {
        if next == c { tok, len := OpToken(if c == '&' then LAnd else LOr), 2; }
      } else if c == '<' || c == '>' {
        if next == '=' {
          tok, len := OpToken(if c == '<' then LessOrEqual else GreaterOrEqual), 2;
        } else {
          tok := OpToken(if c == '<' then LessThan else GreaterThan);
        }
      } else {
        tok := ReadSingle(c);
      }
    }

    method ReadSingle(c: char) returns (tok: Token)
      requires c !in {'\0', ';', '\n', '=', '!', '&', '|', '<', '>'}
      ensures forall next :: (tok, 1) == SymbolToken(c, next)
    {
      tok := if c == '*' then OpToken(Mult)
             else if c == '/' then OpToken(Divide)
             else if c == '%' then OpToken(Module)
             else if c == '+' then OpToken(Plus)
             else if c == '-' then OpToken(Minus)
             else if c == 'n' || c == '?' || c == ':' || c == '(' || c == ')' then Token(c as nat, NoValue)
             else BAD;
    }

    /** The action in state `s`, reading a lookahead token if the state needs one. */
    method Decide(s: nat, yychar: seq<Token>) returns (action: Action, yychar': seq<Token>)
      requires InText() && s <= 26 && |yychar| <= 1
      modifies this`cp
      ensures InText() && |yychar'| <= 1
      ensures Unread(yychar', text[cp..]) == Unread(yychar, old(text[cp..]))
      ensures action == Automaton(s, Symbol(Unread(yychar', text[cp..])))
      ensures action.Shift? ==> yychar' == [Lookahead(Unread(yychar', text[cp..]))]
    {
      yychar' := yychar;
      if YyPact(s) == YYFLAG {
        action := DefaultAction(s);
      } else {
        if yychar == [] {
          NextTokenAdvances(text[cp..]);
          var tok := YyLex();
          yychar' := [tok];
        }
        action := TableAction(s, YyTranslate(yychar'[0].code));
      }
      TablesEncodeAutomaton(s, Symbol(Unread(yychar', text[cp..])));
    }

    /** The parser's variables stand for the configuration `c`. */
    ghost predicate Mirrors(states: seq<nat>, values: seq<Value>, yychar: seq<Token>, c: Config)
      reads this
    {
      InText() && IsStack(states, values) && Joined(states, values) == c.stack && Valid(c)
      && |yychar| <= 1 && c.input == Unread(yychar, text[cp..])
      && (c.stack.Top() in {25, 26} ==> c.res == res)
    }

    method DoShift(states: seq<nat>, values: seq<Value>, yychar: seq<Token>, to: nat, ghost c: Config)
      returns (states': seq<nat>, values': seq<Value>, yychar': seq<Token>)
      requires Mirrors(states, values, yychar, c) && yychar == [Lookahead(c.input)]
      requires Automaton(c.stack.Top(), Symbol(c.input)) == Shift(to)
      ensures Mirrors(states', values', yychar', ShiftTo(c, to))
    {
      ValidShift(c, to);
      ShiftTargets(c.stack.Top(), Symbol(c.input));
      UnreadShifted(yychar[0], text[cp..]);
      JoinedPush(states, values, to, yychar[0].val);
      states', values' := states + [to], values + [yychar[0].val];
      yychar' := if yychar[0] != EOF then [] else yychar;
    }

    method DoReduce(states: seq<nat>, values: seq<Value>, yychar: seq<Token>, rule: nat, ghost c: Config)
      returns (states': seq<nat>, values': seq<Value>)
      requires Mirrors(states, values, yychar, c)
      requires Automaton(c.stack.Top(), Symbol(c.input)) == Reduce(rule) && CanReduce(c.stack, rule)
      modifies this`res
      ensures Mirrors(states', values', yychar, ReduceBy(c, rule))
    {
      RunUnfolds(c, Reduce(rule));
      var exp;
      states', values', exp := Reduced(states, values, rule);
      if rule == 1 { res := ExpValue(exp); }
    }

    /** Shifts or reduces. */
    method Act(states: seq<nat>, values: seq<Value>, yychar: seq<Token>, action: Action, ghost c: Config)
      returns (states': seq<nat>, values': seq<Value>, yychar': seq<Token>, ghost d: Config)
      requires Mirrors(states, values, yychar, c) && action == Automaton(c.stack.Top(), Symbol(c.input))
      requires action.Shift? || action.Reduce?
      requires action.Shift? ==> yychar == [Lookahead(c.input)]
      modifies this`res
      ensures Mirrors(states', values', yychar', d) && Run(d) == Run(c) && Measure(d) < Measure(c)
    {
      RunUnfolds(c, action);
      yychar' := yychar;
      if action.Shift? {
        states', values', yychar' := DoShift(states, values, yychar, action.state, c);
        d := ShiftTo(c, action.state);
      } else {
        states', values' := DoReduce(states, values, yychar, action.rule, c);
        d := ReduceBy(c, action.rule);
      }
    }

    /** Parses the text from the cursor on; 0 means success. */
    method YyParse() returns (result: nat)
      requires InText()
      modifies this
      ensures result == if Parse(Lex(old(text[cp..]))).ExpValue? then 0 else 1
      ensures result == 0 ==> res == Parse(Lex(old(text[cp..])))
    {
      var states: seq<nat>, values: seq<Value> := [0], [NoValue];
      var yychar: seq<Token> := [];  // the lookahead, when one has been read
      ghost var c := Init(Lex(text[cp..]));
      ghost var goal := Run(c);
      while true
        invariant Mirrors(states, values, yychar, c) && Run(c) == goal
        decreases Measure(c)
      {
        var action;
        action, yychar := Decide(states[|states| - 1], yychar);
        if action.Error? || action.Accept? {
          RunUnfolds(c, action);
          if action.Error? {
            var recovered := Recover(states);
            return 1;
          }
          return 0;
        }
        states, values, yychar, c := Act(states, values, yychar, action, c);
      }
    }
  }

  /** The tokens still to be shifted: the lookahead, if one is held, and those not yet read. */
  function Unread(yychar: seq<Token>, text: string): seq<Token>
    requires |yychar| <= 1
  {
    if yychar == [] then Lex(text) else if yychar[0] == EOF then [] else yychar + Lex(text)
  }

  lemma UnreadShifted(t: Token, text: string)
    ensures var input := Unread([t], text);
            (if input == [] then [] else input[1..]) == Unread(if t != EOF then [] else [t], text)
  {
  }

  lemma {:induction false} RunLength(r: string, q: nat)
    requires q <= |r| && (forall i :: 0 <= i < q ==> IsDigit(r[i])) && (q < |r| ==> !IsDigit(r[q]))
    ensures DigitRun(r) == q
  {
    if q > 0 { RunLength(r[1..], q - 1); }
  }
}
