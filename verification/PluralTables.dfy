/** The shift/reduce automaton of the plural-expression compiler: the generated tables, looked up
    the way the parser skeleton does, and the automaton they encode written out state by state. */
module PluralTables {
  const YYFLAG: int := -32768  // yypact: the state reduces by default without reading a token
  const YYFINAL: int := 27
  const YYLAST: int := 53

  /** Right-hand side lengths, by rule. */
  function YyR2(rule: nat): nat
  {
    match rule
    case 1 => 1
    case 2 => 5
    case 3 => 3 case 4 => 3 case 5 => 3 case 6 => 3 case 7 => 3 case 8 => 3
    case 9 => 2
    case 10 => 1 case 11 => 1
    case 12 => 3
    case _ => 0
  }

  /** Token numbers used by the tables, from the codes the lexer returns. */
  function YyTranslate(code: nat): (t: nat)
    ensures t <= 15
  {
    match code
    case 0 => 0
    case 33 => 10   // '!'
    case 38 => 5    // '&'
    case 40 => 14   // '('
    case 41 => 15   // ')'
    case 58 => 12   // ':'
    case 63 => 3    // '?'
    case 110 => 13  // 'n'
    case 124 => 4   // '|'
    case 256 => 1   // error
    case 257 => 6   // EQUOP2
    case 258 => 7   // CMPOP2
    case 259 => 8   // ADDOP2
    case 260 => 9   // MULOP2
    case 261 => 11  // NUMBER
    case _ => 2     // undefined
  }

  function YyDefAct(k: nat): int
    requires k < 28
  {
    match k
    case 0 => 0 case 1 => 0 case 2 => 11 case 3 => 10 case 4 => 0 case 5 => 1
    case 6 => 9 case 7 => 0 case 8 => 0 case 9 => 0 case 10 => 0 case 11 => 0
    case 12 => 0 case 13 => 0 case 14 => 0 case 15 => 12 case 16 => 0 case 17 => 3
    case 18 => 4 case 19 => 5 case 20 => 6 case 21 => 7 case 22 => 8 case 23 => 0
    case 24 => 2 case 25 => 0 case 26 => 0 case _ => 0
  }

  function YyPact(k: nat): int
    requires k < 28
  {
    match k
    case 0 => -9 case 1 => -9 case 2 => YYFLAG case 3 => YYFLAG case 4 => -9 case 5 => 34
    case 6 => YYFLAG case 7 => 11 case 8 => -9 case 9 => -9 case 10 => -9 case 11 => -9
    case 12 => -9 case 13 => -9 case 14 => -9 case 15 => YYFLAG case 16 => 24 case 17 => 39
    case 18 => 43 case 19 => 16 case 20 => 26 case 21 => -3 case 22 => YYFLAG case 23 => -9
    case 24 => 34 case 25 => 21 case 26 => 53 case _ => YYFLAG
  }

  function YyTable(k: nat): int
    requires k < 54
  {
    match k
    case 0 => 6 case 1 => 1 case 2 => 2 case 3 => 7 case 4 => 3 case 5 => 4
    case 6 => 14 case 7 => 16 case 8 => 17 case 9 => 18 case 10 => 19 case 11 => 20
    case 12 => 21 case 13 => 22 case 14 => 8 case 15 => 9 case 16 => 10 case 17 => 11
    case 18 => 12 case 19 => 13 case 20 => 14 case 21 => 26 case 22 => 24 case 23 => 12
    case 24 => 13 case 25 => 14 case 26 => 15 case 27 => 8 case 28 => 9 case 29 => 10
    case 30 => 11 case 31 => 12 case 32 => 13 case 33 => 14 case 34 => 13 case 35 => 14
    case 36 => 23 case 37 => 8 case 38 => 9 case 39 => 10 case 40 => 11 case 41 => 12
    case 42 => 13 case 43 => 14 case 44 => 10 case 45 => 11 case 46 => 12 case 47 => 13
    case 48 => 14 case 49 => 11 case 50 => 12 case 51 => 13 case 52 => 14 case _ => 27
  }

  function YyCheck(k: nat): int
    requires k < 54
  {
    match k
    case 0 => 1 case 1 => 10 case 2 => 11 case 3 => 4 case 4 => 13 case 5 => 14
    case 6 => 9 case 7 => 8 case 8 => 9 case 9 => 10 case 10 => 11 case 11 => 12
    case 12 => 13 case 13 => 14 case 14 => 3 case 15 => 4 case 16 => 5 case 17 => 6
    case 18 => 7 case 19 => 8 case 20 => 9 case 21 => 0 case 22 => 23 case 23 => 7
    case 24 => 8 case 25 => 9 case 26 => 15 case 27 => 3 case 28 => 4 case 29 => 5
    case 30 => 6 case 31 => 7 case 32 => 8 case 33 => 9 case 34 => 8 case 35 => 9
    case 36 => 12 case 37 => 3 case 38 => 4 case 39 => 5 case 40 => 6 case 41 => 7
    case 42 => 8 case 43 => 9 case 44 => 5 case 45 => 6 case 46 => 7 case 47 => 8
    case 48 => 9 case 49 => 6 case 50 => 7 case 51 => 8 case 52 => 9 case _ => 0
  }

  datatype Action = Shift(state: nat) | Reduce(rule: nat) | Accept | Error

  function DefaultAction(s: nat): Action
    requires s <= 26
  {
    var rule := YyDefAct(s);
    if rule > 0 then Reduce(rule) else Error
  }

  /** What the parser does in state `s` on token number `t`, by table lookup. */
  function TableAction(s: nat, t: nat): Action
    requires s <= 26 && t <= 15
  {
    var n := YyPact(s);
    if n == YYFLAG then DefaultAction(s)
    else
      var k := n + t;
      if k < 0 || k > YYLAST || YyCheck(k) != t then DefaultAction(s)
      else
        var a := YyTable(k);
        if a < 0 then (if a == YYFLAG then Error else Reduce(-a))
        else if a == 0 then Error
        else if a == YYFINAL then Accept
        else Shift(a)
  }

  /** The state entered above `s` after reducing by `rule`, by table lookup. */
  function TableGoto(s: nat, rule: nat): int
    requires s <= 26
  {
    // rule 1 derives the start symbol, every other rule an expression
    var pgoto := if rule == 1 then YYFLAG else -1;
    var k := pgoto + s;
    if 0 <= k <= YYLAST && YyCheck(k) == s then YyTable(k) else if rule == 1 then 25 else 5
  }

  /** States in which an operand may start. */
  predicate Expects(s: nat)
  {
    s == 0 || s == 1 || s == 4 || 8 <= s <= 14 || s == 23
  }

  /** The state entered when an operand is complete above `s`. */
  function OperandState(s: nat): nat
    requires Expects(s)
  {
    if s == 0 then 5 else if s == 1 then 6 else if s == 4 then 7 else if s == 23 then 24 else s + 8
  }

  /** The automaton itself.  Token numbers 3..9 are the infix operators in increasing precedence;
      operator `t` leads to state `t + 5`, and a complete right operand above that to `t + 13`. */
  function Automaton(s: nat, t: nat): Action
  {
    if Expects(s) then
      (match t case 10 => Shift(1) case 11 => Shift(2) case 13 => Shift(3) case 14 => Shift(4) case _ => Error)
    else if s == 2 then Reduce(11)
    else if s == 3 then Reduce(10)
    else if s == 6 then Reduce(9)
    else if s == 15 then Reduce(12)
    else if s == 25 then (if t == 0 then Shift(26) else Error)
    else if s == 26 then (if t == 0 then Accept else Error)
    else if 17 <= s <= 22 then (if s - 12 <= t <= 9 then Shift(t + 5) else Reduce(s - 14))
    else if 3 <= t <= 9 then Shift(t + 5)
    else if s == 5 then Reduce(1)
    else if s == 24 then Reduce(2)
    else if s == 7 && t == 15 then Shift(15)
    else if s == 16 && t == 12 then Shift(23)
    else Error
  }

  /** The generated tables encode exactly that automaton. */
  lemma TablesEncodeAutomaton(s: nat, t: nat)
    requires s <= 26 && t <= 15
    ensures TableAction(s, t) == Automaton(s, t)
    ensures t == 1 ==> !TableAction(s, t).Shift?
  {
    if Expects(s) {
      RowsExpectingOperand(s, t);
    } else if s in {2, 3, 6, 15, 22, 25, 26} {
      RowsReducingAlways(s, t);
    } else if s in {5, 7, 16, 24} {
      RowsAfterOperand(s, t);
    } else if s <= 19 {
      RowsAfterRightOperand(s, t);
    } else {
      RowsAfterTightRightOperand(s, t);
    }
  }

  lemma RowsExpectingOperand(s: nat, t: nat)
    requires Expects(s) && t <= 15
    ensures TableAction(s, t) == Automaton(s, t)
  {
    if s == 0 { } else if s == 1 { } else if s == 4 { } else if s == 8 { } else if s == 9 { } else if s == 10 {
    } else if s == 11 { } else if s == 12 { } else if s == 13 { } else if s == 14 { } else if s == 23 { }
  }

  lemma RowsReducingAlways(s: nat, t: nat)
    requires s in {2, 3, 6, 15, 22, 25, 26} && t <= 15
    ensures TableAction(s, t) == Automaton(s, t)
  {
    if s == 2 { } else if s == 3 { } else if s == 6 { } else if s == 15 { } else if s == 22 {
    } else if s == 25 { } else if s == 26 { }
  }

  lemma RowsAfterOperand(s: nat, t: nat)
    requires s in {5, 7, 16, 24} && t <= 15
    ensures TableAction(s, t) == Automaton(s, t)
  {
    if s == 5 { } else if s == 7 { } else if s == 16 { } else if s == 24 { }
  }

  lemma RowsAfterRightOperand(s: nat, t: nat)
    requires 17 <= s <= 19 && t <= 15
    ensures TableAction(s, t) == Automaton(s, t)
  {
    if s == 17 { } else if s == 18 { } else { }
  }

  lemma RowsAfterTightRightOperand(s: nat, t: nat)
    requires 20 <= s <= 21 && t <= 15
    ensures TableAction(s, t) == Automaton(s, t)
  {
    if s == 20 { } else { }
  }

  lemma TablesEncodeGoto(s: nat, rule: nat)
    requires Expects(s)
    ensures rule != 1 ==> TableGoto(s, rule) == OperandState(s)
    ensures rule == 1 ==> TableGoto(s, rule) == 25
  {
    if s == 0 { } else if s == 1 { } else if s == 4 { } else if s == 23 { } else { }
  }
}
