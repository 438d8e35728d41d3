/** What evaluating a plural expression means: the operators by their arithmetic, and the order of evaluation by code
    for a stack machine with jumps. */
module PluralMachine {
  import opened Basics
  import opened PluralGrammar
  import opened PluralForms

  // ----- the operators -----

  /** `v` is the result of an operator on `a` and `b` by the rules for unsigned operands: sections 6.2.5,
      6.5.5 to 6.5.9, 6.5.13 and 6.5.14 of ISO/IEC 9899:1999. */
  ghost predicate Results(op: BinOp, a: ULong, b: ULong, v: ULong)
  {
    match op
    case Mult => exists q: int :: a * b == Multiple(q) + v
    case Plus => v == a + b || v + ULONG_MOD == a + b
    case Minus => v + b == a || v + b == a + ULONG_MOD
    case Divide => exists r: nat :: Divides(v, b, r, a)
    case Module => exists q: nat :: Divides(q, b, v, a)
    case LessThan => Flag(v, b - a > 0)
    case GreaterThan => Flag(v, a - b > 0)
    case LessOrEqual => Flag(v, b - a >= 0)
    case GreaterOrEqual => Flag(v, a - b >= 0)
    case Equal => Flag(v, a - b == 0)
    case NotEqual => Flag(v, a - b != 0)
    case LAnd => Flag(v, a > 0 && b > 0)
    case LOr => Flag(v, a > 0 || b > 0)
  }

  /** Conditions are 1 if they hold, and 0 otherwise. */
  predicate Flag(v: ULong, holds: bool) { (v == 1 && holds) || (v == 0 && !holds) }

  /** `a` is `q` times `b`, and `r` is left. */
  predicate Divides(q: nat, b: nat, r: nat, a: nat) { r < b && q * b + r == a }

  function Multiple(q: int): int { q * ULONG_MOD }

  /** No result: only division, and only by zero. */
  predicate Undefined(op: BinOp, b: ULong) { (op == Divide || op == Module) && b == 0 }

  lemma {:induction false} OneQuotient(q: nat, r: nat, p: nat, s: nat, b: nat)
    requires r < b && s < b && q * b + r == p * b + s
    ensures q == p && r == s
  {
    NoMultiple(q - p, b);
    assert (q - p) * b == q * b - p * b;
  }

  lemma DividesOnce(a: nat, b: nat, q: nat, r: nat)
    requires b > 0
    ensures Divides(q, b, r, a) <==> q == a / b && r == a % b
  {
    assert a / b * b + a % b == a;
    if Divides(q, b, r, a) {
      OneQuotient(q, r, a / b, a % b, b);
    }
  }

  lemma Quotients(op: BinOp, a: ULong, b: ULong, v: ULong)
    requires (op == Divide || op == Module) && b != 0
    ensures Results(op, a, b, v) <==> Apply(op, a, b) == Number(v)
  {
    hide Divides;
    DividesOnce(a, b, a / b, a % b);
    if op == Divide && Results(op, a, b, v) {
      var r: nat :| Divides(v, b, r, a);
      DividesOnce(a, b, v, r);
    }
    if op == Module && Results(op, a, b, v) {
      var q: nat :| Divides(q, b, v, a);
      DividesOnce(a, b, q, v);
    }
  }

  lemma Products(a: ULong, b: ULong, v: ULong)
    ensures Results(Mult, a, b, v) <==> Apply(Mult, a, b) == Number(v)
  {
    var m := a * b;
    assert m >= 0;
    assert m == Multiple(m / ULONG_MOD) + m % ULONG_MOD;
    if Results(Mult, a, b, v) {
      var q: int :| m == Multiple(q) + v;
      assert q >= 0;
      OneQuotient(q, v, m / ULONG_MOD, m % ULONG_MOD, ULONG_MOD);
    }
  }

  lemma SumsAndTests(op: BinOp, a: ULong, b: ULong, v: ULong)
    requires op != Mult && op != Divide && op != Module
    ensures Results(op, a, b, v) <==> Apply(op, a, b) == Number(v)
  {
    hide Divides, Multiple;
  }

  /** The evaluator's operators are those of the language. */
  lemma ApplyResults(op: BinOp, a: ULong, b: ULong, v: ULong)
    ensures Apply(op, a, b).DivisionByZero? <==> Undefined(op, b)
    ensures Apply(op, a, b) == Number(v) <==> !Undefined(op, b) && Results(op, a, b, v)
  {
    hide Results;
    if op == Mult {
      Products(a, b, v);
    } else if op == Divide || op == Module {
      if b != 0 { Quotients(op, a, b, v); }
    } else {
      SumsAndTests(op, a, b, v);
    }
  }

  // ----- the stack machine -----

  /** Jumps go `over` the instructions that follow. */
  datatype Instr = PushCount | Push(k: ULong) | Operate(op: BinOp) | JumpIfZero(over: nat) | Jump(over: nat)

  datatype Outcome = Halted(stack: seq<ULong>) | DividedByZero | Stuck

  /** Runs the code from `pc`; the top of the stack comes first. */
  ghost function Run(code: seq<Instr>, pc: nat, stack: seq<ULong>, count: ULong): Outcome
    decreases |code| - pc
  {
    if pc >= |code| then (if pc == |code| then Halted(stack) else Stuck)
    else
      match code[pc]
      case PushCount => Run(code, pc + 1, [count] + stack, count)
      case Push(k) => Run(code, pc + 1, [k] + stack, count)
      case Jump(over) => Run(code, pc + 1 + over, stack, count)
      case JumpIfZero(over) =>
        if stack == [] then Stuck
        else Run(code, pc + 1 + if stack[0] == 0 then over else 0, stack[1..], count)
      case Operate(op) =>
        if |stack| < 2 then Stuck
        else if Undefined(op, stack[0]) then DividedByZero
        else
          HasResult(op, stack[1], stack[0]);
          var v: ULong :| Results(op, stack[1], stack[0], v);
          Run(code, pc + 1, [v] + stack[2..], count)
  }

  lemma HasResult(op: BinOp, a: ULong, b: ULong)
    requires !Undefined(op, b)
    ensures exists v: ULong :: Results(op, a, b, v)
  {
    ApplyResults(op, a, b, 0);
    ApplyResults(op, a, b, Apply(op, a, b).n);
  }

  /** The code of an expression: the operands that `&&`, `||` and `?:` do not need are jumped over. */
  function Code(e: Expr): seq<Instr>
  {
    match e
    case Var => [PushCount]
    case Num(k) => [Push(k)]
    case Not(x) => Code(x) + [Push(0), Operate(Equal)]
    case Cond(b, y, z) => Code(b) + [JumpIfZero(|Code(y)| + 1)] + Code(y) + [Jump(|Code(z)|)] + Code(z)
    case Bin(LAnd, l, r) =>
      Code(l) + [JumpIfZero(|Code(r)| + 3)] + Code(r) + [Push(0), Operate(NotEqual), Jump(1), Push(0)]
    case Bin(LOr, l, r) =>
      Code(l) + [JumpIfZero(2), Push(1), Jump(|Code(r)| + 2)] + Code(r) + [Push(0), Operate(NotEqual)]
    case Bin(op, l, r) => Code(l) + Code(r) + [Operate(op)]
  }

  /** `part` stands in the code at `at`. */
  predicate Holds(code: seq<Instr>, at: nat, part: seq<Instr>)
  {
    at + |part| <= |code| && code[at..at + |part|] == part
  }

  /** What running the code goes on with after a value: the value on the stack, or the end by a division. */
  ghost function After(code: seq<Instr>, pc: nat, stack: seq<ULong>, count: ULong, value: Evaluated): Outcome
  {
    match value
    case Number(v) => Run(code, pc, [v] + stack, count)
    case DivisionByZero => DividedByZero
  }

  lemma Parts(code: seq<Instr>, at: nat, a: seq<Instr>, b: seq<Instr>)
    requires Holds(code, at, a + b)
    ensures Holds(code, at, a) && Holds(code, at + |a|, b)
  {
    assert code[at..at + |a + b|][..|a|] == code[at..at + |a|];
    assert code[at..at + |a + b|][|a|..] == code[at + |a|..at + |a| + |b|];
  }

  lemma ThreeParts(code: seq<Instr>, at: nat, a: seq<Instr>, b: seq<Instr>, c: seq<Instr>)
    requires Holds(code, at, a + b + c)
    ensures Holds(code, at, a) && Holds(code, at + |a|, b) && Holds(code, at + |a| + |b|, c)
  {
    hide Holds;
    Parts(code, at, a + b, c);
    Parts(code, at, a, b);
  }

  lemma FourParts(code: seq<Instr>, at: nat, a: seq<Instr>, b: seq<Instr>, c: seq<Instr>, d: seq<Instr>)
    requires Holds(code, at, a + b + c + d)
    ensures Holds(code, at, a) && Holds(code, at + |a|, b) && Holds(code, at + |a| + |b|, c)
    ensures Holds(code, at + |a| + |b| + |c|, d)
  {
    hide Holds;
    Parts(code, at, a + b + c, d);
    ThreeParts(code, at, a, b, c);
  }

  lemma FiveParts(code: seq<Instr>, at: nat, a: seq<Instr>, b: seq<Instr>, c: seq<Instr>, d: seq<Instr>, e: seq<Instr>)
    requires Holds(code, at, a + b + c + d + e)
    ensures Holds(code, at, a) && Holds(code, at + |a|, b) && Holds(code, at + |a| + |b|, c)
    ensures Holds(code, at + |a| + |b| + |c|, d) && Holds(code, at + |a| + |b| + |c| + |d|, e)
  {
    hide Holds;
    Parts(code, at, a + b + c + d, e);
    FourParts(code, at, a, b, c, d);
  }

  lemma OneInstr(code: seq<Instr>, at: nat, i: Instr)
    requires Holds(code, at, [i])
    ensures at < |code| && code[at] == i
  {
    assert code[at..at + 1][0] == code[at];
  }

  lemma OperateRuns(code: seq<Instr>, pc: nat, op: BinOp, a: ULong, b: ULong, stack: seq<ULong>, count: ULong)
    requires Holds(code, pc, [Operate(op)])
    ensures Run(code, pc, [b] + ([a] + stack), count) == After(code, pc + 1, stack, count, Apply(op, a, b))
  {
    OneInstr(code, pc, Operate(op));
    var all := [b] + ([a] + stack);
    assert all[2..] == stack && all[0] == b && all[1] == a;
    ApplyResults(op, a, b, 0);
    if !Undefined(op, b) {
      HasResult(op, a, b);
      var v: ULong :| Results(op, a, b, v) && Run(code, pc, all, count) == Run(code, pc + 1, [v] + stack, count);
      ApplyResults(op, a, b, v);
    }
  }

  lemma PushRuns(code: seq<Instr>, pc: nat, k: ULong, stack: seq<ULong>, count: ULong)
    requires Holds(code, pc, [Push(k)])
    ensures Run(code, pc, stack, count) == Run(code, pc + 1, [k] + stack, count)
  {
    OneInstr(code, pc, Push(k));
  }

  lemma JumpRuns(code: seq<Instr>, pc: nat, over: nat, stack: seq<ULong>, count: ULong)
    requires Holds(code, pc, [Jump(over)])
    ensures Run(code, pc, stack, count) == Run(code, pc + 1 + over, stack, count)
  {
    OneInstr(code, pc, Jump(over));
  }

  lemma JumpIfZeroRuns(code: seq<Instr>, pc: nat, over: nat, v: ULong, stack: seq<ULong>, count: ULong)
    requires Holds(code, pc, [JumpIfZero(over)])
    ensures Run(code, pc, [v] + stack, count) == Run(code, pc + 1 + if v == 0 then over else 0, stack, count)
  {
    OneInstr(code, pc, JumpIfZero(over));
    assert ([v] + stack)[1..] == stack;
  }

  /** Comparing with zero. */
  lemma TestRuns(code: seq<Instr>, pc: nat, op: BinOp, v: ULong, stack: seq<ULong>, count: ULong)
    requires Holds(code, pc, [Push(0), Operate(op)]) && (op == Equal || op == NotEqual)
    ensures Run(code, pc, [v] + stack, count)
         == Run(code, pc + 2, [if (v == 0) == (op == Equal) then 1 else 0] + stack, count)
  {
    assert [Push(0), Operate(op)] == [Push(0)] + [Operate(op)];
    Parts(code, pc, [Push(0)], [Operate(op)]);
    PushRuns(code, pc, 0, [v] + stack, count);
    OperateRuns(code, pc + 1, op, v, 0, stack, count);
  }

  /** What the code of an expression does. */
  ghost predicate Works(code: seq<Instr>, at: nat, e: Expr, stack: seq<ULong>, count: ULong)
  {
    Run(code, at, stack, count) == After(code, at + |Code(e)|, stack, count, Eval(e, count))
  }

  lemma {:induction false} CodeRuns(code: seq<Instr>, at: nat, e: Expr, stack: seq<ULong>, count: ULong)
    requires Holds(code, at, Code(e))
    ensures Works(code, at, e, stack, count)
    decreases e, 1
  {
    match e
    case Var => OneInstr(code, at, PushCount);
    case Num(k) => PushRuns(code, at, k, stack, count);
    case Not(x) => NotRuns(code, at, x, stack, count);
    case Cond(b, y, z) => CondRuns(code, at, b, y, z, stack, count);
    case Bin(op, l, r) =>
      if op == LAnd { AndRuns(code, at, l, r, stack, count); }
      else if op == LOr { OrRuns(code, at, l, r, stack, count); }
      else { StrictRuns(code, at, op, l, r, stack, count); }
  }

  lemma NotCode(x: Expr)
    ensures Code(Not(x)) == Code(x) + [Push(0), Operate(Equal)]
  {
  }

  lemma {:induction false} NotRuns(code: seq<Instr>, at: nat, x: Expr, stack: seq<ULong>, count: ULong)
    requires Holds(code, at, Code(Not(x)))
    ensures Works(code, at, Not(x), stack, count)
    decreases Not(x), 0
  {
    NotCode(x);
    hide Run, Holds, Code;
    Parts(code, at, Code(x), [Push(0), Operate(Equal)]);
    CodeRuns(code, at, x, stack, count);
    if Eval(x, count).Number? {
      TestRuns(code, at + |Code(x)|, Equal, Eval(x, count).n, stack, count);
    }
  }

  lemma StrictLayout(code: seq<Instr>, at: nat, op: BinOp, l: Expr, r: Expr)
    requires Holds(code, at, Code(Bin(op, l, r))) && op != LAnd && op != LOr
    ensures var mid := at + |Code(l)|; var end := mid + |Code(r)|;
            && Holds(code, at, Code(l)) && Holds(code, mid, Code(r)) && Holds(code, end, [Operate(op)])
            && at + |Code(Bin(op, l, r))| == end + 1
  {
    hide Holds;
    ThreeParts(code, at, Code(l), Code(r), [Operate(op)]);
  }

  lemma {:induction false} StrictRuns(code: seq<Instr>, at: nat, op: BinOp, l: Expr, r: Expr, stack: seq<ULong>,
                                      count: ULong)
    requires Holds(code, at, Code(Bin(op, l, r))) && op != LAnd && op != LOr
    ensures Works(code, at, Bin(op, l, r), stack, count)
    decreases Bin(op, l, r), 0
  {
    hide Run, Holds, Code, Apply;
    var mid, end := at + |Code(l)|, at + |Code(l)| + |Code(r)|;
    StrictLayout(code, at, op, l, r);
    CodeRuns(code, at, l, stack, count);
    if Eval(l, count).Number? {
      var a := Eval(l, count).n;
      CodeRuns(code, mid, r, [a] + stack, count);
      if Eval(r, count).Number? {
        OperateRuns(code, end, op, a, Eval(r, count).n, stack, count);
      }
    }
  }

  lemma CondLayout(code: seq<Instr>, at: nat, b: Expr, y: Expr, z: Expr)
    requires Holds(code, at, Code(Cond(b, y, z)))
    ensures var yes := at + |Code(b)| + 1; var no := yes + |Code(y)| + 1;
            && Holds(code, at, Code(b)) && Holds(code, yes - 1, [JumpIfZero(|Code(y)| + 1)])
            && Holds(code, yes, Code(y)) && Holds(code, no - 1, [Jump(|Code(z)|)]) && Holds(code, no, Code(z))
            && at + |Code(Cond(b, y, z))| == no + |Code(z)|
  {
    CondCode(b, y, z);
    hide Code, Holds;
    FiveParts(code, at, Code(b), [JumpIfZero(|Code(y)| + 1)], Code(y), [Jump(|Code(z)|)], Code(z));
  }

  lemma CondCode(b: Expr, y: Expr, z: Expr)
    ensures Code(Cond(b, y, z)) == Code(b) + [JumpIfZero(|Code(y)| + 1)] + Code(y) + [Jump(|Code(z)|)] + Code(z)
  {
  }

  lemma {:induction false} CondRuns(code: seq<Instr>, at: nat, b: Expr, y: Expr, z: Expr, stack: seq<ULong>,
                                    count: ULong)
    requires Holds(code, at, Code(Cond(b, y, z)))
    ensures Works(code, at, Cond(b, y, z), stack, count)
    decreases Cond(b, y, z), 0
  {
    hide Run, Holds, Code;
    var yes := at + |Code(b)| + 1;
    var no := yes + |Code(y)| + 1;
    CondLayout(code, at, b, y, z);
    CodeRuns(code, at, b, stack, count);
    if Eval(b, count).Number? {
      JumpIfZeroRuns(code, yes - 1, |Code(y)| + 1, Eval(b, count).n, stack, count);
      CodeRuns(code, yes, y, stack, count);
      CodeRuns(code, no, z, stack, count);
      if Eval(y, count).Number? {
        JumpRuns(code, no - 1, |Code(z)|, [Eval(y, count).n] + stack, count);
      }
    }
  }

  lemma AndLayout(code: seq<Instr>, at: nat, l: Expr, r: Expr)
    requires Holds(code, at, Code(Bin(LAnd, l, r)))
    ensures var right := at + |Code(l)| + 1; var end := right + |Code(r)|;
            && Holds(code, at, Code(l)) && Holds(code, right - 1, [JumpIfZero(|Code(r)| + 3)])
            && Holds(code, right, Code(r)) && Holds(code, end, [Push(0), Operate(NotEqual)])
            && Holds(code, end + 2, [Jump(1)]) && Holds(code, end + 3, [Push(0)])
            && at + |Code(Bin(LAnd, l, r))| == end + 4
  {
    AndCode(l, r);
    hide Code, Holds;
    var tail := [Push(0), Operate(NotEqual), Jump(1), Push(0)];
    FourParts(code, at, Code(l), [JumpIfZero(|Code(r)| + 3)], Code(r), tail);
    AndTail(code, at + |Code(l)| + 1 + |Code(r)|);
  }

  lemma AndCode(l: Expr, r: Expr)
    ensures Code(Bin(LAnd, l, r)) ==
            Code(l) + [JumpIfZero(|Code(r)| + 3)] + Code(r) + [Push(0), Operate(NotEqual), Jump(1), Push(0)]
  {
  }

  lemma AndTail(code: seq<Instr>, end: nat)
    requires Holds(code, end, [Push(0), Operate(NotEqual), Jump(1), Push(0)])
    ensures Holds(code, end, [Push(0), Operate(NotEqual)]) && Holds(code, end + 2, [Jump(1)])
    ensures Holds(code, end + 3, [Push(0)])
  {
    hide Holds;
    var truth, skip, zero := [Push(0), Operate(NotEqual)], [Jump(1)], [Push(0)];
    assert [Push(0), Operate(NotEqual), Jump(1), Push(0)] == truth + skip + zero;
    ThreeParts(code, end, truth, skip, zero);
  }

  lemma {:induction false} AndRuns(code: seq<Instr>, at: nat, l: Expr, r: Expr, stack: seq<ULong>, count: ULong)
    requires Holds(code, at, Code(Bin(LAnd, l, r)))
    ensures Works(code, at, Bin(LAnd, l, r), stack, count)
    decreases Bin(LAnd, l, r), 0
  {
    hide Run, Holds, Code;
    var right := at + |Code(l)| + 1;
    var end := right + |Code(r)|;
    AndLayout(code, at, l, r);
    CodeRuns(code, at, l, stack, count);
    if Eval(l, count).Number? {
      JumpIfZeroRuns(code, right - 1, |Code(r)| + 3, Eval(l, count).n, stack, count);
      PushRuns(code, end + 3, 0, stack, count);
      CodeRuns(code, right, r, stack, count);
      if Eval(r, count).Number? {
        var b := Eval(r, count).n;
        TestRuns(code, end, NotEqual, b, stack, count);
        JumpRuns(code, end + 2, 1, [if b == 0 then 0 else 1] + stack, count);
      }
    }
  }

  lemma OrLayout(code: seq<Instr>, at: nat, l: Expr, r: Expr)
    requires Holds(code, at, Code(Bin(LOr, l, r)))
    ensures var right := at + |Code(l)| + 3; var end := right + |Code(r)|;
            && Holds(code, at, Code(l)) && Holds(code, right - 3, [JumpIfZero(2)])
            && Holds(code, right - 2, [Push(1)]) && Holds(code, right - 1, [Jump(|Code(r)| + 2)])
            && Holds(code, right, Code(r)) && Holds(code, end, [Push(0), Operate(NotEqual)])
            && at + |Code(Bin(LOr, l, r))| == end + 2
  {
    OrCode(l, r);
    hide Code, Holds;
    var head, truth := [JumpIfZero(2), Push(1), Jump(|Code(r)| + 2)], [Push(0), Operate(NotEqual)];
    FourParts(code, at, Code(l), head, Code(r), truth);
    OrHead(code, at + |Code(l)|, |Code(r)| + 2);
  }

  lemma OrCode(l: Expr, r: Expr)
    ensures Code(Bin(LOr, l, r)) ==
            Code(l) + [JumpIfZero(2), Push(1), Jump(|Code(r)| + 2)] + Code(r) + [Push(0), Operate(NotEqual)]
  {
  }

  lemma OrHead(code: seq<Instr>, at: nat, over: nat)
    requires Holds(code, at, [JumpIfZero(2), Push(1), Jump(over)])
    ensures Holds(code, at, [JumpIfZero(2)]) && Holds(code, at + 1, [Push(1)]) && Holds(code, at + 2, [Jump(over)])
  {
    hide Holds;
    assert [JumpIfZero(2), Push(1), Jump(over)] == [JumpIfZero(2)] + [Push(1)] + [Jump(over)];
    ThreeParts(code, at, [JumpIfZero(2)], [Push(1)], [Jump(over)]);
  }

  lemma {:induction false} OrRuns(code: seq<Instr>, at: nat, l: Expr, r: Expr, stack: seq<ULong>, count: ULong)
    requires Holds(code, at, Code(Bin(LOr, l, r)))
    ensures Works(code, at, Bin(LOr, l, r), stack, count)
    decreases Bin(LOr, l, r), 0
  {
    hide Run, Holds, Code;
    var right := at + |Code(l)| + 3;
    var end := right + |Code(r)|;
    OrLayout(code, at, l, r);
    CodeRuns(code, at, l, stack, count);
    if Eval(l, count).Number? {
      JumpIfZeroRuns(code, right - 3, 2, Eval(l, count).n, stack, count);
      PushRuns(code, right - 2, 1, stack, count);
      JumpRuns(code, right - 1, |Code(r)| + 2, [1] + stack, count);
      CodeRuns(code, right, r, stack, count);
      if Eval(r, count).Number? {
        TestRuns(code, end, NotEqual, Eval(r, count).n, stack, count);
      }
    }
  }

  /** The evaluator gives what the machine leaves on its stack, and divides by zero exactly if the machine does. */
  lemma EvalIsMachine(e: Expr, count: ULong)
    ensures Run(Code(e), 0, [], count) ==
            match Eval(e, count) case Number(v) => Halted([v]) case DivisionByZero => DividedByZero
  {
    CodeRuns(Code(e), 0, e, [], count);
  }

  /** An operand that is not needed may divide by zero. */
  lemma SkippedOperands(e: Expr, bad: Expr, count: ULong)
    requires Eval(bad, count).DivisionByZero? && Eval(e, count).Number?
    ensures Eval(e, count).n == 0 ==> Eval(Bin(LAnd, e, bad), count) == Number(0)
    ensures Eval(e, count).n != 0 ==> Eval(Bin(LOr, e, bad), count) == Number(1)
    ensures Eval(Cond(Num(1), e, bad), count) == Eval(Cond(Num(0), bad, e), count) == Eval(e, count)
  {
  }
}
