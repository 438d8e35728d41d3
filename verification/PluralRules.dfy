/** The usual plural rules, from their text to the variant chosen. */
module PluralRules {
  import opened PluralGrammar
  import opened PluralCorrect
  import opened PluralText
  import opened PluralForms

  // ----- writing -----

  /** `s` spells the tokens, with blanks before each of them. */
  ghost predicate Spells(s: string, ts: seq<Token>)
  {
    exists gaps: seq<string> :: |gaps| == |ts| && Blank(gaps) && s == Render(ts, gaps, "")
  }

  predicate Blank(gaps: seq<string>) { forall i :: 0 <= i < |gaps| ==> IsBlanks(gaps[i]) }

  lemma {:induction false} RenderSplits(a: seq<Token>, b: seq<Token>, g: seq<string>, h: seq<string>, tail: string)
    requires |g| == |a| && |h| == |b|
    ensures Render(a + b, g + h, tail) == Render(a, g, "") + Render(b, h, tail)
  {
    if a == [] {
      assert a + b == b && g + h == h;
    } else {
      assert (a + b)[1..] == a[1..] + b && (g + h)[1..] == g[1..] + h;
      RenderSplits(a[1..], b, g[1..], h, tail);
    }
  }

  lemma SpellsBoth(s: string, a: seq<Token>, r: string, b: seq<Token>)
    requires Spells(s, a) && Spells(r, b)
    ensures Spells(s + r, a + b)
  {
    var g :| |g| == |a| && Blank(g) && s == Render(a, g, "");
    var h :| |h| == |b| && Blank(h) && r == Render(b, h, "");
    RenderSplits(a, b, g, h, "");
    assert Blank(g + h);
  }

  lemma SpellsOne(gap: string, t: Token)
    requires IsBlanks(gap)
    ensures Spells(gap + TokenText(t), [t])
  {
    assert Blank([gap]) && [t][1..] == [] && [gap][1..] == [];
    assert Render([t], [gap], "") == gap + TokenText(t) + "";
  }

  /** `s`, with blanks before it, spells the derivation `c`. */
  ghost predicate Writes(s: string, c: Syntax) { Spells(s, Yield(c)) }

  /** A text that spells a derivation compiles to its tree. */
  lemma Compiles(s: string, c: Syntax, tail: string)
    requires Writes(s, c) && Derives(c, 0) && Ends(tail)
    ensures Compile(s + tail) == ExpValue(Tree(c))
  {
    var ts := Yield(c);
    var gaps :| |gaps| == |ts| && Blank(gaps) && s == Render(ts, gaps, "");
    RenderSplits(ts, [], gaps, [], tail);
    assert ts + [] == ts && gaps + [] == gaps;
    YieldIsOperand(c);
    LexRender(ts, gaps, tail);
    DriverIsComplete(c);
  }

  lemma WordTexts()
    ensures TokenText(NAME) == "n" && TokenText(OPEN) == "(" && TokenText(CLOSE) == ")"
    ensures TokenText(QUESTION) == "?" && TokenText(COLON) == ":" && TokenText(BANG) == "!"
  {
  }

  lemma OperatorText(op: BinOp)
    ensures TokenText(OpToken(op)) == OpText(op)
  {
  }

  lemma WritesInfix(s: string, l: Syntax, gap: string, op: BinOp, word: string, r: string, c: Syntax)
    requires Writes(s, l) && Writes(r, c) && IsBlanks(gap) && word == OpText(op)
    ensures Writes(s + gap + word + r, Infix(op, l, c))
  {
    hide Spells, TokenText, OpToken, OpText, IsBlanks;
    OperatorText(op);
    SpellsOne(gap, OpToken(op));
    SpellsBoth(s, Yield(l), gap + word, [OpToken(op)]);
    SpellsBoth(s + (gap + word), Yield(l) + [OpToken(op)], r, Yield(c));
    assert s + gap + word + r == s + (gap + word) + r;
  }

  lemma WritesName(gap: string)
    requires IsBlanks(gap)
    ensures Writes(gap + "n", Name)
  {
    hide Spells, TokenText, IsBlanks;
    WordTexts();
    SpellsOne(gap, NAME);
  }

  lemma WritesNumber(gap: string, k: ULong, digits: string)
    requires IsBlanks(gap) && digits == DecimalText(k)
    ensures Writes(gap + digits, Literal(k))
  {
    hide Spells, IsBlanks, DecimalText;
    SpellsOne(gap, NumberToken(k));
  }

  lemma WritesParen(gap: string, s: string, c: Syntax)
    requires IsBlanks(gap) && Writes(s, c)
    ensures Writes(gap + "(" + s + ")", Paren(c))
  {
    hide Spells, TokenText;
    WordTexts();
    SpellsOne(gap, OPEN);
    SpellsOne("", CLOSE);
    assert "" + ")" == ")";
    SpellsBoth(gap + "(", [OPEN], s, Yield(c));
    SpellsBoth(gap + "(" + s, [OPEN] + Yield(c), ")", [CLOSE]);
  }

  lemma WritesBang(gap: string, s: string, c: Syntax)
    requires IsBlanks(gap) && Writes(s, c)
    ensures Writes(gap + "!" + s, Bang(c))
  {
    hide Spells, TokenText;
    WordTexts();
    SpellsOne(gap, BANG);
    SpellsBoth(gap + "!", [BANG], s, Yield(c));
  }

  lemma BlankWord(t: Token, word: string)
    requires TokenText(t) == word
    ensures Spells(" " + word, [t])
  {
    SpellsOne(" ", t);
  }

  lemma WritesTernary(s: string, b: Syntax, r: string, y: Syntax, u: string, n: Syntax)
    requires Writes(s, b) && Writes(r, y) && Writes(u, n)
    ensures Writes(s + " ?" + r + " :" + u, Ternary(b, y, n))
  {
    hide Spells, TokenText;
    WordTexts();
    BlankWord(QUESTION, "?");
    BlankWord(COLON, ":");
    assert " " + "?" == " ?" && " " + ":" == " :";
    SpellsBoth(s, Yield(b), " ?", [QUESTION]);
    SpellsBoth(s + " ?", Yield(b) + [QUESTION], r, Yield(y));
    SpellsBoth(s + " ?" + r, Yield(b) + [QUESTION] + Yield(y), " :", [COLON]);
    SpellsBoth(s + " ?" + r + " :", Yield(b) + [QUESTION] + Yield(y) + [COLON], u, Yield(n));
  }

  // ----- numerals and tests of the count -----

  lemma SmallNumerals()
    ensures DecimalText(0) == "0" && DecimalText(1) == "1" && DecimalText(2) == "2" && DecimalText(4) == "4"
    ensures DecimalText(10) == "10" && DecimalText(11) == "11" && DecimalText(20) == "20" && DecimalText(100) == "100"
  {
    assert DecimalText(10) == DecimalText(1) + DecimalText(0);
    assert DecimalText(11) == DecimalText(1) + DecimalText(1);
    assert DecimalText(20) == DecimalText(2) + DecimalText(0);
    assert DecimalText(100) == DecimalText(10) + DecimalText(0);
  }

  /** `n OP k`. */
  function Count(op: BinOp, k: ULong): Syntax { Infix(op, Name, Literal(k)) }

  lemma WritesCount(s: string, op: BinOp, word: string, gap: string, k: ULong, digits: string)
    requires IsBlanks(gap) && word == OpText(op) && digits == DecimalText(k) && s == "n" + gap + word + gap + digits
    ensures Writes(s, Count(op, k))
  {
    hide Writes, DecimalText, OpText;
    WritesName("");
    assert "" + "n" == "n";
    WritesNumber(gap, k, digits);
    WritesInfix("n", Name, gap, op, word, gap + digits, Literal(k));
    assert "n" + gap + word + (gap + digits) == s;
  }

  /** `n != 1`, as for most languages of Western Europe: the first form for one thing only. */
  lemma GermanicRule(n: ULong)
    ensures Compile("n != 1;") == ExpValue(Bin(NotEqual, Var, Num(1)))
    ensures Eval(Bin(NotEqual, Var, Num(1)), n) == Number(if n == 1 then 0 else 1)
  {
    hide Writes, Spells, Compile, DecimalText;
    SmallNumerals();
    WritesCount("n != 1", NotEqual, "!=", " ", 1, "1");
    Compiles("n != 1", Count(NotEqual, 1), ";");
    assert "n != 1" + ";" == "n != 1;";
  }

  /** `n > 1`, as for French: the first form for none and for one. */
  lemma RomanceRule(n: ULong)
    ensures Compile("n > 1;") == ExpValue(Bin(GreaterThan, Var, Num(1)))
    ensures Eval(Bin(GreaterThan, Var, Num(1)), n) == Number(if n <= 1 then 0 else 1)
  {
    hide Writes, Spells, Compile, DecimalText;
    SmallNumerals();
    WritesCount("n > 1", GreaterThan, ">", " ", 1, "1");
    Compiles("n > 1", Count(GreaterThan, 1), ";");
    assert "n > 1" + ";" == "n > 1;";
  }

  // ----- the operators, from their text -----

  /** The value of the expression that a text compiles to. */
  ghost function Value(text: string, n: ULong): Evaluated
  {
    match Compile(text)
    case ExpValue(e) => Eval(e, n)
    case _ => DivisionByZero
  }

  lemma ValueOf(s: string, c: Syntax, n: ULong)
    requires Writes(s, c) && Derives(c, 0)
    ensures Value(s + ";", n) == Eval(Tree(c), n)
  {
    hide Writes, Compile, Eval, Tree, Derives;
    Compiles(s, c, ";");
  }

  lemma CountTree(op: BinOp, k: ULong)
    ensures Tree(Count(op, k)) == Bin(op, Var, Num(k)) && Derives(Count(op, k), Level(op)) && Derives(Count(op, k), 0)
  {
  }

  lemma CountValue(op: BinOp, word: string, n: ULong)
    requires word == OpText(op) && op != LAnd && op != LOr
    ensures Value("n" + word + "3" + ";", n) == Apply(op, n, 3)
  {
    assert Eval(Var, n) == Number(n) && Eval(Num(3), n) == Number(3);
    assert DecimalText(3) == "3";
    hide *;
    var s := "n" + word + "3";
    assert s == "n" + "" + word + "" + "3";
    Blanks();
    WritesCount(s, op, word, "", 3, "3");
    CountTree(op, 3);
    ValueOf(s, Count(op, 3), n);
    StrictValue(op, Var, Num(3), n, 3, n);
  }

  lemma Blanks()
    ensures IsBlanks("") && IsBlanks(" ")
  {
  }

  lemma SignTexts()
    ensures "n" + "*" + "3" + ";" == "n*3;" && "n" + "/" + "3" + ";" == "n/3;" && "n" + "%" + "3" + ";" == "n%3;"
    ensures "n" + "+" + "3" + ";" == "n+3;" && "n" + "-" + "3" + ";" == "n-3;"
  {
  }

  lemma SignOps()
    ensures OpText(Mult) == "*" && OpText(Divide) == "/" && OpText(Module) == "%" && OpText(Plus) == "+"
    ensures OpText(Minus) == "-" && OpText(LessThan) == "<" && OpText(GreaterThan) == ">" && OpText(Equal) == "=="
    ensures OpText(NotEqual) == "!=" && OpText(LessOrEqual) == "<=" && OpText(GreaterOrEqual) == ">="
  {
  }

  lemma SignValues(n: ULong)
    requires 3 <= n && n * 3 < ULONG_MOD
    ensures Apply(Mult, n, 3) == Number(n * 3) && Apply(Divide, n, 3) == Number(n / 3)
    ensures Apply(Module, n, 3) == Number(n % 3)
    ensures Apply(Plus, n, 3) == Number(n + 3) && Apply(Minus, n, 3) == Number(n - 3)
  {
  }

  /** The signs of arithmetic, without overflow. */
  lemma ArithmeticRule(n: ULong)
    requires 3 <= n && n * 3 < ULONG_MOD
    ensures Value("n*3;", n) == Number(n * 3) && Value("n/3;", n) == Number(n / 3) && Value("n%3;", n) == Number(n % 3)
    ensures Value("n+3;", n) == Number(n + 3) && Value("n-3;", n) == Number(n - 3)
  {
    hide *;
    SignTexts();
    SignOps();
    SignValues(n);
    CountValue(Mult, "*", n);
    CountValue(Divide, "/", n);
    CountValue(Module, "%", n);
    CountValue(Plus, "+", n);
    CountValue(Minus, "-", n);
  }

  lemma ComparisonTexts()
    ensures "n" + "<" + "3" + ";" == "n<3;" && "n" + ">" + "3" + ";" == "n>3;" && "n" + "<=" + "3" + ";" == "n<=3;"
    ensures "n" + ">=" + "3" + ";" == "n>=3;" && "n" + "==" + "3" + ";" == "n==3;" && "n" + "!=" + "3" + ";" == "n!=3;"
  {
  }

  lemma ComparisonValues(n: ULong)
    ensures Apply(LessThan, n, 3) == Truth(n < 3) && Apply(GreaterThan, n, 3) == Truth(n > 3)
    ensures Apply(LessOrEqual, n, 3) == Truth(n <= 3) && Apply(GreaterOrEqual, n, 3) == Truth(n >= 3)
    ensures Apply(Equal, n, 3) == Truth(n == 3) && Apply(NotEqual, n, 3) == Truth(n != 3)
  {
  }

  lemma ComparisonRule(n: ULong)
    ensures Value("n<3;", n) == Truth(n < 3) && Value("n>3;", n) == Truth(n > 3)
    ensures Value("n<=3;", n) == Truth(n <= 3) && Value("n>=3;", n) == Truth(n >= 3)
    ensures Value("n==3;", n) == Truth(n == 3) && Value("n!=3;", n) == Truth(n != 3)
  {
    hide *;
    ComparisonTexts();
    SignOps();
    ComparisonValues(n);
    CountValue(LessThan, "<", n);
    CountValue(GreaterThan, ">", n);
    CountValue(LessOrEqual, "<=", n);
    CountValue(GreaterOrEqual, ">=", n);
    CountValue(Equal, "==", n);
    CountValue(NotEqual, "!=", n);
  }

  lemma WritesOn(s: string, c: Syntax, op: BinOp, word: string, k: ULong, digits: string)
    requires Writes(s, c) && word == OpText(op) && digits == DecimalText(k)
    ensures Writes(s + word + digits, Infix(op, c, Literal(k)))
  {
    hide Writes, DecimalText, OpText;
    Blanks();
    WritesNumber("", k, digits);
    assert "" + digits == digits && s + "" == s;
    WritesInfix(s, c, "", op, word, digits, Literal(k));
  }

  /** Negation, which comes before everything else. */
  lemma NotRule(n: ULong)
    ensures Value("!n;", n) == Truth(n == 0) && Value("!n==3;", n) == Number(0)
  {
    NotValue(n);
    assert 3 < ULONG_MOD;
    hide *;
    Blanks();
    NotTexts();
    SignOps();
    WritesName("");
    WritesBang("", "n", Name);
    WritesOn("!n", Bang(Name), Equal, "==", 3, "3");
    ValueOf("!n", Bang(Name), n);
    ValueOf("!n" + "==" + "3", Infix(Equal, Bang(Name), Literal(3)), n);
  }

  lemma NotTexts()
    ensures "" + "n" == "n" && "" + "!" + "n" == "!n" && "!n" + ";" == "!n;" && "!n" + "==" + "3" + ";" == "!n==3;"
  {
  }

  lemma NotValue(n: ULong)
    ensures Eval(Tree(Bang(Name)), n) == Truth(n == 0) && Derives(Bang(Name), 0)
    ensures Eval(Tree(Infix(Equal, Bang(Name), Literal(3))), n) == Number(0)
    ensures Derives(Infix(Equal, Bang(Name), Literal(3)), 0) && DecimalText(3) == "3"
  {
    assert Eval(Tree(Literal(3)), n) == Number(3);
  }

  // ----- precedence, from text -----

  /** Multiplication before addition, on whatever side. */
  lemma TimesBeforePlus(n: ULong)
    requires n * 2 + 1 < ULONG_MOD
    ensures Value("n*2+1;", n) == Number(n * 2 + 1) && Value("1+n*2;", n) == Number(1 + n * 2)
  {
    assert 2 < ULONG_MOD;
    hide *;
    Blanks();
    SmallNumerals();
    SignOps();
    SumTexts();
    TwiceValue(n);
    CountTree(Mult, 2);
    var twice := Count(Mult, 2);
    SumDerives(twice);
    WritesCount("n*2", Mult, "*", "", 2, "2");
    WritesOn("n*2", twice, Plus, "+", 1, "1");
    WritesNumber("", 1, "1");
    WritesInfix("1", Literal(1), "", Plus, "+", "n*2", twice);
    ValueOf("n*2" + "+" + "1", Infix(Plus, twice, Literal(1)), n);
    ValueOf("1" + "" + "+" + "n*2", Infix(Plus, Literal(1), twice), n);
  }

  lemma SumTexts()
    ensures "" + "1" == "1" && "n*2" == "n" + "" + "*" + "" + "2"
    ensures "n*2" + "+" + "1" + ";" == "n*2+1;" && "1" + "" + "+" + "n*2" + ";" == "1+n*2;"
  {
  }

  lemma SumDerives(c: Syntax)
    requires Derives(c, Level(Mult))
    ensures Derives(Infix(Plus, c, Literal(1)), 0) && Derives(Infix(Plus, Literal(1), c), 0)
  {
    DerivesWeaken(c, Level(Mult), Level(Plus));
  }

  lemma TwiceValue(n: ULong)
    requires n * 2 + 1 < ULONG_MOD
    ensures Eval(Tree(Infix(Plus, Count(Mult, 2), Literal(1))), n) == Number(n * 2 + 1)
    ensures Eval(Tree(Infix(Plus, Literal(1), Count(Mult, 2))), n) == Number(1 + n * 2)
  {
    assert Eval(Tree(Count(Mult, 2)), n) == Number(n * 2);
    assert Eval(Tree(Literal(1)), n) == Number(1);
  }

  /** Subtraction associates to the left, arithmetic comes before comparison, and comparison before equality. */
  lemma OrderRule(n: ULong)
    requires n >= 3
    ensures Value("n-2-1;", n) == Number(n - 3)
    ensures Value("n-2>1;", n) == Truth(n > 3)
    ensures Value("n>1==0;", n) == Truth(n <= 1)
  {
    assert 2 < ULONG_MOD;
    hide *;
    Blanks();
    SmallNumerals();
    SignOps();
    OrderTexts();
    OrderValues(n);
    CountTree(Minus, 2);
    CountTree(GreaterThan, 1);
    OrderDerives(Count(Minus, 2), Count(GreaterThan, 1));
    WritesCount("n-2", Minus, "-", "", 2, "2");
    WritesCount("n>1", GreaterThan, ">", "", 1, "1");
    WritesOn("n-2", Count(Minus, 2), Minus, "-", 1, "1");
    WritesOn("n-2", Count(Minus, 2), GreaterThan, ">", 1, "1");
    WritesOn("n>1", Count(GreaterThan, 1), Equal, "==", 0, "0");
    ValueOf("n-2" + "-" + "1", Infix(Minus, Count(Minus, 2), Literal(1)), n);
    ValueOf("n-2" + ">" + "1", Infix(GreaterThan, Count(Minus, 2), Literal(1)), n);
    ValueOf("n>1" + "==" + "0", Infix(Equal, Count(GreaterThan, 1), Literal(0)), n);
  }

  lemma OrderTexts()
    ensures "n-2" == "n" + "" + "-" + "" + "2" && "n>1" == "n" + "" + ">" + "" + "1"
    ensures "n-2" + "-" + "1" + ";" == "n-2-1;" && "n-2" + ">" + "1" + ";" == "n-2>1;"
    ensures "n>1" + "==" + "0" + ";" == "n>1==0;"
  {
  }

  lemma OrderDerives(less: Syntax, more: Syntax)
    requires Derives(less, Level(Minus)) && Derives(more, Level(GreaterThan))
    ensures Derives(Infix(Minus, less, Literal(1)), 0) && Derives(Infix(GreaterThan, less, Literal(1)), 0)
    ensures Derives(Infix(Equal, more, Literal(0)), 0)
  {
    DerivesWeaken(less, Level(Minus), Level(GreaterThan));
    DerivesWeaken(more, Level(GreaterThan), Level(Equal));
  }

  lemma OrderValues(n: ULong)
    requires n >= 3
    ensures Eval(Tree(Infix(Minus, Count(Minus, 2), Literal(1))), n) == Number(n - 3)
    ensures Eval(Tree(Infix(GreaterThan, Count(Minus, 2), Literal(1))), n) == Truth(n > 3)
    ensures Eval(Tree(Infix(Equal, Count(GreaterThan, 1), Literal(0))), n) == Truth(n <= 1)
  {
    assert Eval(Tree(Count(Minus, 2)), n) == Number(n - 2) && Eval(Tree(Count(GreaterThan, 1)), n) == Truth(n > 1);
    assert Eval(Tree(Literal(1)), n) == Number(1) && Eval(Tree(Literal(0)), n) == Number(0);
  }

  // ----- the Slavic rule -----

  /** `n%k OP m`. */
  function Test(k: ULong, op: BinOp, m: ULong): Syntax { Infix(op, Infix(Module, Name, Literal(k)), Literal(m)) }

  lemma WritesTest(s: string, lead: string, k: ULong, kd: string, op: BinOp, word: string, m: ULong, md: string)
    requires IsBlanks(lead) && kd == DecimalText(k) && md == DecimalText(m) && word == OpText(op)
    requires s == lead + "n" + "%" + kd + word + md
    ensures Writes(s, Test(k, op, m))
  {
    hide Writes, DecimalText, OpText;
    assert OpText(Module) == "%" by { ModuleText(); }
    WritesName(lead);
    WritesNumber("", k, kd);
    WritesNumber("", m, md);
    assert "" + kd == kd && "" + md == md;
    var rem := lead + "n" + "" + "%" + kd;
    WritesInfix(lead + "n", Name, "", Module, "%", kd, Literal(k));
    assert rem == lead + "n" + "%" + kd && rem + "" == rem;
    WritesInfix(rem, Infix(Module, Name, Literal(k)), "", op, word, md, Literal(m));
  }

  lemma ModuleText()
    ensures OpText(Module) == "%"
  {
  }

  lemma RemainderValue(k: ULong, n: ULong)
    requires k != 0
    ensures Eval(Bin(Module, Var, Num(k)), n) == Number(n % k)
  {
  }

  lemma TestTree(k: ULong, op: BinOp, m: ULong)
    ensures Tree(Test(k, op, m)) == Bin(op, Bin(Module, Var, Num(k)), Num(m))
  {
    assert Tree(Infix(Module, Name, Literal(k))) == Bin(Module, Var, Num(k));
  }

  lemma StrictValue(op: BinOp, l: Expr, r: Expr, a: ULong, b: ULong, n: ULong)
    requires op != LAnd && op != LOr && Eval(l, n) == Number(a) && Eval(r, n) == Number(b)
    ensures Eval(Bin(op, l, r), n) == Apply(op, a, b)
  {
    hide Apply;
  }

  /** The value of a test. */
  lemma TestValue(k: ULong, op: BinOp, m: ULong, n: ULong)
    requires k != 0 && op != LAnd && op != LOr
    ensures Eval(Tree(Test(k, op, m)), n) == Apply(op, n % k, m)
  {
    RemainderValue(k, n);
    assert Eval(Num(m), n) == Number(m);
    hide *;
    TestTree(k, op, m);
    StrictValue(op, Bin(Module, Var, Num(k)), Num(m), n % k, m, n);
  }

  const ONE: Syntax := Infix(LAnd, Test(10, Equal, 1), Test(100, NotEqual, 11))
  const FEW: Syntax :=
    Infix(LAnd, Infix(LAnd, Test(10, GreaterOrEqual, 2), Test(10, LessOrEqual, 4)),
          Paren(Infix(LOr, Test(100, LessThan, 10), Test(100, GreaterOrEqual, 20))))
  const SLAVIC: Syntax := Ternary(ONE, Literal(0), Ternary(FEW, Literal(1), Literal(2)))

  const ONE_TEXT := "n%10==1" + " " + "&&" + " n%100!=11"
  const UNITS_TEXT := " n%10>=2" + " " + "&&" + " n%10<=4"
  const TENS_TEXT := " " + "(" + ("n%100<10" + " " + "||" + " n%100>=20") + ")"
  const FEW_TEXT := UNITS_TEXT + " " + "&&" + TENS_TEXT
  const SLAVIC_TEXT := ONE_TEXT + " ?" + " 0" + " :" + (FEW_TEXT + " ?" + " 1" + " :" + " 2")

  lemma WritesOne()
    ensures Writes(ONE_TEXT, ONE)
  {
    hide Writes, DecimalText;
    SmallNumerals();
    WritesTest("n%10==1", "", 10, "10", Equal, "==", 1, "1");
    WritesTest(" n%100!=11", " ", 100, "100", NotEqual, "!=", 11, "11");
    WritesInfix("n%10==1", Test(10, Equal, 1), " ", LAnd, "&&", " n%100!=11", Test(100, NotEqual, 11));
  }

  lemma WritesTens()
    ensures Writes(TENS_TEXT, Paren(Infix(LOr, Test(100, LessThan, 10), Test(100, GreaterOrEqual, 20))))
  {
    hide Writes, DecimalText;
    SmallNumerals();
    WritesTest("n%100<10", "", 100, "100", LessThan, "<", 10, "10");
    WritesTest(" n%100>=20", " ", 100, "100", GreaterOrEqual, ">=", 20, "20");
    var low, high := Test(100, LessThan, 10), Test(100, GreaterOrEqual, 20);
    WritesInfix("n%100<10", low, " ", LOr, "||", " n%100>=20", high);
    WritesParen(" ", "n%100<10" + " " + "||" + " n%100>=20", Infix(LOr, low, high));
  }

  lemma WritesUnits()
    ensures Writes(UNITS_TEXT, Infix(LAnd, Test(10, GreaterOrEqual, 2), Test(10, LessOrEqual, 4)))
  {
    hide Writes, DecimalText;
    SmallNumerals();
    WritesTest(" n%10>=2", " ", 10, "10", GreaterOrEqual, ">=", 2, "2");
    WritesTest(" n%10<=4", " ", 10, "10", LessOrEqual, "<=", 4, "4");
    WritesInfix(" n%10>=2", Test(10, GreaterOrEqual, 2), " ", LAnd, "&&", " n%10<=4", Test(10, LessOrEqual, 4));
  }

  lemma WritesFew()
    ensures Writes(FEW_TEXT, FEW)
  {
    hide Writes, Test;
    WritesUnits();
    WritesTens();
    var units := Infix(LAnd, Test(10, GreaterOrEqual, 2), Test(10, LessOrEqual, 4));
    var tens := Paren(Infix(LOr, Test(100, LessThan, 10), Test(100, GreaterOrEqual, 20)));
    WritesInfix(UNITS_TEXT, units, " ", LAnd, "&&", TENS_TEXT, tens);
  }

  lemma WritesSlavic()
    ensures Writes(SLAVIC_TEXT, SLAVIC)
  {
    hide Writes, DecimalText;
    SmallNumerals();
    WritesNumber(" ", 0, "0");
    WritesNumber(" ", 1, "1");
    WritesNumber(" ", 2, "2");
    assert " " + "0" == " 0" && " " + "1" == " 1" && " " + "2" == " 2";
    WritesOne();
    WritesFew();
    WritesTernary(FEW_TEXT, FEW, " 1", Literal(1), " 2", Literal(2));
    WritesTernary(ONE_TEXT, ONE, " 0", Literal(0), FEW_TEXT + " ?" + " 1" + " :" + " 2",
                  Ternary(FEW, Literal(1), Literal(2)));
  }

  lemma TestDerives(k: ULong, op: BinOp, m: ULong, lvl: nat)
    requires 3 <= Level(op) <= 4 && lvl <= Level(op)
    ensures Derives(Test(k, op, m), lvl)
  {
    RemainderDerives(k, Level(op));
    assert Derives(Literal(m), Level(op) + 1);
  }

  lemma RemainderDerives(k: ULong, lvl: nat)
    requires lvl <= 6
    ensures Derives(Infix(Module, Name, Literal(k)), lvl)
  {
    assert Level(Module) == 6 && Derives(Name, 6) && Derives(Literal(k), 7);
  }

  lemma OneDerives()
    ensures Derives(ONE, 1)
  {
    TestDerives(10, Equal, 1, 2);
    TestDerives(100, NotEqual, 11, 3);
    hide Test;
  }

  lemma FewDerives()
    ensures Derives(FEW, 1)
  {
    TestDerives(10, GreaterOrEqual, 2, 2);
    TestDerives(10, LessOrEqual, 4, 3);
    TestDerives(100, LessThan, 10, 1);
    TestDerives(100, GreaterOrEqual, 20, 2);
    hide Test;
    var tens := Infix(LOr, Test(100, LessThan, 10), Test(100, GreaterOrEqual, 20));
    assert Derives(tens, 0);
    assert Derives(Paren(tens), 3);
    assert Derives(Infix(LAnd, Test(10, GreaterOrEqual, 2), Test(10, LessOrEqual, 4)), 2);
  }

  lemma SlavicDerives()
    ensures Derives(SLAVIC, 0)
  {
    OneDerives();
    FewDerives();
  }

  lemma OneValue(n: ULong)
    ensures Eval(Tree(ONE), n) == Truth(n % 10 == 1 && n % 100 != 11)
  {
    TestValue(10, Equal, 1, n);
    TestValue(100, NotEqual, 11, n);
    hide Eval, Tree, Test;
    BothValue(Test(10, Equal, 1), Test(100, NotEqual, 11), n % 10 == 1, n % 100 != 11, n);
  }

  /** Conditions joined by `&&` and `||`. */
  lemma BothValue(l: Syntax, r: Syntax, p: bool, q: bool, n: ULong)
    requires Eval(Tree(l), n) == Truth(p) && Eval(Tree(r), n) == Truth(q)
    ensures Eval(Tree(Infix(LAnd, l, r)), n) == Truth(p && q) && Eval(Tree(Infix(LOr, l, r)), n) == Truth(p || q)
  {
  }

  lemma ParenTree(c: Syntax)
    ensures Tree(Paren(c)) == Tree(c)
  {
  }

  lemma FewValue(n: ULong)
    ensures Eval(Tree(FEW), n) == Truth(2 <= n % 10 <= 4 && (n % 100 < 10 || 20 <= n % 100))
  {
    hide Eval, Tree, Test;
    var units := Infix(LAnd, Test(10, GreaterOrEqual, 2), Test(10, LessOrEqual, 4));
    var tens := Infix(LOr, Test(100, LessThan, 10), Test(100, GreaterOrEqual, 20));
    TestValue(10, GreaterOrEqual, 2, n);
    TestValue(10, LessOrEqual, 4, n);
    TestValue(100, LessThan, 10, n);
    TestValue(100, GreaterOrEqual, 20, n);
    ParenTree(tens);
    BothValue(Test(10, GreaterOrEqual, 2), Test(10, LessOrEqual, 4), n % 10 >= 2, n % 10 <= 4, n);
    BothValue(Test(100, LessThan, 10), Test(100, GreaterOrEqual, 20), n % 100 < 10, n % 100 >= 20, n);
    BothValue(units, Paren(tens), n % 10 >= 2 && n % 10 <= 4, n % 100 < 10 || n % 100 >= 20, n);
  }

  lemma CondValue(b: Syntax, y: Syntax, z: Syntax, p: bool, n: ULong)
    requires Eval(Tree(b), n) == Truth(p)
    ensures Eval(Tree(Ternary(b, y, z)), n) == if p then Eval(Tree(y), n) else Eval(Tree(z), n)
  {
  }

  lemma LiteralValue(k: ULong, n: ULong)
    ensures Eval(Tree(Literal(k)), n) == Number(k)
  {
  }

  /** As for Russian or Croatian: one form for 1, 21, 31 and so on, one for 2 to 4, 22 to 24 and so on, and one for all
      other counts. */
  lemma SlavicRule(n: ULong)
    ensures Compile(SLAVIC_TEXT + ";") == ExpValue(Tree(SLAVIC))
    ensures Eval(Tree(SLAVIC), n) == Number(
              if n % 10 == 1 && n % 100 != 11 then 0
              else if 2 <= n % 10 <= 4 && (n % 100 < 10 || 20 <= n % 100) then 1
              else 2)
  {
    hide Writes, Compile;
    WritesSlavic();
    SlavicDerives();
    Compiles(SLAVIC_TEXT, SLAVIC, ";");
    hide Eval, Tree;
    OneValue(n);
    FewValue(n);
    LiteralValue(0, n);
    LiteralValue(1, n);
    LiteralValue(2, n);
    var few := 2 <= n % 10 <= 4 && (n % 100 < 10 || 20 <= n % 100);
    CondValue(FEW, Literal(1), Literal(2), few, n);
    CondValue(ONE, Literal(0), Ternary(FEW, Literal(1), Literal(2)), n % 10 == 1 && n % 100 != 11, n);
  }

  /** The form that a rule's text chooses from a translation that holds all the forms announced. */
  ghost function Form(text: string, forms: nat, n: ULong): int
  {
    match Compile(text)
    case ExpValue(e) => (match Eval(e, n) case Number(v) => Chosen(v, forms, forms) case DivisionByZero => -1)
    case _ => -1
  }

  lemma FormsChosen(n: ULong)
    ensures Form("n != 1;", 2, n) == if n == 1 then 0 else 1
    ensures Form("n > 1;", 2, n) == if n <= 1 then 0 else 1
    ensures Form(SLAVIC_TEXT + ";", 3, n) ==
              if n % 10 == 1 && n % 100 != 11 then 0
              else if 2 <= n % 10 <= 4 && (n % 100 < 10 || 20 <= n % 100) then 1
              else 2
  {
    hide Compile, Eval;
    GermanicRule(n);
    RomanceRule(n);
    SlavicRule(n);
  }
}
