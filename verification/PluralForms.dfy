/** Choosing the plural form: evaluating the expression for a count, and walking to that variant of the
    translation. */
module PluralForms {
  import opened PluralGrammar

  datatype Evaluated = Number(n: ULong) | DivisionByZero

  function Truth(b: bool): Evaluated { Number(if b then 1 else 0) }

  /** A strict binary operator on `unsigned long` operands. */
  function Apply(op: BinOp, a: ULong, b: ULong): Evaluated
  {
    match op
    case Mult => Number(a * b % ULONG_MOD)
    case Divide => if b == 0 then DivisionByZero else Number(a / b)
    case Module => if b == 0 then DivisionByZero else Number(a % b)
    case Plus => Number((a + b) % ULONG_MOD)
    case Minus => Number((a - b) % ULONG_MOD)
    case LessThan => Truth(a < b)
    case GreaterThan => Truth(a > b)
    case LessOrEqual => Truth(a <= b)
    case GreaterOrEqual => Truth(a >= b)
    case Equal => Truth(a == b)
    case NotEqual => Truth(a != b)
    case LAnd => Truth(a != 0 && b != 0)
    case LOr => Truth(a != 0 || b != 0)
  }

  /** `plural_eval`: `&&`, `||` and `?:` evaluate only the operands they need. */
  function Eval(e: Expr, n: ULong): Evaluated
  {
    match e
    case Var => Number(n)
    case Num(k) => Number(k)
    case Not(x) =>
      (match Eval(x, n) case Number(a) => Truth(a == 0) case DivisionByZero => DivisionByZero)
    case Cond(b, y, z) =>
      (match Eval(b, n) case Number(a) => Eval(if a != 0 then y else z, n) case DivisionByZero => DivisionByZero)
    case Bin(op, l, r) =>
      match Eval(l, n)
      case DivisionByZero => DivisionByZero
      case Number(a) =>
        if op == LOr && a != 0 then Truth(true)
        else if op == LAnd && a == 0 then Truth(false)
        else
          match Eval(r, n)
          case DivisionByZero => DivisionByZero
          case Number(b) => Apply(op, a, b)
  }

  /** A translation holds its variants one after another, each closed by a NUL. */
  function Packed(variants: seq<string>): string
  {
    if variants == [] then "" else variants[0] + ['\0'] + Packed(variants[1..])
  }

  predicate IsVariant(s: string) { '\0' !in s }

  predicate AreVariants(vs: seq<string>) { forall i :: 0 <= i < |vs| ==> IsVariant(vs[i]) }

  lemma {:induction false} PackedFrom(vs: seq<string>, k: nat)
    requires k <= |vs|
    ensures Packed(vs) == Packed(vs[..k]) + Packed(vs[k..])
  {
    if k == 0 {
      assert vs[0..] == vs;
    } else {
      assert vs[1..][..k - 1] == vs[..k][1..];
      PackedFrom(vs[1..], k - 1);
    }
  }

  lemma PackedNext(vs: seq<string>, k: nat)
    requires k < |vs|
    ensures Packed(vs[..k + 1]) == Packed(vs[..k]) + (vs[k] + ['\0'])
    ensures Packed(vs) == Packed(vs[..k]) + (vs[k] + ['\0'] + Packed(vs[k + 1..]))
  {
    PackedFrom(vs, k);
    assert vs[k..][1..] == vs[k + 1..];
    PackedUpTo(vs, k);
  }

  lemma PackedUpTo(vs: seq<string>, k: nat)
    requires k < |vs|
    ensures Packed(vs[..k + 1]) == Packed(vs[..k]) + (vs[k] + ['\0'])
  {
    PackedFrom(vs[..k + 1], k);
    assert vs[..k + 1][..k] == vs[..k] && vs[..k + 1][k..] == [vs[k]];
    assert Packed([vs[k]]) == vs[k] + ['\0'] + Packed([]);
  }

  /** Position of the first NUL at or after `p`. */
  method FindNul(data: string, p: nat, ghost variant: string, ghost rest: string) returns (q: nat)
    requires p <= |data| && data[p..] == variant + ['\0'] + rest && IsVariant(variant)
    ensures q == p + |variant|
  {
    q := p;
    while data[q] != '\0'
      invariant p <= q <= p + |variant| < |data|
      decreases p + |variant| - q
    {
      assert data[q] == data[p..][q - p];
      q := q + 1;
    }
    assert data[q] == data[p..][q - p];
  }

  /** Which variant the lookup yields: the evaluated one when the catalogue announces and holds it, else
      the first. */
  function Chosen(index: ULong, nplurals: nat, held: nat): nat
  {
    if index < nplurals && index < held then index else 0
  }

  /** `plural_lookup`: the offset of the chosen variant within the translation. */
  method PluralLookup(plural: Expr, nplurals: nat, n: ULong, data: string, ghost variants: seq<string>)
    returns (outcome: Evaluated, p: nat)
    requires variants != [] && AreVariants(variants) && data == Packed(variants)
    ensures outcome == Eval(plural, n)
    ensures p <= |data|
    ensures outcome.Number? ==>
              var k := Chosen(outcome.n, nplurals, |variants|);
              data[p..] == variants[k] + ['\0'] + Packed(variants[k + 1..]) && p == |Packed(variants[..k])|
    ensures outcome.Number? && (outcome.n >= nplurals || outcome.n >= |variants|) ==> p == 0
    ensures outcome.Number? && outcome.n < nplurals && outcome.n < |variants| ==>
              variants[outcome.n] + ['\0'] <= data[p..]
  {
    outcome := Eval(plural, n);
    p := 0;
    if outcome.DivisionByZero? { return; }
    var index: nat := if outcome.n >= nplurals then 0 else outcome.n;
    ghost var k := 0;
    PackedNext(variants, 0);
    while index > 0
      invariant 0 <= k < |variants| && p == |Packed(variants[..k])| <= |data|
      invariant index + k == if outcome.n >= nplurals then 0 else outcome.n
      invariant data[p..] == variants[k] + ['\0'] + Packed(variants[k + 1..])
    {
      p := FindNul(data, p, variants[k], Packed(variants[k + 1..]));
      p := p + 1;
      PackedNext(variants, k);
      k, index := k + 1, index - 1;
      if p >= |data| {
        PackedEmpty(variants, k);
        p := 0;
        return;
      }
      assert variants[..|variants|] == variants;
      PackedNext(variants, k);
    }
  }

  lemma PackedEmpty(vs: seq<string>, k: nat)
    requires k <= |vs| && |Packed(vs[..k])| >= |Packed(vs)|
    ensures k == |vs|
  {
    PackedFrom(vs, k);
  }
}
