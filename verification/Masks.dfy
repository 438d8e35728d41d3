/** Bit masks that say which parts of a locale name are present. */
module Masks {
  const CEN_REVISION := 1
  const CEN_SPONSOR := 2
  const CEN_SPECIAL := 4
  const XPG_NORM_CODESET := 8
  const XPG_CODESET := 16
  const TERRITORY := 32
  const CEN_AUDIENCE := 64
  const XPG_MODIFIER := 128

  /** Is the bit of weight `bit` set? */
  predicate Has(mask: nat, bit: nat)
    requires bit > 0
  {
    mask / bit % 2 == 1
  }

  /** `c & ~mask == 0`. */
  predicate Submask(c: nat, mask: nat)
    decreases c
  {
    c == 0 || (c % 2 <= mask % 2 && Submask(c / 2, mask / 2))
  }

  lemma {:induction false} SubmaskIsLess(c: nat, mask: nat)
    requires Submask(c, mask)
    ensures c <= mask
  {
    if c > 0 { SubmaskIsLess(c / 2, mask / 2); }
  }

  lemma {:induction false} SubmaskOfItself(mask: nat)
    ensures Submask(mask, mask)
  {
    if mask > 0 { SubmaskOfItself(mask / 2); }
  }

  /** Does not mix the two syntaxes, nor the two codesets. */
  predicate Admissible(c: nat)
  {
    && !((Has(c, CEN_REVISION) || Has(c, CEN_SPONSOR) || Has(c, CEN_SPECIAL) || Has(c, CEN_AUDIENCE))
         && (Has(c, XPG_CODESET) || Has(c, XPG_NORM_CODESET) || Has(c, XPG_MODIFIER)))
    && !(Has(c, XPG_CODESET) && Has(c, XPG_NORM_CODESET))
  }

  predicate Eligible(c: nat, mask: nat) { Submask(c, mask) && Admissible(c) }

  // ----- the masks that the fallback list goes through -----

  /** The eligible masks up to `top`, downward. */
  function Chosen(mask: nat, top: int): seq<nat>
    decreases top
  {
    if top < 0 then [] else (if Eligible(top, mask) then [top] else []) + Chosen(mask, top - 1)
  }

  lemma {:induction false} ChosenExactly(mask: nat, top: int, c: nat)
    ensures c in Chosen(mask, top) <==> c <= top && Eligible(c, mask)
    decreases top
  {
    if top >= 0 { ChosenExactly(mask, top - 1, c); }
  }

  predicate Falling(s: seq<nat>)
  {
    forall i, j :: 0 <= i < j < |s| ==> s[i] > s[j]
  }

  lemma {:induction false} ChosenFalls(mask: nat, top: int)
    ensures Falling(Chosen(mask, top))
    decreases top
  {
    if top >= 0 {
      ChosenFalls(mask, top - 1);
      var rest := Chosen(mask, top - 1);
      forall j | 0 <= j < |rest|
        ensures rest[j] < top
      {
        ChosenExactly(mask, top - 1, rest[j]);
      }
    }
  }

  // ----- counting submasks -----

  /** The number of bits. */
  function Pop(mask: nat): nat
    decreases mask
  {
    if mask == 0 then 0 else mask % 2 + Pop(mask / 2)
  }

  function Power(n: nat): nat
  {
    if n == 0 then 1 else 2 * Power(n - 1)
  }

  /** How many numbers below `n` are submasks. */
  function Submasks(mask: nat, n: nat): nat
  {
    if n == 0 then 0 else Submasks(mask, n - 1) + if Submask(n - 1, mask) then 1 else 0
  }

  lemma {:induction false} SubmasksDouble(mask: nat, n: nat)
    ensures Submasks(mask, 2 * n) == (1 + mask % 2) * Submasks(mask / 2, n)
  {
    if n > 0 {
      SubmasksDouble(mask, n - 1);
      var e := 2 * (n - 1);
      assert Submasks(mask, 2 * n) == Submasks(mask, e) + (if Submask(e, mask) then 1 else 0)
                                      + (if Submask(e + 1, mask) then 1 else 0);
      EvenOdd(n - 1, mask);
    } else {
      assert Submasks(mask / 2, 0) == 0;
    }
  }

  lemma EvenOdd(h: nat, mask: nat)
    ensures Submask(2 * h, mask) == Submask(h, mask / 2)
    ensures Submask(2 * h + 1, mask) == (mask % 2 == 1 && Submask(h, mask / 2))
  {
    assert (2 * h) / 2 == h && (2 * h + 1) / 2 == h && (2 * h + 1) % 2 == 1;
  }

  /** Above the mask nothing more counts. */
  lemma {:induction false} SubmasksStop(mask: nat, n: nat)
    requires n > mask
    ensures Submasks(mask, n) == Submasks(mask, mask + 1)
  {
    if n > mask + 1 {
      SubmasksStop(mask, n - 1);
      if Submask(n - 1, mask) { SubmaskIsLess(n - 1, mask); }
    }
  }

  lemma PowerStep(bit: nat, n: nat)
    requires bit <= 1
    ensures Power(bit + n) == (1 + bit) * Power(n)
  {
  }

  /** A mask has two submasks for each of its bits. */
  lemma {:induction false} SubmasksArePower(mask: nat)
    ensures Submasks(mask, mask + 1) == Power(Pop(mask))
  {
    if mask == 0 {
      assert Submasks(0, 1) == Submasks(0, 0) + 1;
    } else {
      var h := mask / 2;
      SubmasksArePower(h);
      SubmasksDouble(mask, h + 1);
      SubmasksStop(mask, 2 * (h + 1));
      assert Power(Pop(mask)) == (1 + mask % 2) * Power(Pop(h)) by { PowerStep(mask % 2, Pop(h)); }
    }
  }

  lemma {:induction false} ChosenAreSubmasks(mask: nat, top: int)
    requires top >= -1
    ensures |Chosen(mask, top)| <= Submasks(mask, top + 1)
    decreases top
  {
    if top >= 0 { ChosenAreSubmasks(mask, top - 1); }
  }

  /** The fallback masks never outnumber the submasks, nor the proper ones when the mask itself is left out. */
  lemma ChosenFit(mask: nat)
    ensures |Chosen(mask, mask)| <= Power(Pop(mask))
    ensures |Chosen(mask, mask - 1)| <= Power(Pop(mask)) - 1
  {
    hide Chosen, Power, Pop, Submask;
    SubmasksArePower(mask);
    ChosenAreSubmasks(mask, mask);
    ChosenAreSubmasks(mask, mask - 1);
    SubmaskOfItself(mask);
  }

  // ----- counting bits in a word -----

  /** `pop`, in 16 bits. */
  function PopWord(x: bv16): bv16
  {
    var a := ((x & !0x5555) >> 1) + (x & 0x5555);
    var b := ((a & !0x3333) >> 2) + (a & 0x3333);
    var c := ((b >> 4) + b) & 0x0f0f;
    ((c >> 8) + c) & 0xff
  }

  /** Are the bits of `w` among those of `l`? */
  predicate Under(w: bv16, l: bv16)
  {
    w & !l == 0
  }

  function AppendBit(w: bv16, bit: bv16): bv16
  {
    (w << 1) | bit
  }

  function LastBit(n: nat): bv16
  {
    if n % 2 == 1 then 1 else 0
  }

  /** The word with the binary digits of a number. */
  function Word(n: nat): bv16
  {
    if n == 0 then 0 else AppendBit(Word(n / 2), LastBit(n))
  }

  /** A word of `k` ones. */
  function Ones(k: nat): bv16
  {
    if k == 0 then 0 else AppendBit(Ones(k - 1), 1)
  }

  lemma Appended(w: bv16, l: bv16, bit: bv16, x: bv16, m: bv16)
    requires bit <= 1 && Under(w, l) && x == AppendBit(w, bit) && m == AppendBit(l, 1)
    ensures Under(x, m)
  {
  }

  lemma NothingUnder(l: bv16)
    ensures Under(0, l)
  {
  }

  lemma {:induction false} WordFits(n: nat, k: nat)
    requires n < Power(k)
    ensures Under(Word(n), Ones(k))
  {
    if n == 0 {
      NothingUnder(Ones(k));
    } else {
      WordFits(n / 2, k - 1);
      Appended(Word(n / 2), Ones(k - 1), LastBit(n), Word(n), Ones(k));
    }
  }

  lemma HalfFits(n: nat)
    requires n < 0x1_0000
    ensures Word(n / 2) & 0x8000 == 0
  {
    assert Power(5) == 32 && Power(10) == 1024 && Power(15) == 0x8000;
    assert Ones(5) == 0x1f && Ones(10) == 0x3ff && Ones(15) == 0x7fff;
    WordFits(n / 2, 15);
  }

  /** The bits of each digit counted, and the four digits added up. */
  function DigitCounts(x: bv16): bv16
  {
    (x & 0x1111) + ((x >> 1) & 0x1111) + ((x >> 2) & 0x1111) + ((x >> 3) & 0x1111)
  }

  function DigitSum(n: bv16): bv16 { (n & 15) + ((n >> 4) & 15) + ((n >> 8) & 15) + (n >> 12) }

  lemma PopWordByDigits(x: bv16)
    ensures PopWord(x) == DigitSum(DigitCounts(x))
  {
  }

  lemma DigitsHalve(x: bv16)
    ensures DigitSum(DigitCounts(x)) == (x & 1) + DigitSum(DigitCounts(x >> 1))
  {
  }

  lemma PopWordHalves(x: bv16)
    ensures PopWord(x) == (x & 1) + PopWord(x >> 1)
  {
    hide PopWord, DigitSum, DigitCounts;
    PopWordByDigits(x);
    PopWordByDigits(x >> 1);
    DigitsHalve(x);
  }

  lemma CutBit(w: bv16, bit: bv16, x: bv16)
    requires bit <= 1 && w & 0x8000 == 0 && x == AppendBit(w, bit)
    ensures x >> 1 == w && x & 1 == bit
  {
  }

  lemma PopWordSmall(w: bv16)
    requires w & 0x8000 == 0
    ensures PopWord(w) <= 15
  {
  }

  lemma PopWordAppends(w: bv16, bit: bv16, x: bv16)
    requires bit <= 1 && w & 0x8000 == 0 && x == AppendBit(w, bit)
    ensures PopWord(w) <= 15 && PopWord(x) == PopWord(w) + bit
  {
    CutBit(w, bit, x);
    PopWordHalves(x);
    PopWordSmall(w);
  }

  lemma Successor(y: bv16)
    requires y <= 15
    ensures (y + 1) as nat == y as nat + 1
  {
  }

  /** The shifts and sums count the bits of any 16-bit mask. */
  lemma {:induction false} PopWordCounts(n: nat)
    requires n < 0x1_0000
    ensures PopWord(Word(n)) as nat == Pop(n)
  {
    if n > 0 {
      HalfFits(n);
      PopWordCounts(n / 2);
      PopWordAppends(Word(n / 2), LastBit(n), Word(n));
      Successor(PopWord(Word(n / 2)));
    }
  }

  lemma AndNotAppends(w: bv16, v: bv16, bit: bv16, other: bv16)
    requires bit <= 1 && other <= 1
    ensures AppendBit(w, bit) & !AppendBit(v, other) == AppendBit(w & !v, bit & !other)
  {
  }

  lemma AppendsToZero(w: bv16, bit: bv16)
    requires w & 0x8000 == 0 && bit <= 1
    ensures AppendBit(w, bit) == 0 <==> w == 0 && bit == 0
  {
  }

  lemma BitsOfBoth(w: bv16, v: bv16, bit: bv16, other: bv16)
    requires w & 0x8000 == 0 && bit <= 1 && other <= 1
    ensures (w & !v) & 0x8000 == 0 && bit & !other <= 1 && (bit & !other == 0 <==> bit <= other)
  {
  }

  lemma UnderAppends(w: bv16, v: bv16, bit: bv16, other: bv16, x: bv16, y: bv16)
    requires bit <= 1 && other <= 1 && w & 0x8000 == 0 && x == AppendBit(w, bit) && y == AppendBit(v, other)
    ensures Under(x, y) <==> Under(w, v) && bit <= other
  {
    hide AppendBit;
    AndNotAppends(w, v, bit, other);
    BitsOfBoth(w, v, bit, other);
    AppendsToZero(w & !v, bit & !other);
  }

  lemma WordAppends(n: nat)
    ensures Word(n) == AppendBit(Word(n / 2), LastBit(n))
  {
    if n == 0 { assert AppendBit(0, 0) == 0; }
  }

  /** A submask is what the test of the word against the complement of the mask lets through. */
  lemma {:induction false} SubmaskIsUnder(c: nat, mask: nat)
    requires c < 0x1_0000
    ensures Submask(c, mask) <==> Under(Word(c), Word(mask))
    decreases c
  {
    if c == 0 {
      NothingUnder(Word(mask));
    } else {
      HalfFits(c);
      SubmaskIsUnder(c / 2, mask / 2);
      WordAppends(mask);
      UnderAppends(Word(c / 2), Word(mask / 2), LastBit(c), LastBit(mask), Word(c), Word(mask));
    }
  }

  // ----- tests of bits in a word -----

  const CEN_SPECIFIC: bv16 := 71
  const XPG_SPECIFIC: bv16 := 152

  predicate Lowest(w: bv16) { w & 1 != 0 }

  lemma LowestOfBoth(w: bv16, bit: bv16, x: bv16)
    requires bit <= 1 && w & 0x8000 == 0 && x == AppendBit(w, bit)
    ensures x >> 1 == w && (Lowest(x) <==> bit != 0)
  {
  }

  lemma LastBitIsBit(n: nat)
    ensures LastBit(n) <= 1 && (LastBit(n) != 0 <==> n % 2 == 1)
  {
  }

  lemma WordHalves(n: nat)
    requires n < 0x1_0000
    ensures Word(n) >> 1 == Word(n / 2) && (Lowest(Word(n)) <==> n % 2 == 1)
  {
    hide Word, AppendBit, LastBit, Lowest;
    WordAppends(n);
    HalfFits(n);
    LastBitIsBit(n);
    LowestOfBoth(Word(n / 2), LastBit(n), Word(n));
  }

  lemma ShiftedBits(w: bv16)
    ensures (w & 2 != 0 <==> (w >> 1) & 1 != 0) && (w & 4 != 0 <==> (w >> 1) & 2 != 0)
    ensures (w & 8 != 0 <==> (w >> 1) & 4 != 0) && (w & 16 != 0 <==> (w >> 1) & 8 != 0)
    ensures (w & 64 != 0 <==> (w >> 1) & 32 != 0) && (w & 32 != 0 <==> (w >> 1) & 16 != 0)
    ensures w & 128 != 0 <==> (w >> 1) & 64 != 0
  {
  }

  /** The low bits of a number are those of its word. */
  lemma LowBits(n: nat)
    requires n < 0x1_0000
    ensures (Has(n, 1) <==> Word(n) & 1 != 0) && (Has(n, 2) <==> Word(n) & 2 != 0)
    ensures (Has(n, 4) <==> Word(n) & 4 != 0) && (Has(n, 8) <==> Word(n) & 8 != 0)
  {
    hide Word;
    WordHalves(n);
    WordHalves(n / 2);
    WordHalves(n / 2 / 2);
    WordHalves(n / 2 / 2 / 2);
    ShiftedBits(Word(n));
    ShiftedBits(Word(n / 2));
    ShiftedBits(Word(n / 2 / 2));
    assert n / 2 / 2 == n / 4 && n / 4 / 2 == n / 8;
  }

  lemma FourHalves(n: nat)
    requires n < 0x1_0000
    ensures Word(n) >> 1 >> 1 >> 1 >> 1 == Word(n / 16)
  {
    hide Word, Lowest;
    WordHalves(n);
    WordHalves(n / 2);
    WordHalves(n / 4);
    WordHalves(n / 8);
    assert n / 2 / 2 == n / 4 && n / 4 / 2 == n / 8 && n / 8 / 2 == n / 16;
  }

  lemma HighBits(n: nat)
    requires n < 0x1_0000
    ensures (Has(n, 16) <==> Word(n) & 16 != 0) && (Has(n, 32) <==> Word(n) & 32 != 0)
    ensures (Has(n, 64) <==> Word(n) & 64 != 0) && (Has(n, 128) <==> Word(n) & 128 != 0)
  {
    hide Word;
    var m := n / 16;
    FourHalves(n);
    LowBits(m);
    assert m / 2 == n / 32 && m / 4 == n / 64 && m / 8 == n / 128;
    FourShifts(Word(n), Word(m));
  }

  lemma FourShifts(w: bv16, v: bv16)
    requires w >> 1 >> 1 >> 1 >> 1 == v
    ensures (w & 16 != 0 <==> v & 1 != 0) && (w & 32 != 0 <==> v & 2 != 0)
    ensures (w & 64 != 0 <==> v & 4 != 0) && (w & 128 != 0 <==> v & 8 != 0)
  {
  }

  lemma Specific(w: bv16)
    ensures w & CEN_SPECIFIC == 0 <==> w & 1 == 0 && w & 2 == 0 && w & 4 == 0 && w & 64 == 0
    ensures w & XPG_SPECIFIC == 0 <==> w & 8 == 0 && w & 16 == 0 && w & 128 == 0
  {
  }

  /** A mask is admissible if it lets the two tests of its word through. */
  lemma AdmissibleByWord(n: nat)
    requires n < 0x1_0000
    ensures
      var w := Word(n);
      Admissible(n) <==> (w & CEN_SPECIFIC == 0 || w & XPG_SPECIFIC == 0) && (w & 16 == 0 || w & 8 == 0)
  {
    hide Word, Has;
    LowBits(n);
    HighBits(n);
    Specific(Word(n));
  }
}
