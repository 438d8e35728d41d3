/** The subsets a complete round of the tournament plays: all increasing rows of `k` robot numbers, in
    lexicographic order, and the step from one to the next. */
module Combinations {
  type Row = seq<nat>

  /** The binomial coefficient. */
  function Choose(n: nat, k: nat): nat
  {
    if k == 0 then 1 else if n == 0 then 0 else Choose(n - 1, k - 1) + Choose(n - 1, k)
  }

  function Prepend(x: nat, rows: seq<Row>): (r: seq<Row>)
    ensures |r| == |rows| && forall i {:trigger r[i]} :: 0 <= i < |rows| ==> r[i] == [x] + rows[i]
  {
    seq(|rows|, i requires 0 <= i < |rows| => [x] + rows[i])
  }

  /** All strictly increasing rows of `k` numbers from `lo..n`, in lexicographic order. */
  function Subsets(lo: nat, n: nat, k: nat): seq<Row>
    decreases n + 1 - lo
  {
    if k == 0 then [[]]
    else if lo + k > n + 1 then []
    else Prepend(lo, Subsets(lo + 1, n, k - 1)) + Subsets(lo + 1, n, k)
  }

  predicate Increasing(row: Row, lo: nat, n: nat)
  {
    (forall i :: 0 <= i < |row| ==> lo <= row[i] <= n)
    && (forall i, j :: 0 <= i < j < |row| ==> row[i] < row[j])
  }

  /** Lexicographic order. */
  predicate Precedes(a: Row, b: Row)
  {
    a != [] && b != [] && (a[0] < b[0] || (a[0] == b[0] && Precedes(a[1..], b[1..])))
  }

  lemma {:induction false} ChooseTooMany(n: nat, k: nat)
    requires k > n
    ensures Choose(n, k) == 0
  {
    if n > 0 { ChooseTooMany(n - 1, k - 1); ChooseTooMany(n - 1, k); }
  }

  lemma {:induction false} ChoosePositive(n: nat, k: nat)
    requires k <= n
    ensures Choose(n, k) > 0
  {
    if k > 0 { ChoosePositive(n - 1, k - 1); }
  }

  lemma {:induction false} SubsetsCount(lo: nat, n: nat, k: nat)
    requires lo <= n + 1
    ensures |Subsets(lo, n, k)| == Choose(n + 1 - lo, k)
    decreases n + 1 - lo
  {
    if k > 0 {
      if lo + k > n + 1 {
        ChooseTooMany(n + 1 - lo, k);
      } else {
        SubsetsCount(lo + 1, n, k - 1);
        SubsetsCount(lo + 1, n, k);
      }
    }
  }

  lemma {:induction false} SubsetsIncreasing(lo: nat, n: nat, k: nat, i: nat)
    requires i < |Subsets(lo, n, k)|
    ensures |Subsets(lo, n, k)[i]| == k && Increasing(Subsets(lo, n, k)[i], lo, n)
    decreases n + 1 - lo
  {
    hide Subsets, Prepend, Increasing;
    Small(lo, n, k);
    if k == 0 {
      NothingIncreases(lo, n);
    } else {
      var s, x, y := Split(lo, n, k);
      if i < |x| {
        SubsetsIncreasing(lo + 1, n, k - 1, i);
        IncreasingUnder(lo, n, x[i]);
        assert s[i] == [lo] + x[i];
      } else {
        SubsetsIncreasing(lo + 1, n, k, i - |x|);
        IncreasingBelow(lo, n, y[i - |x|]);
        assert s[i] == y[i - |x|];
      }
    }
  }

  lemma NothingIncreases(lo: nat, n: nat)
    ensures Increasing([], lo, n)
  {
  }

  lemma IncreasingUnder(lo: nat, n: nat, row: Row)
    requires Increasing(row, lo + 1, n) && lo <= n
    ensures Increasing([lo] + row, lo, n)
  {
  }

  lemma IncreasingBelow(lo: nat, n: nat, row: Row)
    requires Increasing(row, lo + 1, n)
    ensures Increasing(row, lo, n)
  {
  }

  /** Every increasing row is played. */
  lemma {:induction false} SubsetsComplete(lo: nat, n: nat, k: nat, row: Row)
    requires |row| == k && Increasing(row, lo, n)
    ensures row in Subsets(lo, n, k)
    decreases n + 1 - lo
  {
    hide Subsets, Increasing;
    Small(lo, n, k);
    if k > 0 {
      SpreadOf(row, lo, n);
      NarrowRow(row, lo, n);
      if row[0] == lo {
        SubsetsComplete(lo + 1, n, k - 1, row[1..]);
        RowOfFirst(lo, n, k, row);
      } else {
        SubsetsComplete(lo + 1, n, k, row);
        RowOfRest(lo, n, k, row);
      }
    } else {
      assert row == [];
    }
  }

  lemma RowOfFirst(lo: nat, n: nat, k: nat, row: Row)
    requires k > 0 && lo + k <= n + 1 && row != [] && row[0] == lo && row[1..] in Subsets(lo + 1, n, k - 1)
    ensures row in Subsets(lo, n, k)
  {
    hide Subsets, Prepend;
    var s, x, y := Split(lo, n, k);
    var i :| 0 <= i < |x| && x[i] == row[1..];
    assert s[i] == [lo] + row[1..] == row;
  }

  lemma RowOfRest(lo: nat, n: nat, k: nat, row: Row)
    requires k > 0 && lo + k <= n + 1 && row in Subsets(lo + 1, n, k)
    ensures row in Subsets(lo, n, k)
  {
    hide Subsets, Prepend;
    var s, x, y := Split(lo, n, k);
    assert row in y;
  }

  lemma NarrowRow(row: Row, lo: nat, n: nat)
    requires Increasing(row, lo, n) && row != []
    ensures Increasing(if row[0] == lo then row[1..] else row, lo + 1, n)
  {
    assert forall i :: 1 <= i < |row| ==> row[0] < row[i];
  }

  lemma {:induction false} SpreadOf(row: Row, lo: nat, n: nat)
    requires Increasing(row, lo, n) && row != []
    ensures lo + |row| <= n + 1
  {
    if |row| > 1 {
      assert row[0] < row[1];
      forall i | 0 <= i < |row[1..]| ensures lo + 1 <= row[1..][i] <= n { assert row[0] < row[i + 1]; }
      SpreadOf(row[1..], lo + 1, n);
    }
  }

  lemma {:induction false} SubsetsOrdered(lo: nat, n: nat, k: nat, i: nat, j: nat)
    requires i < j < |Subsets(lo, n, k)|
    ensures Precedes(Subsets(lo, n, k)[i], Subsets(lo, n, k)[j])
    decreases n + 1 - lo
  {
    hide Subsets, Prepend, Increasing, Precedes;
    Small(lo, n, k);
    if k > 0 && lo + k <= n + 1 {
      var s, x, y := Split(lo, n, k);
      if j < |x| {
        SubsetsOrdered(lo + 1, n, k - 1, i, j);
        UnderFirst(lo, x[i], x[j]);
        assert s[i] == [lo] + x[i] && s[j] == [lo] + x[j];
      } else if i < |x| {
        SubsetsIncreasing(lo + 1, n, k, j - |x|);
        FirstBefore(lo, n, x[i], y[j - |x|]);
        assert s[i] == [lo] + x[i] && s[j] == y[j - |x|];
      } else {
        SubsetsOrdered(lo + 1, n, k, i - |x|, j - |x|);
        assert s[i] == y[i - |x|] && s[j] == y[j - |x|];
      }
    }
  }

  lemma UnderFirst(lo: nat, a: Row, b: Row)
    requires Precedes(a, b)
    ensures Precedes([lo] + a, [lo] + b)
  {
    assert ([lo] + a)[1..] == a && ([lo] + b)[1..] == b;
  }

  lemma FirstBefore(lo: nat, n: nat, a: Row, b: Row)
    requires b != [] && Increasing(b, lo + 1, n)
    ensures Precedes([lo] + a, b)
  {
  }

  lemma Small(lo: nat, n: nat, k: nat)
    ensures k == 0 ==> Subsets(lo, n, k) == [[]]
    ensures k > 0 && lo + k > n + 1 ==> Subsets(lo, n, k) == []
  {
  }

  /** The rows that start with `lo`, then the rest. */
  lemma Split(lo: nat, n: nat, k: nat) returns (s: seq<Row>, x: seq<Row>, y: seq<Row>)
    requires k > 0 && lo + k <= n + 1
    ensures s == Subsets(lo, n, k) && x == Subsets(lo + 1, n, k - 1) && y == Subsets(lo + 1, n, k)
    ensures s == Prepend(lo, x) + y
  {
    s, x, y := Subsets(lo, n, k), Subsets(lo + 1, n, k - 1), Subsets(lo + 1, n, k);
  }

  // ----- the step to the next row -----

  function Run(x: nat, len: nat): (r: Row)
    ensures |r| == len && forall i :: 0 <= i < len ==> r[i] == x + i
    decreases len
  {
    if len == 0 then [] else [x] + Run(x + 1, len - 1)
  }

  /** The rightmost position that can still be raised, searching down from `p`; -1 when there is none. */
  function BumpFrom(row: Row, n: nat, p: int): (q: int)
    requires -1 <= p < |row|
    ensures -1 <= q <= p
    decreases p + 1
  {
    if p < 0 then -1 else if row[p] != n + 1 - |row| + p then p else BumpFrom(row, n, p - 1)
  }

  function BumpPos(row: Row, n: nat): int { BumpFrom(row, n, |row| - 1) }

  function Bump(row: Row, n: nat): Row
    requires BumpPos(row, n) >= 0
  {
    var p := BumpPos(row, n);
    row[..p] + Run(row[p] + 1, |row| - p)
  }

  lemma {:induction false} BumpFromShift(x: nat, row: Row, n: nat, p: int)
    requires -1 <= p < |row|
    ensures BumpFrom([x] + row, n, p + 1) == if BumpFrom(row, n, p) >= 0 then BumpFrom(row, n, p) + 1
                                              else if x != n - |row| then 0 else -1
    decreases p + 1
  {
    if p >= 0 {
      assert ([x] + row)[p + 1] == row[p];
      BumpFromShift(x, row, n, p - 1);
    }
  }

  lemma {:induction false} FirstSubset(lo: nat, n: nat, k: nat)
    requires lo + k <= n + 1
    ensures var s := Subsets(lo, n, k); s != [] && s[0] == Run(lo, k)
    decreases k
  {
    hide Subsets, Prepend;
    Small(lo, n, k);
    if k > 0 {
      FirstSubset(lo + 1, n, k - 1);
      var s, x, y := Split(lo, n, k);
      assert s[0] == [lo] + x[0];
    }
  }

  lemma {:induction false} LastSubset(lo: nat, n: nat, k: nat)
    requires lo + k <= n + 1
    ensures var s := Subsets(lo, n, k); s != [] && s[|s| - 1] == Run(n + 1 - k, k)
    decreases n + 1 - lo
  {
    hide Subsets, Prepend;
    Small(lo, n, k);
    if k > 0 {
      var s, x, y := Split(lo, n, k);
      if lo + k < n + 1 {
        LastSubset(lo + 1, n, k);
        assert s[|s| - 1] == y[|y| - 1];
      } else {
        TooFew(lo + 1, n, k);
        LastSubset(lo + 1, n, k - 1);
        LastOfOne(lo, k, s, x);
      }
    }
  }

  lemma LastOfOne(lo: nat, k: nat, s: seq<Row>, x: seq<Row>)
    requires k > 0 && s == Prepend(lo, x) + [] && x != [] && x[|x| - 1] == Run(lo + 1, k - 1)
    ensures s != [] && s[|s| - 1] == Run(lo, k)
  {
    assert s[|s| - 1] == [lo] + x[|x| - 1];
  }

  /** Bumping any row but the last gives the next one; the position to bump always exists. */
  lemma {:induction false} SubsetsStep(lo: nat, n: nat, k: nat, i: nat)
    requires i + 1 < |Subsets(lo, n, k)|
    ensures var s := Subsets(lo, n, k); BumpPos(s[i], n) >= 0 && Bump(s[i], n) == s[i + 1]
    decreases n + 1 - lo
  {
    hide Subsets, Prepend, BumpPos, Bump, Run;
    Small(lo, n, k);
    if k > 0 && lo + k <= n + 1 {
      var s, x, y := Split(lo, n, k);
      if i >= |x| {
        SubsetsStep(lo + 1, n, k, i - |x|);
        assert s[i] == y[i - |x|] && s[i + 1] == y[i + 1 - |x|];
      } else if i + 1 < |x| {
        SubsetsStep(lo + 1, n, k - 1, i);
        BumpUnder(lo, x[i], n);
        assert s[i] == [lo] + x[i] && s[i + 1] == [lo] + x[i + 1];
      } else {
        BlockEdge(lo, n, k, i);
        BumpToNextBlock(lo, n, k, Run(n + 2 - k, k - 1));
      }
    }
  }

  /** The search for an element to raise fails in the last row, and only there. */
  lemma OnlyLastStops(lo: nat, n: nat, k: nat, i: nat)
    requires 0 < lo && lo + k <= n + 1 && i < |Subsets(lo, n, k)|
    ensures BumpPos(Subsets(lo, n, k)[i], n) == -1 <==> i == |Subsets(lo, n, k)| - 1
  {
    hide Subsets, BumpPos, Bump;
    if i + 1 < |Subsets(lo, n, k)| {
      SubsetsStep(lo, n, k, i);
    } else {
      LastSubset(lo, n, k);
      NothingToRaise(n, k);
    }
  }

  lemma NothingToRaise(n: nat, k: nat)
    requires k <= n
    ensures BumpPos(Run(n + 1 - k, k), n) == -1
  {
    if k > 0 { RunIsLast(n, k, k - 1); }
  }

  /** The last row that starts with `lo`, and the first that starts higher. */
  lemma BlockEdge(lo: nat, n: nat, k: nat, i: nat)
    requires k > 0 && lo + k <= n + 1 && i + 1 < |Subsets(lo, n, k)| && i + 1 == |Subsets(lo + 1, n, k - 1)|
    ensures lo + k <= n
    ensures Subsets(lo, n, k)[i] == [lo] + Run(n + 2 - k, k - 1) && Subsets(lo, n, k)[i + 1] == Run(lo + 1, k)
  {
    hide Subsets, Run;
    Small(lo, n, k);
    if lo + k == n + 1 {
      var s, x, y := Split(lo, n, k);
      TooFew(lo + 1, n, k);
    }
    FirstOfNext(lo, n, k);
    LastOfBlock(lo, n, k);
  }

  lemma LastOfBlock(lo: nat, n: nat, k: nat)
    requires k > 0 && lo + k <= n + 1
    ensures var m := |Subsets(lo + 1, n, k - 1)|;
      0 < m <= |Subsets(lo, n, k)| && Subsets(lo, n, k)[m - 1] == [lo] + Run(n + 2 - k, k - 1)
  {
    hide Subsets, Prepend, Run;
    LastSubset(lo + 1, n, k - 1);
    var s, x, y := Split(lo, n, k);
    assert s[|x| - 1] == [lo] + x[|x| - 1];
  }

  lemma FirstOfNext(lo: nat, n: nat, k: nat)
    requires k > 0 && lo + k <= n
    ensures var m := |Subsets(lo + 1, n, k - 1)|;
      m < |Subsets(lo, n, k)| && Subsets(lo, n, k)[m] == Run(lo + 1, k)
  {
    hide Subsets, Prepend, Run;
    FirstSubset(lo + 1, n, k);
    var s, x, y := Split(lo, n, k);
    assert s[|x|] == y[0];
  }

  /** Bumping below an unchanged first number. */
  lemma BumpUnder(x: nat, row: Row, n: nat)
    requires BumpPos(row, n) >= 0
    ensures BumpPos([x] + row, n) >= 0 && Bump([x] + row, n) == [x] + Bump(row, n)
  {
    BumpFromShift(x, row, n, |row| - 1);
    var p := BumpPos(row, n);
    assert ([x] + row)[..p + 1] == [x] + row[..p] && ([x] + row)[p + 1] == row[p];
  }

  /** Bumping the last row that starts with `lo` gives the first that starts higher. */
  lemma BumpToNextBlock(lo: nat, n: nat, k: nat, last: Row)
    requires k > 0 && lo + k <= n && last == Run(n + 2 - k, k - 1)
    ensures BumpPos([lo] + last, n) >= 0 && Bump([lo] + last, n) == Run(lo + 1, k)
  {
    RunIsLast(n, k - 1, k - 2);
    BumpFromShift(lo, last, n, k - 2);
    assert ([lo] + last)[..0] == [] && ([lo] + last)[0] == lo;
  }

  lemma {:induction false} RunIsLast(n: nat, k: nat, p: int)
    requires -1 <= p < k <= n
    ensures BumpFrom(Run(n + 1 - k, k), n, p) == -1
    decreases p + 1
  {
    if p >= 0 { RunIsLast(n, k, p - 1); }
  }

  lemma TooFew(lo: nat, n: nat, k: nat)
    requires lo + k > n + 1 && k > 0
    ensures Subsets(lo, n, k) == []
  {
  }

  // ----- how often a robot plays -----

  /** The number of rows that robot `r` appears in. */
  function Appearances(rows: seq<Row>, r: nat): nat
  {
    if rows == [] then 0 else (if r in rows[0] then 1 else 0) + Appearances(rows[1..], r)
  }

  lemma {:induction false} AppearancesConcat(a: seq<Row>, b: seq<Row>, r: nat)
    ensures Appearances(a + b, r) == Appearances(a, r) + Appearances(b, r)
  {
    if a == [] {
      assert a + b == b;
    } else {
      assert (a + b)[1..] == a[1..] + b;
      AppearancesConcat(a[1..], b, r);
    }
  }

  lemma {:induction false} AppearancesPrepend(x: nat, rows: seq<Row>, r: nat)
    ensures Appearances(Prepend(x, rows), r) == if r == x then |rows| else Appearances(rows, r)
  {
    if rows != [] {
      assert Prepend(x, rows)[1..] == Prepend(x, rows[1..]);
      AppearancesPrepend(x, rows[1..], r);
    }
  }

  lemma {:induction false} AppearsNever(lo: nat, n: nat, k: nat, r: nat)
    requires r < lo
    ensures Appearances(Subsets(lo, n, k), r) == 0
    decreases n + 1 - lo
  {
    if k == 0 {
      assert Appearances([[]], r) == Appearances([[]][1..], r);
    } else if lo + k <= n + 1 {
      AppearsNever(lo + 1, n, k - 1, r);
      AppearsNever(lo + 1, n, k, r);
      AppearancesPrepend(lo, Subsets(lo + 1, n, k - 1), r);
      AppearancesConcat(Prepend(lo, Subsets(lo + 1, n, k - 1)), Subsets(lo + 1, n, k), r);
    }
  }

  lemma AppearancesSplit(lo: nat, n: nat, k: nat, r: nat)
    requires k > 0 && lo + k <= n + 1
    ensures Appearances(Subsets(lo, n, k), r)
         == (if r == lo then |Subsets(lo + 1, n, k - 1)| else Appearances(Subsets(lo + 1, n, k - 1), r))
            + Appearances(Subsets(lo + 1, n, k), r)
  {
    var s, x, y := Split(lo, n, k);
    AppearancesPrepend(lo, x, r);
    AppearancesConcat(Prepend(lo, x), y, r);
  }

  /** In a complete round every robot plays equally often. */
  lemma {:induction false} RoundIsFair(lo: nat, n: nat, k: nat, r: nat)
    requires lo <= r <= n && k > 0
    ensures Appearances(Subsets(lo, n, k), r) == Choose(n - lo, k - 1)
    decreases n + 1 - lo, k, 1
  {
    if lo + k > n + 1 {
      TooFew(lo, n, k);
      ChooseTooMany(n - lo, k - 1);
    } else {
      AppearancesSplit(lo, n, k, r);
      if r == lo {
        FairShareOfFirst(lo, n, k);
      } else {
        RoundIsFair(lo + 1, n, k, r);
        FairShare(lo + 1, n, k, r);
      }
    }
  }

  lemma FairShareOfFirst(lo: nat, n: nat, k: nat)
    requires lo <= n && k > 0
    ensures |Subsets(lo + 1, n, k - 1)| + Appearances(Subsets(lo + 1, n, k), lo) == Choose(n - lo, k - 1)
  {
    SubsetsCount(lo + 1, n, k - 1);
    AppearsNever(lo + 1, n, k, lo);
  }

  /** The rows that start with `lo - 1` hold the rest of a robot's share. */
  lemma {:induction false} FairShare(lo: nat, n: nat, k: nat, r: nat)
    requires lo <= r <= n && k > 0
    ensures Choose(n + 1 - lo, k - 1) == Appearances(Subsets(lo, n, k - 1), r) + Choose(n - lo, k - 1)
    decreases n + 1 - lo, k, 0
  {
    if k > 1 { RoundIsFair(lo, n, k - 1, r); } else { InEmptyRow(lo, n, r); }
  }

  lemma InEmptyRow(lo: nat, n: nat, r: nat)
    ensures Appearances(Subsets(lo, n, 0), r) == 0
  {
    assert Appearances([[]], r) == Appearances([[]][1..], r);
  }
}
