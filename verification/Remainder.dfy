/** The sequences left over after the complete rounds: each place goes to a random robot among those that
    have played least and are not in this sequence yet. */
module Remainder {
  import opened Basics
  import opened Combinations

  /** The robots that have played `min` times. */
  function OnMin(matches: seq<nat>, min: nat): set<nat>
  {
    set r | 0 <= r < |matches| && matches[r] == min
  }

  /** The robots already placed in the current sequence; the schedule numbers them from 1. */
  function Placed(row: Row): set<nat>
  {
    set i | 0 <= i < |row| :: row[i]
  }

  /** A row of `k` different robots out of `1..n`. */
  predicate IsMatch(row: Row, k: nat, n: nat)
  {
    |row| == k && Distinct(row) && forall i :: 0 <= i < |row| ==> 1 <= row[i] <= n
  }

  predicate Plays(row: Row, r: nat) { r + 1 in row }

  /** Nobody is more than one match ahead of the least. */
  predicate Level(matches: seq<nat>, min: nat)
  {
    forall r :: 0 <= r < |matches| ==> matches[r] == min || matches[r] == min + 1
  }

  /** Robots on the minimum are either all free for this sequence, or all free robots are on it. */
  predicate Open(matches: seq<nat>, min: nat, row: Row)
  {
    (forall r :: 0 <= r < |matches| && Plays(row, r) ==> matches[r] != min)
    || (forall r :: 0 <= r < |matches| && !Plays(row, r) ==> matches[r] == min)
  }

  predicate Eligible(matches: seq<nat>, min: nat, row: Row, r: nat)
  {
    r < |matches| && !Plays(row, r) && matches[r] == min
  }

  lemma {:induction false} SizeOfPlaced(row: Row)
    ensures |Placed(row)| <= |row|
  {
    if row != [] {
      var m := |row| - 1;
      assert Placed(row) == Placed(row[..m]) + {row[m]};
      SizeOfPlaced(row[..m]);
    }
  }

  /** While the sequence has fewer robots than there are, some robot is left out. */
  lemma SomeoneIsFree(row: Row, n: nat) returns (r: nat)
    requires |row| < n
    ensures r < n && !Plays(row, r)
  {
    SizeOfPlaced(row);
    var all := Numbers(1, n);
    if all <= Placed(row) {
      SubsetSize(all, Placed(row));
      assert false;
    }
    var x :| x in all && x !in Placed(row);
    r := x - 1;
  }

  /** At every pick there is a robot to pick. */
  lemma SomeoneIsEligible(matches: seq<nat>, min: nat, row: Row) returns (r: nat)
    requires |row| < |matches| && OnMin(matches, min) != {} && Open(matches, min, row)
    ensures Eligible(matches, min, row, r)
  {
    if forall r :: 0 <= r < |matches| && Plays(row, r) ==> matches[r] != min {
      r :| r in OnMin(matches, min);
    } else {
      r := SomeoneIsFree(row, |matches|);
    }
  }

  /** One pick keeps the counters exact, also when the last robot on the minimum is used up. */
  lemma PickKeepsCounters(matches: seq<nat>, min: nat, onMin: nat, row: Row, r: nat)
    requires Level(matches, min) && onMin == |OnMin(matches, min)| && Open(matches, min, row)
    requires Eligible(matches, min, row, r)
    ensures var m := matches[r := min + 1];
            if onMin == 1 then Level(m, min + 1) && |OnMin(m, min + 1)| == |m| && Open(m, min + 1, row + [r + 1])
            else Level(m, min) && |OnMin(m, min)| == onMin - 1 && Open(m, min, row + [r + 1])
  {
    var m := matches[r := min + 1];
    assert OnMin(m, min) == OnMin(matches, min) - {r};
    if onMin == 1 {
      NextMinimum(m, min);
    } else {
      assert forall x :: Plays(row + [r + 1], x) <==> Plays(row, x) || x == r;
    }
  }

  /** When nobody is left on the minimum, everybody is on the next one. */
  lemma NextMinimum(m: seq<nat>, min: nat)
    requires Level(m, min) && |OnMin(m, min)| == 0
    ensures Level(m, min + 1) && |OnMin(m, min + 1)| == |m| && forall x :: 0 <= x < |m| ==> m[x] == min + 1
  {
    assert forall x :: 0 <= x < |m| && m[x] == min ==> x in OnMin(m, min);
    assert OnMin(m, min + 1) == Numbers(0, |m|);
  }

  /** The random draw, repeated until it hits an eligible robot. */
  method Draw(matches: array<nat>, playing: array<bool>, min: nat, ghost row: Row) returns (nr: nat)
    requires matches.Length == playing.Length && |row| < matches.Length
    requires OnMin(matches[..], min) != {} && Open(matches[..], min, row)
    requires forall r :: 0 <= r < playing.Length ==> (playing[r] <==> Plays(row, r))
    ensures Eligible(matches[..], min, row, nr)
  {
    ghost var r := SomeoneIsEligible(matches[..], min, row);
    nr :| 0 <= nr < matches.Length && !playing[nr] && matches[nr] == min;
  }

  /** The counters of the drawing loop: matches played, the minimum, and how many are on it. */
  class Counters {
    const matches: array<nat>
    var min: nat
    var onMin: nat

    constructor (n: nat)
      requires n > 0
      ensures fresh(matches) && matches.Length == n && Exact()
      ensures min == 0 && forall r :: 0 <= r < n ==> matches[r] == 0
    {
      matches := new nat[n](_ => 0);
      min, onMin := 0, n;
      new;
      assert OnMin(matches[..], 0) == Numbers(0, n);
    }

    /** The minimum is attained, nobody is ahead of it by more than one, and the count is right. */
    ghost predicate Exact()
      reads this, matches
    {
      Level(matches[..], min) && onMin == |OnMin(matches[..], min)| > 0
    }

    /** Places one more robot in the sequence. */
    method Place(playing: array<bool>, row: Row) returns (row': Row)
      requires playing.Length == matches.Length && |row| < matches.Length
      requires Exact() && Open(matches[..], min, row)
      requires forall r :: 0 <= r < playing.Length ==> (playing[r] <==> Plays(row, r))
      modifies this, matches, playing
      ensures Exact() && Open(matches[..], min, row')
      ensures forall r :: 0 <= r < playing.Length ==> (playing[r] <==> Plays(row', r))
      ensures exists r: nat :: r < matches.Length && !Plays(row, r) && row' == row + [r + 1]
                && matches[..] == old(matches[..])[r := old(matches[r]) + 1]
    {
      assert OnMin(matches[..], min) != {};
      var nr := Draw(matches, playing, min, row);
      PickKeepsCounters(matches[..], min, onMin, row, nr);
      playing[nr] := true;
      matches[nr] := matches[nr] + 1;
      onMin := onMin - 1;
      if onMin == 0 {
        min := min + 1;
        onMin := matches.Length;
      }
      row' := row + [nr + 1];
    }

    /** Before the first draw of a sequence. */
    lemma Nobody()
      requires Exact()
      ensures Open(matches[..], min, []) && IsMatch([], 0, matches.Length)
      ensures forall r :: 0 <= r < matches.Length ==> !Plays([], r)
    {
    }

    /** Draws a whole sequence of `k` robots. */
    method DrawSequence(playing: array<bool>, k: nat) returns (row: Row)
      requires playing.Length == matches.Length >= k && Exact()
      modifies this, matches, playing
      ensures Exact() && IsMatch(row, k, matches.Length)
      ensures forall r :: 0 <= r < matches.Length ==>
                matches[r] == old(matches[r]) + if Plays(row, r) then 1 else 0
    {
      for i := 0 to playing.Length
        invariant forall j :: 0 <= j < i ==> !playing[j]
        invariant unchanged(this, matches)
      {
        playing[i] := false;
      }
      hide Exact, Open, IsMatch;
      row := [];
      Nobody();
      for j := 0 to k
        invariant Exact() && Open(matches[..], min, row) && IsMatch(row, j, matches.Length)
        invariant forall r :: 0 <= r < playing.Length ==> (playing[r] <==> Plays(row, r))
        invariant forall r :: 0 <= r < matches.Length ==>
                    matches[r] == old(matches[r]) + if Plays(row, r) then 1 else 0
      {
        ghost var before, counts := row, matches[..];
        row := Place(playing, row);
        ghost var r: nat :| r < matches.Length && !Plays(before, r) && row == before + [r + 1]
                            && matches[..] == counts[r := counts[r] + 1];
        Extend(before, r, counts, matches[..]);
      }
    }
  }

  lemma Extend(row: Row, nr: nat, counts: seq<nat>, counts': seq<nat>)
    requires nr < |counts| && !Plays(row, nr) && counts' == counts[nr := counts[nr] + 1]
    requires IsMatch(row, |row|, |counts|)
    ensures IsMatch(row + [nr + 1], |row| + 1, |counts|)
    ensures forall r :: 0 <= r < |counts| ==>
              counts'[r] + (if Plays(row, r) then 1 else 0) == counts[r] + if Plays(row + [nr + 1], r) then 1 else 0
  {
  }

  /** The robots' match counts are their appearances in the rows drawn so far. */
  predicate Tallies(matches: seq<nat>, rows: seq<Row>)
  {
    forall r :: 0 <= r < |matches| ==> matches[r] == Appearances(rows, r + 1)
  }

  /** Every robot appears `least` times or once more. */
  predicate Even(rows: seq<Row>, n: nat, least: nat)
  {
    forall r :: 1 <= r <= n ==> least <= Appearances(rows, r) <= least + 1
  }

  /** Draws the remaining sequences into `rows[from..from + rem]`. */
  method FillRemainder(rows: array<Row>, from: nat, rem: nat, n: nat, k: nat) returns (ghost least: nat)
    requires 1 <= k <= n && from + rem <= rows.Length
    modifies rows
    ensures rows[..from] == old(rows[..from])
    ensures forall i :: from <= i < from + rem ==> IsMatch(rows[i], k, n)
    ensures Even(rows[from..from + rem], n, least)
  {
    var counters := new Counters(n);
    var playing := new bool[n];
    for i := 0 to rem
      invariant fresh(counters) && fresh(counters.matches) && counters.matches.Length == n && counters.Exact()
      invariant rows[..from] == old(rows[..from])
      invariant forall j :: from <= j < from + i ==> IsMatch(rows[j], k, n)
      invariant Tallies(counters.matches[..], rows[from..from + i])
    {
      ghost var done := rows[from..from + i];
      ghost var counts := counters.matches[..];
      var row := counters.DrawSequence(playing, k);
      rows[from + i] := row;
      assert rows[from..from + i + 1] == done + [row];
      TallyMore(counts, done, row, counters.matches[..]);
    }
    least := counters.min;
    TalliesAreEven(counters.matches[..], rows[from..from + rem], least);
  }

  lemma TalliesAreEven(matches: seq<nat>, rows: seq<Row>, min: nat)
    requires Level(matches, min) && Tallies(matches, rows)
    ensures Even(rows, |matches|, min)
  {
    forall r | 1 <= r <= |matches|
      ensures min <= Appearances(rows, r) <= min + 1
    {
      assert matches[r - 1] == Appearances(rows, (r - 1) + 1);
    }
  }

  lemma TallyMore(counts: seq<nat>, rows: seq<Row>, row: Row, counts': seq<nat>)
    requires Tallies(counts, rows) && |counts'| == |counts|
    requires forall r :: 0 <= r < |counts| ==> counts'[r] == counts[r] + if Plays(row, r) then 1 else 0
    ensures Tallies(counts', rows + [row])
  {
    forall r | 0 <= r < |counts'|
      ensures counts'[r] == Appearances(rows + [row], r + 1)
    {
      AppearancesConcat(rows, [row], r + 1);
      assert Appearances([row], r + 1) == (if Plays(row, r) then 1 else 0) + Appearances([row][1..], r + 1);
    }
  }
}
