/** The tournament schedule: complete rounds enumerate every subset, the remaining sequences are drawn so
    that nobody plays twice before everybody has played. */
module Schedule {
  import opened Basics
  import opened Combinations
  import opened Remainder

  // ----- complete rounds -----

  /** Raises `current` in place to the next subset. */
  method NextSubset(current: array<nat>, n: nat)
    requires BumpPos(current[..], n) >= 0
    modifies current
    ensures current[..] == Bump(old(current[..]), n)
  {
    ghost var was := current[..];
    var k := current.Length - 1;
    while current[k] == n + 1 - current.Length + k
      invariant 0 <= k < current.Length && BumpFrom(was, n, k) == BumpPos(was, n)
      decreases k
    {
      k := k - 1;
    }
    current[k] := current[k] + 1;
    for j := k + 1 to current.Length
      invariant current[..k] == was[..k]
      invariant forall i :: k <= i < j ==> current[i] == was[k] + 1 + (i - k)
    {
      current[j] := current[j - 1] + 1;
    }
    assert current[..] == was[..k] + Run(was[k] + 1, |was| - k);
  }

  /** The row before the first one: its last number is raised before it is used. */
  method StartRound(current: array<nat>, n: nat)
    requires 1 <= current.Length <= n
    modifies current
    ensures BumpPos(current[..], n) >= 0 && Bump(current[..], n) == Run(1, current.Length)
  {
    var k := current.Length;
    for i := 0 to k
      invariant forall j :: 0 <= j < i ==> current[j] == j + 1
    {
      current[i] := i + 1;
    }
    current[k - 1] := current[k - 1] - 1;
    assert current[..][k - 1] == k - 1 && BumpPos(current[..], n) == k - 1;
    assert current[..k - 1] + Run(k, 1) == Run(1, k);
    assert current[..][..k - 1] == current[..k - 1];
  }

  method WriteNext(rows: array<Row>, nr: nat, current: array<nat>, n: nat)
    requires BumpPos(current[..], n) >= 0 && nr < rows.Length
    modifies rows, current
    ensures current[..] == Bump(old(current[..]), n)
    ensures rows[..nr + 1] == old(rows[..nr]) + [Bump(old(current[..]), n)]
  {
    NextSubset(current, n);
    rows[nr] := current[..];
  }

  predicate BumpsAt(s: seq<Row>, i: nat, n: nat)
    requires 0 < i < |s|
  {
    BumpPos(s[i - 1], n) >= 0 && Bump(s[i - 1], n) == s[i]
  }

  /** Each row of `s` but the last is bumped to the next. */
  predicate BumpChain(s: seq<Row>, n: nat)
  {
    forall i :: 0 < i < |s| ==> BumpsAt(s, i, n)
  }

  method WriteRows(rows: array<Row>, from: nat, games: nat, current: array<nat>, n: nat, ghost s: seq<Row>)
    requires |s| == games > 0 && from + games <= rows.Length && BumpChain(s, n)
    requires BumpPos(current[..], n) >= 0 && Bump(current[..], n) == s[0]
    modifies rows, current
    ensures rows[..from + games] == old(rows[..from]) + s
  {
    for i := 0 to games
      invariant i == 0 ==> BumpPos(current[..], n) >= 0 && Bump(current[..], n) == s[0]
      invariant i > 0 ==> current[..] == s[i - 1]
      invariant rows[..from + i] == old(rows[..from]) + s[..i]
    {
      assert i > 0 ==> BumpsAt(s, i, n);
      WriteNext(rows, from + i, current, n);
    }
  }

  /** One complete round, written to `rows[from..]`. */
  method FillRound(rows: array<Row>, from: nat, n: nat, current: array<nat>)
    requires 1 <= current.Length <= n && from + Choose(n, current.Length) <= rows.Length
    modifies rows, current
    ensures rows[..from + Choose(n, current.Length)] == old(rows[..from]) + Subsets(1, n, current.Length)
  {
    var k := current.Length;
    ghost var s := Subsets(1, n, k);
    SubsetsCount(1, n, k);
    FirstSubset(1, n, k);
    forall i | 0 < i < |s| ensures BumpsAt(s, i, n) {
      SubsetsStep(1, n, k, i - 1);
    }
    StartRound(current, n);
    WriteRows(rows, from, Choose(n, k), current, n, s);
  }

  predicate Within(draws: seq<(nat, nat)>, size: nat)
  {
    forall d :: d in draws ==> d.0 < size && d.1 < size
  }

  /** Exchanges rows at random positions among the first `size`. */
  method Reorder(rows: array<Row>, size: nat, draws: seq<(nat, nat)>)
    requires size <= rows.Length && Within(draws, size)
    modifies rows
    ensures multiset(rows[..size]) == multiset(old(rows[..size]))
    ensures rows[size..] == old(rows[size..])
  {
    for i := 0 to |draws|
      invariant multiset(rows[..size]) == multiset(old(rows[..size]))
      invariant rows[size..] == old(rows[size..])
    {
      var (n1, n2) := draws[i];
      assert draws[i] in draws;
      if n1 != n2 {
        rows[n1], rows[n2] := rows[n2], rows[n1];
      }
    }
  }

  /** `m` copies of a list of rows. */
  function Repeat(s: seq<Row>, m: nat): (r: seq<Row>)
  {
    if m == 0 then [] else s + Repeat(s, m - 1)
  }

  lemma {:induction false} RepeatMore(s: seq<Row>, m: nat)
    ensures Repeat(s, m + 1) == Repeat(s, m) + s && |Repeat(s, m)| == m * |s|
  {
    if m > 0 {
      RepeatMore(s, m - 1);
    } else {
      assert Repeat(s, 1) == s + Repeat(s, 0);
    }
  }

  /** A complete round and the exchanges after it.  The exchanges stay within the first round's rows. */
  method PlayRound(rows: array<Row>, nr: nat, n: nat, current: array<nat>, draws: seq<(nat, nat)>, games: nat)
    requires 1 <= current.Length <= n && games == Choose(n, current.Length)
    requires nr + games <= rows.Length && (nr == 0 || games <= nr)
    requires Within(draws, games)
    modifies rows, current
    ensures multiset(rows[..games]) == multiset(if nr == 0 then Subsets(1, n, current.Length) else old(rows[..games]))
    ensures nr > 0 ==> rows[games..nr + games] == old(rows[games..nr]) + Subsets(1, n, current.Length)
  {
    ghost var before, first := rows[..nr], old(rows[..games]);
    ghost var s := Subsets(1, n, current.Length);
    SubsetsCount(1, n, current.Length);
    FillRound(rows, nr, n, current);
    ghost var filled := before + s;
    assert rows[..nr + games] == filled;
    assert rows[..games] == filled[..games];
    assert filled[..games] == if nr == 0 then s else first;
    assert nr > 0 ==> filled[games..] == before[games..] + s;
    assert nr > 0 ==> rows[games..][..nr] == filled[games..];
    Reorder(rows, games, draws);
    assert nr > 0 ==> rows[games..nr + games] == rows[games..][..nr];
  }

  /** `rounds` rounds have been written: the first in any order, the others as they are listed. */
  ghost predicate Written(rows: seq<Row>, rounds: nat, games: nat, s: seq<Row>)
  {
    rounds > 0 ==>
      games <= rounds * games <= |rows|
      && multiset(rows[..games]) == multiset(s) && rows[games..rounds * games] == Repeat(s, rounds - 1)
  }

  lemma WrittenFirst(rows: seq<Row>, games: nat, s: seq<Row>)
    requires games <= |rows| && multiset(rows[..games]) == multiset(s)
    ensures Written(rows, 1, games, s)
  {
    assert 1 * games == games && rows[games..games] == [] == Repeat(s, 0);
  }

  lemma WrittenNext(before: seq<Row>, rows: seq<Row>, rounds: nat, games: nat, s: seq<Row>)
    requires rounds > 0 && Written(before, rounds, games, s) && |rows| == |before|
    requires rounds * games + games == (rounds + 1) * games <= |rows|
    requires multiset(rows[..games]) == multiset(before[..games])
    requires rows[games..rounds * games + games] == before[games..rounds * games] + s
    ensures Written(rows, rounds + 1, games, s)
  {
    RepeatMore(s, rounds - 1);
  }

  /** All complete rounds; every round after the first keeps the lexicographic order. */
  method CompleteRounds(rows: array<Row>, rounds: nat, n: nat, current: array<nat>, draws: seq<seq<(nat, nat)>>,
                        games: nat)
    requires 1 <= current.Length <= n && games == Choose(n, current.Length)
    requires rounds * games <= rows.Length && |draws| == rounds
    requires forall d :: d in draws ==> Within(d, games)
    modifies rows, current
    ensures rounds > 0 ==>
              games <= rounds * games
              && multiset(rows[..games]) == multiset(Subsets(1, n, current.Length))
              && rows[games..rounds * games] == Repeat(Subsets(1, n, current.Length), rounds - 1)
  {
    hide Subsets, Choose, Repeat;
    ghost var s := Subsets(1, n, current.Length);
    var nr := 0;
    for round := 0 to rounds
      invariant nr == round * games && Written(rows[..], round, games, s)
    {
      NextMultiple(round, rounds, games);
      assert draws[round] in draws;
      ghost var before := rows[..];
      PlayRound(rows, nr, n, current, draws[round], games);
      assert rows[..][..games] == rows[..games];
      if round > 0 {
        WrittenNext(before, rows[..], round, games, s);
      } else {
        WrittenFirst(rows[..], games, s);
      }
      nr := nr + games;
    }
  }

  lemma NextMultiple(a: nat, b: nat, c: nat)
    requires a < b
    ensures a * c + c == (a + 1) * c <= b * c
  {
    assert b * c == (a + 1) * c + (b - a - 1) * c;
  }

  // ----- the whole schedule -----

  lemma AppearancesWithout(b: seq<Row>, j: nat, r: nat)
    requires j < |b|
    ensures Appearances(b, r) == (if r in b[j] then 1 else 0) + Appearances(b[..j] + b[j + 1..], r)
  {
    assert b == b[..j] + b[j..] && b[j..][1..] == b[j + 1..];
    AppearancesConcat(b[..j], b[j..], r);
    AppearancesConcat(b[..j], b[j + 1..], r);
  }

  lemma MultisetWithout(a: seq<Row>, b: seq<Row>) returns (j: nat)
    requires multiset(a) == multiset(b) && a != []
    ensures j < |b| && b[j] == a[0] && multiset(a[1..]) == multiset(b[..j] + b[j + 1..])
  {
    FirstIsIn(a, b);
    j :| 0 <= j < |b| && b[j] == a[0];
    TakenOut(a, 0);
    TakenOut(b, j);
    assert a[..0] + a[1..] == a[1..];
  }

  lemma FirstIsIn(a: seq<Row>, b: seq<Row>)
    requires multiset(a) == multiset(b) && a != []
    ensures a[0] in b
  {
    assert a[0] in multiset(a) && a[0] in multiset(b);
  }

  lemma TakenOut(b: seq<Row>, j: nat)
    requires j < |b|
    ensures multiset(b[..j] + b[j + 1..]) == multiset(b) - multiset{b[j]}
  {
    assert b == b[..j] + ([b[j]] + b[j + 1..]);
  }

  /** Appearances do not depend on the order of the rows. */
  lemma {:induction false} AppearancesUnordered(a: seq<Row>, b: seq<Row>, r: nat)
    requires multiset(a) == multiset(b)
    ensures Appearances(a, r) == Appearances(b, r)
  {
    if a == [] {
      assert |b| == |multiset(b)| == 0;
    } else {
      var j := MultisetWithout(a, b);
      AppearancesUnordered(a[1..], b[..j] + b[j + 1..], r);
      AppearancesWithout(b, j, r);
    }
  }

  lemma {:induction false} RepeatCount(s: seq<Row>, m: nat, r: nat)
    ensures Appearances(Repeat(s, m), r) == m * Appearances(s, r)
  {
    if m > 0 {
      RepeatCount(s, m - 1, r);
      AppearancesConcat(s, Repeat(s, m - 1), r);
    }
  }

  /** The rows of the complete rounds of `s`: the first round in any order, the others as listed. */
  predicate IsRounds(rows: seq<Row>, rounds: nat, s: seq<Row>)
  {
    if rounds == 0 then rows == []
    else |s| <= |rows| && multiset(rows[..|s|]) == multiset(s) && rows[|s|..] == Repeat(s, rounds - 1)
  }

  lemma AppearancesCut(rows: seq<Row>, i: nat, r: nat)
    requires i <= |rows|
    ensures Appearances(rows, r) == Appearances(rows[..i], r) + Appearances(rows[i..], r)
  {
    assert rows == rows[..i] + rows[i..];
    AppearancesConcat(rows[..i], rows[i..], r);
  }

  lemma RoundsCount(rows: seq<Row>, rounds: nat, s: seq<Row>, r: nat)
    requires IsRounds(rows, rounds, s)
    ensures Appearances(rows, r) == rounds * Appearances(s, r)
  {
    if rounds == 0 {
      assert Appearances(rows, r) == 0;
    } else {
      var first, rest := rows[..|s|], rows[|s|..];
      AppearancesCut(rows, |s|, r);
      PartsCount(first, rest, rounds, s, r);
    }
  }

  lemma PartsCount(first: seq<Row>, rest: seq<Row>, rounds: nat, s: seq<Row>, r: nat)
    requires rounds > 0 && multiset(first) == multiset(s) && rest == Repeat(s, rounds - 1)
    ensures Appearances(first, r) + Appearances(rest, r) == rounds * Appearances(s, r)
  {
    AppearancesUnordered(first, s, r);
    RepeatCount(s, rounds - 1, r);
    OneMore(rounds - 1, Appearances(s, r));
  }

  /** Equal shares from the rounds and an even rest make an even whole. */
  lemma WholeIsEven(first: seq<Row>, rest: seq<Row>, rounds: nat, n: nat, k: nat, least: nat) returns (whole: nat)
    requires IsRounds(first, rounds, Subsets(1, n, k)) && Even(rest, n, least) && 1 <= k <= n
    ensures Even(first + rest, n, whole)
  {
    var share := Choose(n - 1, k - 1);
    whole := rounds * share + least;
    forall r | 1 <= r <= n
      ensures whole <= Appearances(first + rest, r) <= whole + 1
    {
      AppearancesConcat(first, rest, r);
      RoundsCount(first, rounds, Subsets(1, n, k), r);
      RoundIsFair(1, n, k, r);
    }
  }

  /** `start_tournament`: as many complete rounds as fit, then drawn sequences.  Over the whole schedule no
      robot appears more than once more often than another. */
  method MakeSchedule(n: nat, k: nat, total: nat, draws: seq<seq<(nat, nat)>>, games: nat)
    returns (rows: array<Row>, rounds: nat, played: nat, ghost least: nat)
    requires 1 <= k <= n && games == Choose(n, k) > 0
    requires |draws| == total / games && forall d :: d in draws ==> Within(d, games)
    ensures rows.Length == total && rounds == total / games && played == rounds * games <= total
    ensures IsRounds(rows[..played], rounds, Subsets(1, n, k))
    ensures forall i :: played <= i < total ==> IsMatch(rows[i], k, n)
    ensures Even(rows[..], n, least)
  {
    rounds := total / games;
    var rem := total % games;
    rows := new Row[total](_ => []);
    played := ManyRounds(rows, rounds, n, k, draws, games);
    ghost var first := rows[..played];
    assert played + rem == total;
    least := FillRemainder(rows, played, rem, n, k);
    ghost var rest := rows[played..played + rem];
    least := WholeIsEven(first, rest, rounds, n, k, least);
    assert rows[..] == first + rest;
  }

  method ManyRounds(rows: array<Row>, rounds: nat, n: nat, k: nat, draws: seq<seq<(nat, nat)>>, games: nat)
    returns (played: nat)
    requires 1 <= k <= n && games == Choose(n, k) && rounds * games <= rows.Length
    requires |draws| == rounds && forall d :: d in draws ==> Within(d, games)
    modifies rows
    ensures played == rounds * games && IsRounds(rows[..played], rounds, Subsets(1, n, k))
  {
    played := rounds * games;
    var current := new nat[k];
    CompleteRounds(rows, rounds, n, current, draws, games);
    ghost var done := rows[..played];
    if rounds > 0 {
      assert done[..games] == rows[..games] && done[games..] == rows[games..played];
    }
    RoundsBlock(done, games, rounds, n, k);
  }

  lemma RoundsBlock(rows: seq<Row>, games: nat, rounds: nat, n: nat, k: nat)
    requires 1 <= k <= n && games == Choose(n, k)
    requires rounds == 0 ==> rows == []
    requires rounds > 0 ==> games <= |rows| && multiset(rows[..games]) == multiset(Subsets(1, n, k))
    requires rounds > 0 ==> rows[games..] == Repeat(Subsets(1, n, k), rounds - 1)
    ensures IsRounds(rows, rounds, Subsets(1, n, k))
  {
    SubsetsCount(1, n, k);
  }
}
