/** The growing tables of a parsed format: its arguments and its directives. */
module FormatArguments {
  import opened CheckedSizes
  import opened FormatMeaning

  const ARGUMENT_SIZE: Size := 32
  const DIRECTIVE_SIZE: Size := 88
  const ARG_NONE: Size := 0xFFFF_FFFF_FFFF_FFFF

  /** Room for `n` more elements than there are might take up all addressable bytes. */
  predicate TooLarge(n: nat, size: Size)
  {
    (2 * n + 1) * size as nat >= SIZE_MAX
  }

  predicate Allocated(n: nat, size: Size) { n * size as nat < SIZE_MAX }

  lemma AllocatedFits(n: nat, size: Size)
    requires size > 0 && Allocated(n, size)
    ensures n < SIZE_MAX
  {
    MoreTimes(1, size as nat, n);
  }

  /** The doubled size, or one that is just enough. */
  method NewLength(old_: nat, n: Size, size: Size) returns (ok: bool, length: Size)
    requires size > 0 && Allocated(old_, size) && old_ <= n as nat
    ensures ok ==> length > n && Allocated(length as nat, size)
    ensures !ok ==> TooLarge(n as nat, size)
  {
    AllocatedFits(old_, size);
    length := Xtimes(old_ as Size, 2);
    if length <= n {
      length := Xsum(n, 1);
    }
    var memory := Xtimes(length, size);
    ok := !Overflows(memory);
    if ok {
      NotSaturated(length as nat, size as nat, memory as nat);
    } else {
      MoreTimes(length as nat, 2 * n as nat + 1, size as nat);
    }
    if length <= n {
      assert n as nat == SIZE_MAX;
      MoreTimes(1, size as nat, SIZE_MAX);
    }
  }

  lemma NotSaturated(length: nat, size: nat, memory: nat)
    requires memory == Min(length * size, SIZE_MAX) && memory < SIZE_MAX
    ensures length * size < SIZE_MAX
  {
  }

  class Arguments {
    var arg: array<ArgType>
    var count: nat

    ghost predicate Valid()
      reads this
    {
      count <= arg.Length && Allocated(arg.Length, ARGUMENT_SIZE)
    }

    ghost function Table(): seq<ArgType>
      requires Valid()
      reads this, arg
    {
      arg[..count]
    }

    lemma TableFits()
      requires Valid()
      ensures |Table()| < SIZE_MAX
    {
      AllocatedFits(arg.Length, ARGUMENT_SIZE);
    }

    constructor ()
      ensures Valid() && Table() == [] && fresh(arg)
    {
      arg := new ArgType[0];
      count := 0;
    }

    /** Registers a use: fails only if the argument has another type already, or if the table would get too large. */
    method Register(n: Size, kind: ArgType, ghost uses: seq<Use>) returns (ok: bool)
      requires Valid() && kind != NoType && TableOf(Table(), uses)
      modifies this, arg
      ensures Valid() && (arg == old(arg) || fresh(arg))
      ensures ok ==> TableOf(Table(), uses + [Use(n as nat, kind)])
      ensures !ok ==> !Consistent(uses + [Use(n as nat, kind)]) || TooLarge(n as nat, ARGUMENT_SIZE)
    {
      ok := Grow(n);
      if ok {
        Pad(n as nat);
        ok := Enter(n as nat, kind, old(Table()), uses);
      }
    }

    method Grow(n: Size) returns (ok: bool)
      requires Valid()
      modifies this`arg
      ensures Valid() && Table() == old(Table()) && (arg == old(arg) || fresh(arg))
      ensures ok ==> n as nat < arg.Length
      ensures !ok ==> TooLarge(n as nat, ARGUMENT_SIZE)
    {
      ok := true;
      if n as nat >= arg.Length {
        var length;
        ok, length := NewLength(arg.Length, n, ARGUMENT_SIZE);
        if ok {
          var was := arg[..];
          var memory := new ArgType[length as nat](i => if 0 <= i < |was| then was[i] else NoType);
          assert memory[..count] == was[..count] == arg[..count];
          arg := memory;
        }
      }
    }

    method Pad(n: nat)
      requires Valid() && n < arg.Length
      modifies this`count, arg
      ensures Valid() && count == (if old(count) > n then old(count) else n + 1)
      ensures Table()[..old(count)] == old(Table())
      ensures forall i :: old(count) <= i < count ==> Table()[i] == NoType
    {
      while count <= n
        invariant old(count) <= count <= arg.Length && (count > n + 1 ==> count == old(count))
        invariant arg[..old(count)] == old(arg[..count])
        invariant forall i :: old(count) <= i < count ==> arg[i] == NoType
      {
        arg[count] := NoType;
        count := count + 1;
      }
    }

    method Enter(n: nat, kind: ArgType, ghost before: seq<ArgType>, ghost uses: seq<Use>) returns (ok: bool)
      requires Valid() && n < count && kind != NoType && TableOf(before, uses)
      requires |before| <= count && Table()[..|before|] == before && count == (if |before| > n then |before| else n + 1)
      requires forall i :: |before| <= i < count ==> Table()[i] == NoType
      modifies arg
      ensures Valid()
      ensures ok ==> TableOf(Table(), uses + [Use(n, kind)])
      ensures !ok ==> !Consistent(uses + [Use(n, kind)])
    {
      ghost var padded := Table();
      ok := true;
      if arg[n] == NoType {
        arg[n] := kind;
        assert Table() == padded[n := kind];
        Entered(before, padded, uses, n, kind);
      } else if arg[n] != kind {
        ok := false;
        assert padded[n] == before[n];
        Clash(before, uses, n, kind);
      } else {
        assert padded[n] == before[n];
        assert padded == before;
        Repeated(before, uses, n, kind);
      }
    }
  }

  lemma Entered(before: seq<ArgType>, padded: seq<ArgType>, uses: seq<Use>, n: nat, kind: ArgType)
    requires TableOf(before, uses) && kind != NoType && |before| <= |padded| && padded[..|before|] == before
    requires n < |padded| == (if |before| > n then |before| else n + 1) && padded[n] == NoType
    requires forall i :: |before| <= i < |padded| ==> padded[i] == NoType
    ensures TableOf(padded[n := kind], uses + [Use(n, kind)])
  {
    var all := uses + [Use(n, kind)];
    var table := padded[n := kind];
    forall i | 0 <= i < |all|
      ensures all[i].index < |table| && table[all[i].index] == all[i].kind
    {
      if i < |uses| {
        assert before[uses[i].index] == padded[uses[i].index];
      }
    }
    forall m | 0 <= m < |table| && table[m] != NoType
      ensures Taken(all, m)
    {
      if m == n {
        assert all[|uses|].index == m;
      } else {
        assert before[m] == padded[m];
        var i :| 0 <= i < |uses| && uses[i].index == m;
        assert all[i].index == m;
      }
    }
  }

  lemma Clash(before: seq<ArgType>, uses: seq<Use>, n: nat, kind: ArgType)
    requires TableOf(before, uses) && n < |before| && before[n] != NoType && before[n] != kind
    ensures !Consistent(uses + [Use(n, kind)])
  {
    var all := uses + [Use(n, kind)];
    var i :| 0 <= i < |uses| && uses[i].index == n;
    assert all[i].index == all[|uses|].index && all[i].kind != all[|uses|].kind;
  }

  lemma Repeated(before: seq<ArgType>, uses: seq<Use>, n: nat, kind: ArgType)
    requires TableOf(before, uses) && n < |before| && before[n] == kind && kind != NoType
    ensures TableOf(before, uses + [Use(n, kind)])
  {
    var all := uses + [Use(n, kind)];
    forall m | 0 <= m < |before| && before[m] != NoType
      ensures Taken(all, m)
    {
      var i :| 0 <= i < |uses| && uses[i].index == m;
      assert all[i].index == m;
    }
  }

  /** Fetching the arguments succeeds exactly if every position up to the highest one is used. */
  method FetchArgs(a: Arguments, ghost uses: seq<Use>) returns (ok: bool)
    requires a.Valid() && TableOf(a.Table(), uses)
    ensures ok <==> forall n :: 0 <= n < a.count ==> Taken(uses, n)
  {
    var i := 0;
    while i < a.count
      invariant i <= a.count
      invariant forall n :: 0 <= n < i ==> a.Table()[n] != NoType
    {
      assert a.Table()[i] == a.arg[i];
      if a.arg[i] == NoType {
        assert !Taken(uses, i);
        return false;
      }
      i := i + 1;
    }
    forall n | 0 <= n < a.count
      ensures Taken(uses, n)
    {
      assert a.Table()[n] != NoType;
    }
    return true;
  }
}
