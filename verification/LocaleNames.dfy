/** File names of locale catalogues, and the buffer in which they are put together. */
module LocaleNames {
  import opened MessageIndex

  /** A text without the terminator, as a C string holds it. */
  predicate Clean(t: Text) { forall i :: 0 <= i < |t| ==> t[i] != 0 }

  const SLASH: bv8 := 47
  const COLON: bv8 := 58
  const UNDERSCORE: bv8 := 95
  const DOT: bv8 := 46
  const PLUS: bv8 := 43
  const AT_SIGN: bv8 := 64
  const COMMA: bv8 := 44

  // ----- argz vectors -----

  /** The directories one after the other, each with its terminator. */
  function Argz(dirs: seq<Text>): Text
  {
    if dirs == [] then [] else dirs[0] + [0] + Argz(dirs[1..])
  }

  /** The directories one after the other, each followed by `sep`. */
  function Joined(dirs: seq<Text>, sep: bv8): Text
  {
    if dirs == [] then [] else dirs[0] + [sep] + Joined(dirs[1..], sep)
  }

  lemma {:induction false} JoinedLength(dirs: seq<Text>, sep: bv8)
    ensures |Joined(dirs, sep)| == |Argz(dirs)| && (dirs != [] ==> |Argz(dirs)| > 0)
    ensures dirs != [] ==> Joined(dirs, sep)[|Argz(dirs)| - 1] == sep
  {
    if dirs != [] { JoinedLength(dirs[1..], sep); }
  }

  lemma {:induction false} JoinedMore(dirs: seq<Text>, d: Text, sep: bv8)
    ensures Joined(dirs + [d], sep) == Joined(dirs, sep) + d + [sep]
  {
    if dirs != [] {
      assert (dirs + [d])[1..] == dirs[1..] + [d];
      JoinedMore(dirs[1..], d, sep);
    } else {
      assert (dirs + [d])[1..] == [];
    }
  }

  method Strlen(argz: array<bv8>, start: nat, ghost d: Text, ghost rest: Text) returns (n: nat)
    requires start + |d| < argz.Length && Clean(d)
    requires argz[start..] == d + [0] + rest
    ensures n == |d|
  {
    n := 0;
    assert forall k :: 0 <= k < |d| ==> argz[start + k] == argz[start..][k] == d[k];
    assert argz[start + |d|] == argz[start..][|d|] == 0;
    while argz[start + n] != 0
      invariant n <= |d|
      decreases |d| - n
    {
      n := n + 1;
    }
  }

  method ArgzCount(argz: array<bv8>, ghost dirs: seq<Text>) returns (count: nat)
    requires argz[..] == Argz(dirs) && forall d :: d in dirs ==> Clean(d)
    ensures count == |dirs|
  {
    count := 0;
    var start := 0;
    assert argz[start..] == argz[..];
    while start < argz.Length
      invariant start <= argz.Length && count <= |dirs|
      invariant argz[start..] == Argz(dirs[count..])
      invariant start == argz.Length ==> count == |dirs|
    {
      JoinedLength(dirs[count..], 0);
      assert |argz[start..]| == argz.Length - start;
      assert dirs[count..][1..] == dirs[count + 1..];
      var partLen := Strlen(argz, start, dirs[count], Argz(dirs[count + 1..]));
      assert argz[start + partLen + 1..] == argz[start..][partLen + 1..];
      start := start + partLen + 1;
      count := count + 1;
      JoinedLength(dirs[count..], 0);
    }
  }

  /** The first `k` directories have got their separators; `pos` is where the next one begins, or the last
      terminator. */
  ghost predicate Partly(s: Text, pos: nat, left: nat, sep: bv8, dirs: seq<Text>, k: nat, tail: Text)
  {
    && k <= |dirs| && pos <= |s|
    && if left > 0 then
         && k < |dirs| && left == |Argz(dirs[k..])|
         && s[..pos] == Joined(dirs[..k], sep) && s[pos..] == Argz(dirs[k..]) + tail
       else s[..pos] + [sep] == Joined(dirs, sep) && s[pos..] == [0] + tail
  }

  lemma PartlyNext(s: Text, pos: nat, left: nat, sep: bv8, dirs: seq<Text>, k: nat, tail: Text, end: nat)
    requires left > 0 && Partly(s, pos, left, sep, dirs, k, tail) && end == pos + |dirs[k]|
    ensures left > |dirs[k]| && end < |s|
    ensures var rest := left - (|dirs[k]| + 1);
            if rest > 0 then Partly(s[end := sep], end + 1, rest, sep, dirs, k + 1, tail)
            else Partly(s, end, 0, sep, dirs, k + 1, tail)
  {
    var d, more := dirs[k], dirs[k + 1..];
    assert dirs[k..] == [d] + more;
    assert dirs[k..][1..] == more;
    assert Argz(dirs[k..]) == d + [0] + Argz(more);
    Cut(s, pos, d, [0] + (Argz(more) + tail));
    JoinedMore(dirs[..k], d, sep);
    assert dirs[..k + 1] == dirs[..k] + [d];
    JoinedLength(more, sep);
    if more == [] {
      assert dirs[..k + 1] == dirs;
    } else {
      assert s[end := sep][..end + 1] == s[..end] + [sep];
      assert s[end := sep][end + 1..] == s[end..][1..];
    }
  }

  method StringifyPart(argz: array<bv8>, pos: nat, left: nat, sep: bv8, ghost dirs: seq<Text>, ghost k: nat,
                       ghost tail: Text)
    returns (end: nat, rest: nat)
    requires left > 0 && Partly(argz[..], pos, left, sep, dirs, k, tail) && Clean(dirs[k])
    modifies argz
    ensures rest < left && Partly(argz[..], end, rest, sep, dirs, k + 1, tail)
  {
    ghost var before := argz[..];
    PartlyNext(before, pos, left, sep, dirs, k, tail, pos + |dirs[k]|);
    var partLen := PartLength(argz, pos, left, sep, dirs, k, tail);
    end := pos + partLen;
    rest := left - (partLen + 1);
    if rest > 0 {
      argz[end] := sep;
      assert argz[..] == before[end := sep];
      end := end + 1;
    }
  }

  method PartLength(argz: array<bv8>, pos: nat, left: nat, sep: bv8, ghost dirs: seq<Text>, ghost k: nat,
                    ghost tail: Text)
    returns (n: nat)
    requires left > 0 && Partly(argz[..], pos, left, sep, dirs, k, tail) && Clean(dirs[k])
    ensures n == |dirs[k]|
  {
    assert dirs[k..][1..] == dirs[k + 1..];
    assert argz[pos..] == argz[..][pos..] == dirs[k] + [0] + (Argz(dirs[k + 1..]) + tail);
    assert |argz[pos..]| == argz.Length - pos;
    n := Strlen(argz, pos, dirs[k], Argz(dirs[k + 1..]) + tail);
  }

  /** Turns the terminators but the last into separators. */
  method ArgzStringify(argz: array<bv8>, len: nat, sep: bv8, ghost dirs: seq<Text>, ghost tail: Text)
    requires dirs != [] && forall d :: d in dirs ==> Clean(d)
    requires len == |Argz(dirs)| && argz[..] == Argz(dirs) + tail
    modifies argz
    ensures 0 < len <= argz.Length && argz[..len - 1] + [sep] == Joined(dirs, sep) && argz[len - 1..] == [0] + tail
  {
    var pos: nat, left: nat := 0, len;
    ghost var k := 0;
    JoinedLength(dirs, sep);
    assert dirs[0..] == dirs;
    assert |argz[..]| == len + |tail|;
    while left > 0
      invariant Partly(argz[..], pos, left, sep, dirs, k, tail)
      decreases left
    {
      pos, left := StringifyPart(argz, pos, left, sep, dirs, k, tail);
      k := k + 1;
    }
    assert |argz[..][..pos] + [sep]| == len;
    assert argz[..][..pos] == argz[..pos] && argz[..][pos..] == argz[pos..];
  }

  lemma Cut(s: Text, pos: nat, d: Text, rest: Text)
    requires pos <= |s| && s[pos..] == d + rest
    ensures pos + |d| <= |s| && s[..pos + |d|] == s[..pos] + d && s[pos + |d|..] == rest
  {
    assert s == s[..pos] + (d + rest);
    assert s[pos + |d|..] == s[pos..][|d|..];
  }
}
