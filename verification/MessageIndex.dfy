/** The index of a message catalogue: a double-hashed table over the original strings, extended in memory by
    the system-dependent ones, and the binary search used when there is no table. */
module MessageIndex {
  import opened Probing

  /** A C string: its bytes up to the terminating NUL. */
  type Text = seq<bv8>

  datatype Found = NotFound | At(index: nat)

  /** What a lookup must return: the first string with that key. */
  function ScanFrom(keys: seq<Text>, msgid: Text, i: nat): Found
    requires i <= |keys|
    decreases |keys| - i
  {
    if i == |keys| then NotFound else if keys[i] == msgid then At(i) else ScanFrom(keys, msgid, i + 1)
  }

  function Scan(keys: seq<Text>, msgid: Text): Found { ScanFrom(keys, msgid, 0) }

  lemma {:induction false} ScanMeaning(keys: seq<Text>, msgid: Text, i: nat)
    requires i <= |keys|
    ensures var r := ScanFrom(keys, msgid, i);
            if r.At? then i <= r.index < |keys| && keys[r.index] == msgid && msgid !in keys[i..r.index]
            else msgid !in keys[i..]
    decreases |keys| - i
  {
    if i < |keys| && keys[i] != msgid {
      ScanMeaning(keys, msgid, i + 1);
      var r := ScanFrom(keys, msgid, i);
      if r.At? {
        assert keys[i..r.index] == [keys[i]] + keys[i + 1..r.index];
      } else {
        assert keys[i..] == [keys[i]] + keys[i + 1..];
      }
    }
  }

  lemma ScanIs(keys: seq<Text>, msgid: Text, i: nat)
    requires i < |keys| && keys[i] == msgid && forall j :: 0 <= j < i ==> keys[j] != msgid
    ensures Scan(keys, msgid) == At(i)
  {
    ScanMeaning(keys, msgid, 0);
  }

  lemma ScanIsNot(keys: seq<Text>, msgid: Text)
    requires forall j :: 0 <= j < |keys| ==> keys[j] != msgid
    ensures Scan(keys, msgid) == NotFound
  {
    ScanMeaning(keys, msgid, 0);
  }

  // ----- the hash function -----

  function Up(hval: bv64): bv64 { hval << 4 }

  function Plus(h: bv64, c: bv8): bv64 { h + c as bv64 }

  function TopFour(h: bv64): bv64 { h & 0xF000_0000 }

  function Mixed(h: bv64, g: bv64): bv64 { (h ^ (g >> 24)) ^ g }

  /** The top four of the low 32 bits are folded back into the hash. */
  function FoldedBack(h: bv64): bv64 { if TopFour(h) != 0 then Mixed(h, TopFour(h)) else h }

  /** `hash_string`, where `unsigned long` has 64 bits. */
  function HashString(s: Text): bv64
  {
    if s == [] then 0 else FoldedBack(Plus(Up(HashString(s[..|s| - 1])), s[|s| - 1]))
  }

  /** The hash as the 32-bit value that indexes the table. */
  function HashVal(s: Text): nat
  {
    Low32(HashString(s))
  }

  function Low32(h: bv64): nat { (h & 0xFFFF_FFFF) as nat }

  method ComputeHash(str: Text) returns (hval: bv64)
    ensures hval == HashString(str)
  {
    hide Up, Plus, TopFour, Mixed;
    hval := 0;
    for i := 0 to |str|
      invariant hval == HashString(str[..i])
    {
      assert str[..i + 1][..i] == str[..i];
      hval := Up(hval);
      hval := Plus(hval, str[i]);
      var g := TopFour(hval);
      if g != 0 {
        hval := Mixed(hval, g);
      }
    }
    assert str[..|str|] == str;
  }

  // The same with 32 bits: what is shifted out is lost.

  function Up32(hval: bv32): bv32 { hval << 4 }

  function Plus32(h: bv32, c: bv8): bv32 { h + c as bv32 }

  function TopFour32(h: bv32): bv32 { h & 0xF000_0000 }

  function Mixed32(h: bv32, g: bv32): bv32 { (h ^ (g >> 24)) ^ g }

  function FoldedBack32(h: bv32): bv32 { if TopFour32(h) != 0 then Mixed32(h, TopFour32(h)) else h }

  function HashString32(s: Text): bv32
  {
    if s == [] then 0 else FoldedBack32(Plus32(Up32(HashString32(s[..|s| - 1])), s[|s| - 1]))
  }

  /** One byte more: sixteen times the hash and the byte, and of the 32 bits of this the top four are taken off and
      added without carry to the second digit from the right. */
  lemma HashGrows(s: Text, c: bv8)
    ensures
      var sum := 16 * HashString32(s) + c as bv32;
      HashString32(s + [c]) == (sum & 0x0FFF_FFFF) ^ ((sum >> 28) << 4)
  {
    assert (s + [c])[..|s|] == s;
    DigitsMove(HashString32(s), c);
  }

  lemma ShiftIsTimes(h: bv32)
    ensures Up32(h) == 16 * h
  {
  }

  lemma DigitsMove(h: bv32, c: bv8)
    ensures
      var sum := 16 * h + c as bv32;
      FoldedBack32(Plus32(Up32(h), c)) == (sum & 0x0FFF_FFFF) ^ ((sum >> 28) << 4)
  {
    ShiftIsTimes(h);
    var sum := 16 * h + c as bv32;
    assert Plus32(Up32(h), c) == sum by { hide FoldedBack32, Up32; }
    hide Up32, Plus32, FoldedBack32;
    FoldMoves(sum);
  }

  lemma FoldMoves(x: bv32)
    ensures FoldedBack32(x) == (x & 0x0FFF_FFFF) ^ ((x >> 28) << 4)
  {
  }

  predicate LowBits(x: bv64, y: bv32) { x & 0xFFFF_FFFF == y as bv64 }

  lemma LowShift(x: bv64, y: bv32)
    requires x & 0xFFFF_FFFF == y as bv64
    ensures (x << 4) & 0xFFFF_FFFF == (y << 4) as bv64
  {
  }

  lemma LowSum(x: bv64, y: bv32, c: bv8, sum: bv64, sum32: bv32)
    requires LowBits(x, y) && sum == x + c as bv64 && sum32 == y + c as bv32
    ensures LowBits(sum, sum32)
  {
  }

  lemma LowUp(x: bv64, y: bv32)
    requires LowBits(x, y)
    ensures LowBits(Up(x), Up32(y))
  {
    LowShift(x, y);
  }

  lemma LowPlus(x: bv64, y: bv32, c: bv8)
    requires LowBits(x, y)
    ensures LowBits(Plus(x, c), Plus32(y, c))
  {
    hide LowBits;
    LowSum(x, y, c, Plus(x, c), Plus32(y, c));
  }

  lemma LowTop(x: bv64, y: bv32)
    requires LowBits(x, y)
    ensures LowBits(TopFour(x), TopFour32(y)) && (TopFour(x) == 0 <==> TopFour32(y) == 0)
  {
  }

  lemma LowMixed(x: bv64, y: bv32, g: bv64, g32: bv32)
    requires LowBits(x, y) && LowBits(g, g32) && g == TopFour(x)
    ensures LowBits(Mixed(x, g), Mixed32(y, g32))
  {
  }

  lemma TopIsGone(y: bv32)
    ensures TopFour32(Mixed32(y, TopFour32(y))) == 0
  {
  }

  lemma LowFolded(x: bv64, y: bv32)
    requires LowBits(x, y)
    ensures LowBits(FoldedBack(x), FoldedBack32(y)) && TopFour32(FoldedBack32(y)) == 0
  {
    hide LowBits, TopFour, TopFour32, Mixed, Mixed32;
    LowTop(x, y);
    LowMixed(x, y, TopFour(x), TopFour32(y));
    TopIsGone(y);
  }

  /** The value that indexes the table, of 28 bits, is the same whatever the width of `unsigned long`, so a catalogue
      can be made on one machine and read on another. */
  lemma {:induction false} HashIsPortable(s: Text)
    ensures LowBits(HashString(s), HashString32(s)) && TopFour32(HashString32(s)) == 0
  {
    hide LowBits, FoldedBack, FoldedBack32, Up, Up32, Plus, Plus32, TopFour32;
    if s == [] {
      LowStart();
    } else {
      var n := |s| - 1;
      var h, h32 := HashString(s[..n]), HashString32(s[..n]);
      HashIsPortable(s[..n]);
      LowUp(h, h32);
      LowPlus(Up(h), Up32(h32), s[n]);
      LowFolded(Plus(Up(h), s[n]), Plus32(Up32(h32), s[n]));
    }
  }

  lemma LowStart()
    ensures LowBits(0, 0) && TopFour32(0) == 0
  {
  }

  // ----- the table -----

  function Start(key: Text, size: nat): (i: nat)
    requires size > 2
    ensures i < size
  {
    HashVal(key) % size
  }

  function Incr(key: Text, size: nat): (d: nat)
    requires size > 2
    ensures 0 < d < size
  {
    1 + HashVal(key) % (size - 2)
  }

  /** Where the probing starts, and its step. */
  method StartProbing(key: Text, size: nat) returns (idx: nat, incr: nat)
    requires size > 2
    ensures idx == Start(key, size) && incr == Incr(key, size)
  {
    hide HashString, Low32;
    var hval := ComputeHash(key);
    var h := Low32(hval);
    idx, incr := h % size, 1 + h % (size - 2);
  }

  function Probe(key: Text, size: nat, k: nat): (s: nat)
    requires size > 2
    ensures s < size
  {
    Slot(Start(key, size), Incr(key, size), size, k)
  }

  /** String `i` sits at its `p`-th probe, behind occupied slots none of which holds a later string with the
      same key. */
  predicate PlacedAt(tab: seq<nat>, keys: seq<Text>, i: nat, p: nat)
    requires |tab| > 2 && i < |keys| && Entries(tab, |keys|)
  {
    tab[Probe(keys[i], |tab|, p)] == i + 1
    && forall q :: 0 <= q < p ==> Behind(tab, keys, i, tab[Probe(keys[i], |tab|, q)])
  }

  predicate Behind(tab: seq<nat>, keys: seq<Text>, i: nat, entry: nat)
    requires i < |keys| && entry <= |keys|
  {
    entry != 0 && (keys[entry - 1] == keys[i] ==> entry - 1 < i)
  }

  predicate Entries(tab: seq<nat>, n: nat) { forall s :: 0 <= s < |tab| ==> tab[s] <= n }

  /** The table indexes exactly these strings. */
  ghost predicate Indexed(tab: seq<nat>, keys: seq<Text>)
  {
    |tab| > 2 && Entries(tab, |keys|) && forall i :: 0 <= i < |keys| ==> Reachable(tab, keys, i)
  }

  ghost predicate Reachable(tab: seq<nat>, keys: seq<Text>, i: nat)
    requires |tab| > 2 && i < |keys| && Entries(tab, |keys|)
  {
    exists p: nat :: PlacedAt(tab, keys, i, p)
  }

  /** A free slot within reach of a key's probes. */
  lemma FreeSlotReached(tab: seq<nat>, key: Text, s: nat) returns (k: nat)
    requires |tab| > 2 && s < |tab| && tab[s] == 0 && Coprime(|tab|, Incr(key, |tab|))
    ensures tab[Probe(key, |tab|, k)] == 0
  {
    k := EverySlotReached(Start(key, |tab|), Incr(key, |tab|), |tab|, s);
  }

  /** Nothing before probe `k` is free or holds the key. */
  predicate Passed(tab: seq<nat>, keys: seq<Text>, msgid: Text, k: nat)
    requires |tab| > 2 && Entries(tab, |keys|)
  {
    forall q :: 0 <= q < k ==> Other(keys, msgid, tab[Probe(msgid, |tab|, q)])
  }

  predicate Other(keys: seq<Text>, msgid: Text, entry: nat)
    requires entry <= |keys|
  {
    entry != 0 && keys[entry - 1] != msgid
  }

  /** Where the probing stops decides the scan: at a free slot there is no such string, at a string with the
      key it is the first one. */
  lemma StopDecides(tab: seq<nat>, keys: seq<Text>, msgid: Text, k: nat)
    requires Indexed(tab, keys) && Passed(tab, keys, msgid, k)
    ensures var e := tab[Probe(msgid, |tab|, k)];
            (e == 0 ==> Scan(keys, msgid) == NotFound)
            && (e > 0 && keys[e - 1] == msgid ==> Scan(keys, msgid) == At(e - 1))
  {
    var e := tab[Probe(msgid, |tab|, k)];
    var r := Scan(keys, msgid);
    ScanMeaning(keys, msgid, 0);
    if r.At? {
      var i := r.index;
      assert Reachable(tab, keys, i);
      var p: nat :| PlacedAt(tab, keys, i, p);
      FirstStop(tab, keys, msgid, k, i, p);
    } else if e > 0 {
      assert keys[e - 1] in keys;
    }
  }

  lemma FirstStop(tab: seq<nat>, keys: seq<Text>, msgid: Text, k: nat, i: nat, p: nat)
    requires Indexed(tab, keys) && Passed(tab, keys, msgid, k)
    requires i < |keys| && keys[i] == msgid && msgid !in keys[..i] && PlacedAt(tab, keys, i, p)
    ensures var e := tab[Probe(msgid, |tab|, k)]; e != 0 && (keys[e - 1] == msgid ==> e - 1 == i)
  {
    var e := tab[Probe(msgid, |tab|, k)];
    if k < p {
      assert Behind(tab, keys, i, e);
      assert e - 1 < i ==> keys[..i][e - 1] == keys[e - 1];
    }
  }

  // ----- a table on which a lookup never ends -----

  /** A table of four slots, two of them free, indexing two strings of one letter: a third one, whose step is 2, finds
      neither a free slot nor itself at any probe. */
  lemma LookupNeverEnds()
    ensures
      var tab: seq<nat> := [0, 1, 0, 2];
      var keys: seq<Text> := [[101], [99]];
      && Indexed(tab, keys) && FreeSlots(tab) == 2 && !Coprime(4, Incr([97], 4))
      && forall k: nat :: Other(keys, [97], tab[Probe([97], 4, k)])
  {
    var tab: seq<nat> := [0, 1, 0, 2];
    var keys: seq<Text> := [[101], [99]];
    HashesOfLetters();
    HalfFree();
    OddLetter([101], 1, 0);
    OddLetter([99], 3, 0);
    hide HashVal;
    assert PlacedAt(tab, keys, 0, 0) && PlacedAt(tab, keys, 1, 0);
    assert Divides(2, 4) && Divides(2, Incr([97], 4));
    forall k: nat
      ensures Other(keys, [97], tab[Probe([97], 4, k)])
    {
      OddLetter([97], 1, k);
    }
  }

  lemma HalfFree()
    ensures FreeSlots([0, 1, 0, 2]) == 2
  {
    var one: seq<nat>, two: seq<nat>, three: seq<nat>, tab: seq<nat> := [0], [0, 1], [0, 1, 0], [0, 1, 0, 2];
    assert one[..0] == [] && FreeSlots(one) == 1;
    assert two[..1] == one && FreeSlots(two) == 1;
    assert three[..2] == two && FreeSlots(three) == 2;
    assert tab[..3] == three;
  }

  lemma HashesOfLetters()
    ensures HashVal([97]) == 97 && HashVal([99]) == 99 && HashVal([101]) == 101
  {
    LowOfLetters();
    hide Low32;
    HashOfLetter(97, 97);
    HashOfLetter(99, 99);
    HashOfLetter(101, 101);
  }

  lemma LowOfLetters()
    ensures Low32(97) == 97 && Low32(99) == 99 && Low32(101) == 101
  {
  }

  lemma HashOfLetter(c: bv8, h: bv64)
    requires h == c as bv64
    ensures HashVal([c]) == Low32(h)
  {
    hide Low32, Up, Plus, FoldedBack;
    var s := [c];
    assert s[..0] == [] && HashString(s) == FoldedBack(Plus(Up(HashString(s[..0])), c));
    Unfolded(c);
  }

  lemma Unfolded(c: bv8)
    ensures FoldedBack(Plus(Up(0), c)) == c as bv64
  {
  }

  /** A string whose hash is odd keeps to the odd slots of four. */
  lemma OddLetter(key: Text, start: nat, k: nat)
    requires start < 4 && start % 2 == 1 && HashVal(key) % 4 == start && HashVal(key) % 2 == 1
    ensures Start(key, 4) == start && Incr(key, 4) == 2
    ensures Probe(key, 4, k) in {1, 3} && Probe(key, 4, 0) == start
  {
    hide HashVal;
    OddOfFour(start + k * 2);
  }

  lemma OddOfFour(n: nat)
    requires n % 2 == 1
    ensures n % 4 == 1 || n % 4 == 3
  {
    var h := n / 2;
    ModPlus(2 * (h % 2) + 1, h / 2, 4);
    assert n == 2 * (h % 2) + 1 + h / 2 * 4;
  }

  // ----- the strings behind the table -----

  /** The bytes up to the first NUL, as `strcmp` sees them.  Entries with plural forms go on after it. */
  function CString(bytes: Text): Text
  {
    if bytes == [] || bytes[0] == 0 then [] else [bytes[0]] + CString(bytes[1..])
  }

  /** An original string: its memory, and the length its descriptor gives. */
  datatype Original = Original(bytes: Text, length: nat)

  /** The strings of the file, and those built in memory, whose lengths include the closing NUL. */
  datatype Originals = Originals(fromFile: seq<Original>, inMemory: seq<Original>)
  {
    function Count(): nat { |fromFile| + |inMemory| }

    function Get(i: nat): Original
      requires i < Count()
    {
      if i < |fromFile| then fromFile[i] else inMemory[i - |fromFile|]
    }

    function Keys(): (keys: seq<Text>)
      ensures |keys| == Count() && forall i :: 0 <= i < Count() ==> keys[i] == CString(Get(i).bytes)
    {
      seq(Count(), i requires 0 <= i < Count() => CString(Get(i).bytes))
    }

    predicate LengthsOk()
    {
      (forall i :: 0 <= i < |fromFile| ==> |CString(fromFile[i].bytes)| <= fromFile[i].length)
      && (forall i :: 0 <= i < |inMemory| ==> |CString(inMemory[i].bytes)| < inMemory[i].length)
    }

    /** The comparison of the probing loop: the lengths first, then the bytes. */
    predicate Matches(i: nat, msgid: Text)
      requires i < Count()
    {
      (if i < |fromFile| then Get(i).length >= |msgid| else Get(i).length > |msgid|)
      && CString(Get(i).bytes) == msgid
    }
  }

  /** The length test never rejects a string with the right bytes, plural entries included. */
  lemma LengthTestIsSafe(os: Originals, i: nat, msgid: Text)
    requires os.LengthsOk() && i < os.Count()
    ensures os.Matches(i, msgid) <==> os.Keys()[i] == msgid
  {
  }

  /** The probing loop of `_nl_find_msg`. */
  method FindInTable(tab: seq<nat>, os: Originals, msgid: Text, ghost free: nat) returns (r: Found)
    requires os.LengthsOk() && Indexed(tab, os.Keys()) && |tab| < UINT32
    requires free < |tab| && tab[free] == 0 && Coprime(|tab|, Incr(msgid, |tab|))
    ensures r == Scan(os.Keys(), msgid)
  {
    var size := |tab|;
    var idx, incr := StartProbing(msgid, size);
    ghost var keys := os.Keys();
    ghost var k: nat := 0;
    ghost var end := FreeSlotReached(tab, msgid, free);
    SlotZero(idx, incr, size);
    while true
      invariant idx == Probe(msgid, size, k) && Passed(tab, keys, msgid, k) && k <= end
      decreases end - k
    {
      StopDecides(tab, keys, msgid, k);
      var nstr := tab[idx];
      if nstr == 0 { return NotFound; }
      nstr := nstr - 1;
      LengthTestIsSafe(os, nstr, msgid);
      if os.Matches(nstr, msgid) { return At(nstr); }
      StepIsAddition(Start(msgid, size), incr, size, k);
      if idx >= size - incr {
        idx := idx - (size - incr);
      } else {
        idx := idx + incr;
      }
      k := k + 1;
    }
  }

  // ----- extending the table in memory -----

  function FreeSlots(tab: seq<nat>): nat
  {
    if tab == [] then 0 else FreeSlots(tab[..|tab| - 1]) + if tab[|tab| - 1] == 0 then 1 else 0
  }

  lemma {:induction false} SomeFreeSlot(tab: seq<nat>) returns (s: nat)
    requires FreeSlots(tab) > 0
    ensures s < |tab| && tab[s] == 0
  {
    var m := |tab| - 1;
    if tab[m] == 0 { s := m; } else { s := SomeFreeSlot(tab[..m]); }
  }

  lemma {:induction false} FillSlot(tab: seq<nat>, s: nat, v: nat)
    requires s < |tab| && tab[s] == 0 && v > 0
    ensures FreeSlots(tab[s := v]) == FreeSlots(tab) - 1
  {
    var m := |tab| - 1;
    if s < m {
      assert tab[s := v][..m] == tab[..m][s := v];
      FillSlot(tab[..m], s, v);
    } else {
      assert tab[s := v][..m] == tab[..m];
    }
  }

  /** Every slot before probe `k` of the key is taken. */
  predicate Occupied(tab: seq<nat>, key: Text, k: nat)
    requires |tab| > 2
  {
    forall q :: 0 <= q < k ==> tab[Probe(key, |tab|, q)] != 0
  }

  /** Filling the first free slot of a new string's probes keeps everything indexed. */
  lemma InsertKeepsIndex(tab: seq<nat>, keys: seq<Text>, key: Text, k: nat)
    requires Indexed(tab, keys) && Occupied(tab, key, k) && tab[Probe(key, |tab|, k)] == 0
    ensures Indexed(tab[Probe(key, |tab|, k) := |keys| + 1], keys + [key])
  {
    var s := Probe(key, |tab|, k);
    var tab', keys' := tab[s := |keys| + 1], keys + [key];
    assert Entries(tab', |keys'|);
    forall i | 0 <= i < |keys'| ensures Reachable(tab', keys', i) {
      if i < |keys| {
        assert Reachable(tab, keys, i);
        var p: nat :| PlacedAt(tab, keys, i, p);
        OldStaysPlaced(tab, keys, key, s, i, p);
      } else {
        assert PlacedAt(tab', keys', i, k);
      }
    }
  }

  lemma OldStaysPlaced(tab: seq<nat>, keys: seq<Text>, key: Text, s: nat, i: nat, p: nat)
    requires |tab| > 2 && Entries(tab, |keys|) && s < |tab| && tab[s] == 0
    requires i < |keys| && PlacedAt(tab, keys, i, p)
    ensures Entries(tab[s := |keys| + 1], |keys| + 1)
    ensures PlacedAt(tab[s := |keys| + 1], keys + [key], i, p)
  {
    var tab', keys' := tab[s := |keys| + 1], keys + [key];
    forall q | 0 <= q < p ensures Behind(tab', keys', i, tab'[Probe(keys'[i], |tab'|, q)]) {
      assert Behind(tab, keys, i, tab[Probe(keys[i], |tab|, q)]);
    }
  }

  /** Probes until a slot is free. */
  method FindFree(tab: array<nat>, key: Text) returns (idx: nat, ghost k: nat)
    requires 2 < tab.Length < UINT32 && FreeSlots(tab[..]) > 0 && Coprime(tab.Length, Incr(key, tab.Length))
    ensures idx == Probe(key, tab.Length, k) && tab[idx] == 0 && Occupied(tab[..], key, k)
  {
    var size := tab.Length;
    var incr;
    ghost var free := SomeFreeSlot(tab[..]);
    ghost var end := FreeSlotReached(tab[..], key, free);
    idx, incr := StartProbing(key, size);
    k := 0;
    SlotZero(idx, incr, size);
    while tab[idx] != 0
      invariant idx == Probe(key, size, k) && Occupied(tab[..], key, k) && k <= end
      decreases end - k
    {
      StepIsAddition(Start(key, size), incr, size, k);
      if idx >= size - incr {
        idx := idx - (size - incr);
      } else {
        idx := idx + incr;
      }
      k := k + 1;
    }
  }

  /** Puts one more string into the table. */
  method Insert(tab: array<nat>, key: Text, nstr: nat, ghost keys: seq<Text>)
    requires Indexed(tab[..], keys) && nstr == |keys| && tab.Length < UINT32
    requires FreeSlots(tab[..]) > 0 && Coprime(tab.Length, Incr(key, tab.Length))
    modifies tab
    ensures Indexed(tab[..], keys + [key]) && FreeSlots(tab[..]) == FreeSlots(old(tab[..])) - 1
  {
    ghost var was: seq<nat> := tab[..];
    var idx, k := FindFree(tab, key);
    InsertKeepsIndex(was, keys, key, k);
    FillSlot(was, idx, nstr + 1);
    tab[idx] := 1 + nstr;
    assert tab[..] == was[idx := nstr + 1];
  }

  /** The augmented table: a copy of the file's table with the in-memory strings added behind it. */
  method Augment(hashTab: seq<nat>, ghost keys: seq<Text>, added: seq<Text>, nstrings: nat) returns (tab: array<nat>)
    requires nstrings == |keys| && Indexed(hashTab, keys) && |hashTab| < UINT32 && FreeSlots(hashTab) > |added|
    requires forall i :: 0 <= i < |added| ==> Coprime(|hashTab|, Incr(added[i], |hashTab|))
    ensures fresh(tab) && tab.Length == |hashTab|
    ensures Indexed(tab[..], keys + added) && FreeSlots(tab[..]) == FreeSlots(hashTab) - |added|
  {
    tab := new nat[|hashTab|];
    for i := 0 to |hashTab|
      invariant tab[..i] == hashTab[..i]
    {
      tab[i] := hashTab[i];
    }
    assert tab[..] == hashTab && keys + added[..0] == keys;
    for i := 0 to |added|
      invariant Indexed(tab[..], keys + added[..i]) && FreeSlots(tab[..]) == FreeSlots(hashTab) - i
    {
      Insert(tab, added[i], nstrings + i, keys + added[..i]);
      assert keys + added[..i + 1] == keys + added[..i] + [added[i]];
    }
    assert added[..|added|] == added;
  }

  /** The loaded catalogue as a whole: with a slot to spare and a size coprime to the steps, any lookup after the
      extension ends, and finds what a scan over file strings and in-memory strings would. */
  method LoadAndFind(hashTab: seq<nat>, os: Originals, msgid: Text) returns (r: Found)
    requires os.LengthsOk() && 2 < |hashTab| < UINT32 && Coprime(|hashTab|, Incr(msgid, |hashTab|))
    requires forall i :: 0 <= i < |os.inMemory| ==>
      Coprime(|hashTab|, Incr(CString(os.inMemory[i].bytes), |hashTab|))
    requires Indexed(hashTab, os.(inMemory := []).Keys()) && FreeSlots(hashTab) > |os.inMemory|
    ensures r == Scan(os.Keys(), msgid)
  {
    ghost var keys := os.(inMemory := []).Keys();
    var added := seq(|os.inMemory|, i requires 0 <= i < |os.inMemory| => CString(os.inMemory[i].bytes));
    var tab := Augment(hashTab, keys, added, |os.fromFile|);
    assert keys + added == os.Keys();
    ghost var free := SomeFreeSlot(tab[..]);
    r := FindInTable(tab[..], os, msgid, free);
  }

  /** A prime size suits every key. */
  lemma PrimeSuitsAll(size: nat)
    requires Prime(size) && size > 2
    ensures forall key: Text :: Coprime(size, Incr(key, size))
  {
    forall key: Text
      ensures Coprime(size, Incr(key, size))
    {
      PrimeSizeIsCoprime(size, Incr(key, size));
    }
  }

  // ----- the binary search -----

  /** `strcmp`: bytes compare as unsigned. */
  function Strcmp(a: Text, b: Text): int
  {
    if a == [] then (if b == [] then 0 else -1)
    else if b == [] then 1
    else if a[0] != b[0] then (if a[0] < b[0] then -1 else 1)
    else Strcmp(a[1..], b[1..])
  }

  lemma {:induction false} StrcmpIsOrder(a: Text, b: Text, c: Text)
    ensures Strcmp(a, b) == 0 <==> a == b
    ensures Strcmp(a, b) < 0 <==> Strcmp(b, a) > 0
    ensures Strcmp(a, b) < 0 && Strcmp(b, c) < 0 ==> Strcmp(a, c) < 0
  {
    if a != [] && b != [] {
      assert a == [a[0]] + a[1..] && b == [b[0]] + b[1..];
      StrcmpIsOrder(a[1..], b[1..], if c == [] then [] else c[1..]);
    }
  }

  /** The strings of a catalogue come sorted. */
  predicate Sorted(keys: seq<Text>)
  {
    forall i, j :: 0 <= i < j < |keys| ==> Strcmp(keys[i], keys[j]) < 0
  }

  /** The fallback of `_nl_find_msg` when the file has no table. */
  method FindBySearch(keys: seq<Text>, msgid: Text) returns (r: Found)
    requires Sorted(keys)
    ensures r == Scan(keys, msgid)
  {
    var bottom, top := 0, |keys|;
    while bottom < top
      invariant 0 <= bottom <= top <= |keys|
      invariant forall i :: 0 <= i < bottom ==> Strcmp(keys[i], msgid) < 0
      invariant forall i :: top <= i < |keys| ==> Strcmp(msgid, keys[i]) < 0
    {
      var act := (bottom + top) / 2;
      var cmp := Strcmp(msgid, keys[act]);
      if cmp < 0 {
        forall i | act <= i < |keys| ensures Strcmp(msgid, keys[i]) < 0 {
          if i > act { StrcmpIsOrder(msgid, keys[act], keys[i]); }
        }
        top := act;
      } else if cmp > 0 {
        StrcmpIsOrder(keys[act], msgid, msgid);
        forall i | 0 <= i <= act ensures Strcmp(keys[i], msgid) < 0 {
          if i < act { StrcmpIsOrder(keys[i], keys[act], msgid); }
        }
        bottom := act + 1;
      } else {
        StrcmpIsOrder(msgid, keys[act], msgid);
        forall j | 0 <= j < act ensures keys[j] != msgid {
          StrcmpIsOrder(keys[j], msgid, msgid);
        }
        ScanIs(keys, msgid, act);
        return At(act);
      }
    }
    forall j | 0 <= j < |keys| ensures keys[j] != msgid {
      StrcmpIsOrder(msgid, keys[j], msgid);
      StrcmpIsOrder(keys[j], msgid, msgid);
    }
    ScanIsNot(keys, msgid);
    return NotFound;
  }
}
