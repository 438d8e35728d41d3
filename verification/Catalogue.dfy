/** A catalogue as a whole: the two passes over its system-dependent strings, the extended table, and the lookup. */
module Catalogue {
  import opened Probing
  import opened MessageIndex
  import opened SysdepSegments
  import opened SysdepStrings

  datatype Reply = NoMessage | Reply(text: Text)

  function OriginalText(good: seq<Pair>, values: seq<Value>, j: nat): Text
    requires j < |good| && AllGood(good, values)
  {
    assert good[j] in good;
    Meaning(good[j].0, values)
  }

  function TranslationText(good: seq<Pair>, values: seq<Value>, j: nat): Text
    requires j < |good| && AllGood(good, values)
  {
    assert good[j] in good;
    Meaning(good[j].1, values)
  }

  /** The originals by their numbers: those of the file, then those assembled for this system. */
  function Keys(file: seq<Original>, good: seq<Pair>, values: seq<Value>): (keys: seq<Text>)
    requires AllGood(good, values)
    ensures |keys| == |file| + |good|
    ensures forall i :: 0 <= i < |file| ==> keys[i] == CString(file[i].bytes)
    ensures forall j :: 0 <= j < |good| ==> keys[|file| + j] == CString(OriginalText(good, values, j))
  {
    seq(|file|, i requires 0 <= i < |file| => CString(file[i].bytes))
    + seq(|good|, j requires 0 <= j < |good| => CString(OriginalText(good, values, j)))
  }

  /** What a lookup must answer: the translation with the number of the first original that is the message. */
  function Answer(file: seq<Original>, texts: seq<Text>, good: seq<Pair>, values: seq<Value>, msgid: Text): Reply
    requires AllGood(good, values) && |texts| == |file|
  {
    var keys := Keys(file, good, values);
    ScanMeaning(keys, msgid, 0);
    match Scan(keys, msgid)
    case NotFound => NoMessage
    case At(i) => Reply(if i < |file| then texts[i] else TranslationText(good, values, i - |file|))
  }

  /** The originals end with a NUL: what the file format promises. */
  predicate Terminated(good: seq<Pair>, values: seq<Value>)
    requires AllGood(good, values)
  {
    forall j :: 0 <= j < |good| ==> 0 in OriginalText(good, values, j)
  }

  /** The size of the table is coprime to the steps of the originals; any prime is. */
  ghost predicate Suits(size: nat, good: seq<Pair>, values: seq<Value>)
    requires AllGood(good, values) && size > 2
  {
    forall j :: 0 <= j < |good| ==> Coprime(size, Incr(CString(OriginalText(good, values, j)), size))
  }

  lemma PrimeSuits(size: nat, good: seq<Pair>, values: seq<Value>)
    requires AllGood(good, values) && size > 2 && Prime(size)
    ensures Suits(size, good, values)
  {
    PrimeSuitsAll(size);
  }

  lemma SuitsMemory(size: nat, os: Originals, good: seq<Pair>, values: seq<Value>)
    requires AllGood(good, values) && size > 2 && Suits(size, good, values)
    requires |os.inMemory| == |good|
    requires forall i :: 0 <= i < |good| ==> os.inMemory[i].bytes == OriginalText(good, values, i)
    ensures forall i :: 0 <= i < |os.inMemory| ==> Coprime(size, Incr(CString(os.inMemory[i].bytes), size))
  {
    hide Coprime, Incr, CString, OriginalText;
  }

  /** An original that occurs once is translated by its own translation. */
  lemma AnswerOfOwn(file: seq<Original>, texts: seq<Text>, good: seq<Pair>, values: seq<Value>, j: nat)
    requires AllGood(good, values) && |texts| == |file| && j < |good|
    requires forall i :: 0 <= i < |file| + j ==> Keys(file, good, values)[i] != CString(OriginalText(good, values, j))
    ensures Answer(file, texts, good, values, CString(OriginalText(good, values, j)))
            == Reply(TranslationText(good, values, j))
  {
    ScanIs(Keys(file, good, values), CString(OriginalText(good, values, j)), |file| + j);
  }

  lemma {:induction false} CStringShort(text: Text)
    ensures |CString(text)| <= |text| && (0 in text ==> |CString(text)| < |text|)
  {
    if text != [] && text[0] != 0 {
      assert text == [text[0]] + text[1..];
      CStringShort(text[1..]);
    }
  }

  // ----- loading -----

  /** The text that a descriptor stands for. */
  function TextOf(d: Descriptor, mem: seq<bv8>): Text
    requires d.InMemory? ==> d.start + d.length <= |mem|
  {
    match d
    case InFile(t) => t
    case InMemory(start, length) => mem[start..start + length]
  }

  lemma DescribedText(d: Descriptor, mem: seq<bv8>, limit: nat, text: Text)
    requires Describes(d, mem, limit, text)
    ensures (d.InMemory? ==> d.start + d.length <= |mem|) && TextOf(d, mem) == text
  {
  }

  /** The original strings as the lookup sees them, once the system-dependent ones have been filled in. */
  method Loaded(file: seq<Original>, orig: seq<Descriptor>, trans: seq<Descriptor>, mem: array<bv8>, limit: nat,
                ghost good: seq<Pair>, values: seq<Value>)
    returns (os: Originals)
    requires AllGood(good, values) && |orig| == |trans| == |good| && Terminated(good, values)
    requires DescribesAll(orig, trans, mem[..], limit, good, values)
    requires forall i :: 0 <= i < |file| ==> |CString(file[i].bytes)| <= file[i].length
    ensures os.fromFile == file && |os.inMemory| == |good| && os.LengthsOk() && os.Keys() == Keys(file, good, values)
    ensures forall i :: 0 <= i < |good| ==> os.inMemory[i].bytes == OriginalText(good, values, i)
  {
    hide Meaning, CString;
    var strings: seq<Original> := [];
    for j := 0 to |orig|
      invariant |strings| == j
      invariant forall i :: 0 <= i < j ==>
        strings[i] == MessageIndex.Original(OriginalText(good, values, i), |OriginalText(good, values, i)|)
    {
      assert DescribesPair(orig[j], trans[j], mem[..], limit, good[j], values);
      DescribedText(orig[j], mem[..], limit, OriginalText(good, values, j));
      var text := TextOf(orig[j], mem[..]);
      strings := strings + [MessageIndex.Original(text, |text|)];
    }
    os := Originals(file, strings);
    forall i | 0 <= i < |good|
      ensures |CString(os.inMemory[i].bytes)| < os.inMemory[i].length
    {
      CStringShort(OriginalText(good, values, i));
    }
    SameKeys(os, file, good, values);
  }

  lemma SameKeys(os: Originals, file: seq<Original>, good: seq<Pair>, values: seq<Value>)
    requires AllGood(good, values) && os.fromFile == file && |os.inMemory| == |good|
    requires forall i :: 0 <= i < |good| ==> os.inMemory[i].bytes == OriginalText(good, values, i)
    ensures os.Keys() == Keys(file, good, values)
  {
    hide CString, OriginalText;
    var keys := Keys(file, good, values);
    forall i | 0 <= i < |keys|
      ensures os.Keys()[i] == keys[i]
    {
      if i >= |file| {
        assert os.Get(i) == os.inMemory[i - |file|] && keys[|file| + (i - |file|)] == keys[i];
      }
    }
  }

  /** The translation with this number. */
  method Fetch(texts: seq<Text>, orig: seq<Descriptor>, trans: seq<Descriptor>, mem: array<bv8>, limit: nat, i: nat,
               ghost good: seq<Pair>, values: seq<Value>)
    returns (text: Text)
    requires AllGood(good, values) && |orig| == |trans| == |good| && i < |texts| + |good|
    requires DescribesAll(orig, trans, mem[..], limit, good, values)
    ensures text == if i < |texts| then texts[i] else TranslationText(good, values, i - |texts|)
  {
    if i < |texts| {
      return texts[i];
    }
    var j := i - |texts|;
    assert DescribesPair(orig[j], trans[j], mem[..], limit, good[j], values);
    DescribedText(trans[j], mem[..], limit, TranslationText(good, values, j));
    text := TextOf(trans[j], mem[..]);
  }

  /** Loads a catalogue and looks a message up: the file is refused exactly if a reference dangles that counts;
      otherwise the answer is the one specified, with the texts that these strings mean on this system. */
  method Translate(hashTab: seq<nat>, file: seq<Original>, texts: seq<Text>, pairs: seq<Pair>, values: seq<Value>,
                   msgid: Text)
    returns (ok: bool, reply: Reply)
    requires |texts| == |file| && forall i :: 0 <= i < |file| ==> |CString(file[i].bytes)| <= file[i].length
    requires 2 < |hashTab| < UINT32 && Indexed(hashTab, Originals(file, []).Keys())
    requires AllWellFormed(pairs) && FreeSlots(hashTab) > |GoodPairs(pairs, values)|
    requires Terminated(GoodPairs(pairs, values), values)
    requires Coprime(|hashTab|, Incr(msgid, |hashTab|)) && Suits(|hashTab|, GoodPairs(pairs, values), values)
    ensures ok <==> NoneDangles(pairs, values)
    ensures ok ==> reply == Answer(file, texts, GoodPairs(pairs, values), values, msgid)
  {
    hide Suits, Terminated, Coprime, Indexed, DescribesAll, OriginalText, NoneDangles;
    ghost var good := GoodPairs(pairs, values);
    reply := NoMessage;
    var count, memneed;
    ok, count, memneed := SizingPass(pairs, values, |hashTab|);
    if ok {
      var mem, orig, trans, used := FillingPass(pairs, values, |hashTab|, count, memneed);
      var os := Loaded(file, orig, trans, mem, memneed, good, values);
      assert os.(inMemory := []) == Originals(file, []);
      SuitsMemory(|hashTab|, os, good, values);
      ScanMeaning(Keys(file, good, values), msgid, 0);
      var r := LoadAndFind(hashTab, os, msgid);
      if r.At? {
        var text := Fetch(texts, orig, trans, mem, memneed, r.index, good, values);
        reply := Reply(text);
      }
    }
  }
}
