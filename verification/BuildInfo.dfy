/** The record of build information strings: each one padded with NUL bytes to whole words. */
module BuildInfo {
  import opened Powers
  import opened BlockIO

  const BUILD_INFO_TAG: Word := 0xa7000000

  type Byte = b: int | 0 <= b < 256

  /** The bytes of a C string before its NUL, of a length that fits 32 bits. */
  ghost predicate IsCString(s: seq<Byte>) {
    |s| < TWO_32 && forall i :: 0 <= i < |s| ==> s[i] != 0
  }

  ghost predicate AllStrings(strings: seq<seq<Byte>>) {
    forall s :: s in strings ==> IsCString(s)
  }

  /** Words of a string with its NUL and its padding. */
  function StringLength(s: seq<Byte>): nat {
    (|s| + 4) / 4
  }

  function ByteAt(s: seq<Byte>, i: nat): Byte {
    if i < |s| then s[i] else 0
  }

  /** Word k of a zeroed buffer into which the string was copied. */
  function StringWord(s: seq<Byte>, k: nat): Word {
    ByteAt(s, 4 * k) + 0x100 * ByteAt(s, 4 * k + 1) + 0x1_0000 * ByteAt(s, 4 * k + 2) + 0x100_0000 * ByteAt(s, 4 * k + 3)
  }

  function StringWords(s: seq<Byte>): (r: seq<Word>)
    ensures |r| == StringLength(s) && forall k :: 0 <= k < |r| ==> r[k] == StringWord(s, k)
  {
    seq(StringLength(s), k requires 0 <= k < StringLength(s) => StringWord(s, k))
  }

  function StringRecord(s: seq<Byte>): (r: seq<Word>)
    requires |s| < TWO_32
    ensures |r| == StringLength(s) + 1
  {
    [StringLength(s)] + StringWords(s)
  }

  function StringRecords(strings: seq<seq<Byte>>, n: nat): seq<Word>
    requires n <= |strings| && AllStrings(strings)
  {
    if n == 0 then []
    else
      assert strings[n - 1] in strings;
      StringRecords(strings, n - 1) + StringRecord(strings[n - 1])
  }

  /** Words of the first n strings, their lengths included. */
  function StringsLength(strings: seq<seq<Byte>>, n: nat): nat
    requires n <= |strings|
  {
    if n == 0 then 0 else StringsLength(strings, n - 1) + StringLength(strings[n - 1]) + 1
  }

  lemma {:induction false} StringsLengthCounts(strings: seq<seq<Byte>>, n: nat)
    requires n <= |strings| && AllStrings(strings)
    ensures |StringRecords(strings, n)| == StringsLength(strings, n)
  {
    if n > 0 {
      StringsLengthCounts(strings, n - 1);
    }
  }

  // ---------- writing ----------

  /** The value of a sum in 32-bit arithmetic. */
  function Wrap(n: nat): Word { n % TWO_32 }

  lemma {:induction false} WrapTurns(n: nat, turns: nat)
    ensures Wrap(n + turns * TWO_32) == Wrap(n)
  {
    if turns > 0 {
      WrapTurns(n, turns - 1);
      WrapOnce(n + (turns - 1) * TWO_32);
    }
  }

  lemma WrapOnce(n: nat)
    ensures Wrap(n + TWO_32) == Wrap(n)
  {
  }

  lemma WrapAdd(a: nat, b: nat)
    ensures Wrap(Wrap(a) + b) == Wrap(a + b) && Wrap(a + Wrap(b)) == Wrap(a + b)
  {
    WrapParts(a);
    WrapParts(b);
    hide Wrap;
    WrapTurns(Wrap(a) + b, a / TWO_32);
    WrapTurns(a + Wrap(b), b / TWO_32);
  }

  lemma WrapParts(n: nat)
    ensures n == Wrap(n) + n / TWO_32 * TWO_32
  {
  }

  method ComputeStringArrayLen(strings: seq<seq<Byte>>, n: nat) returns (len: Word)
    requires n <= |strings|
    ensures len == Wrap(StringsLength(strings, n))
  {
    len := 0;
    for i := 0 to n
      invariant len == Wrap(StringsLength(strings, i))
    {
      hide Wrap, StringsLength;
      var stringLen := Wrap((|strings[i]| + 4) / 4);
      NextLength(strings, i);
      len := Wrap(len + stringLen);
      len := Wrap(len + 1);
    }
  }

  lemma NextLength(strings: seq<seq<Byte>>, i: nat)
    requires i < |strings|
    ensures Wrap(Wrap(Wrap(StringsLength(strings, i)) + Wrap((|strings[i]| + 4) / 4)) + 1)
            == Wrap(StringsLength(strings, i + 1))
  {
    hide Wrap;
    var before, more := StringsLength(strings, i), StringLength(strings[i]);
    WrapAdd(before, Wrap(more));
    WrapAdd(before, more);
    WrapAdd(before + more, 1);
  }

  method WriteStringArray(w: Writer, strings: seq<seq<Byte>>, n: nat)
    requires w.Valid() && n <= |strings| && AllStrings(strings)
    modifies w, w.buffer
    ensures w.Valid() && w.Written() == old(w.Written()) + StringRecords(strings, n)
  {
    hide StringRecord, IsCString;
    for j := 0 to n
      invariant w.Valid() && w.Written() == old(w.Written()) + StringRecords(strings, j)
    {
      ShortString(strings, j);
      WriteString(w, strings[j]);
    }
  }

  lemma ShortString(strings: seq<seq<Byte>>, j: nat)
    requires AllStrings(strings) && j < |strings|
    ensures |strings[j]| < TWO_32
  {
    assert strings[j] in strings;
  }

  method WriteString(w: Writer, s: seq<Byte>)
    requires w.Valid() && |s| < TWO_32
    modifies w, w.buffer
    ensures w.Valid() && w.Written() == old(w.Written()) + StringRecord(s)
  {
    hide StringWord;
    var stringLen := (|s| + 4) / 4;
    var aligned := new Word[stringLen + 1](_ => 0);
    aligned[0] := stringLen;
    forall k | 0 <= k < stringLen {
      aligned[k + 1] := StringWord(s, k);
    }
    assert aligned[..] == StringRecord(s);
    WriteAll(w, aligned);
  }

  method WriteAll(w: Writer, words: array<Word>)
    requires w.Valid() && words != w.buffer
    modifies w, w.buffer
    ensures w.Valid() && w.Written() == old(w.Written()) + old(words[..])
  {
    ghost var all := words[..];
    assert all[..0] == [];
    for i := 0 to words.Length
      invariant w.Valid() && words[..] == all && w.Written() == old(w.Written()) + all[..i]
    {
      w.WriteUnsigned(words[i]);
      assert all[..i + 1] == all[..i] + [all[i]];
    }
    assert all[..words.Length] == all;
  }

  /** Number of strings before the empty one that ends the list. */
  function CountStrings(list: seq<seq<Byte>>): (n: nat)
    ensures n <= |list| && forall i :: 0 <= i < n ==> list[i] != []
    ensures n < |list| ==> list[n] == []
  {
    if list == [] || list[0] == [] then 0 else 1 + CountStrings(list[1..])
  }

  function BuildInfoBody(list: seq<seq<Byte>>): seq<Word>
    requires |list| < TWO_32 && AllStrings(list)
  {
    [CountStrings(list)] + StringRecords(list, CountStrings(list))
  }

  /** Writes the strings of an object file; the list ends with an empty string. */
  method WriteBuildInfo(w: Writer, present: bool, list: seq<seq<Byte>>)
    requires w.Valid() && |list| < TWO_32 && AllStrings(list)
    requires present ==> [] in list
    modifies w, w.buffer
    ensures w.Valid()
    ensures w.Written() == old(w.Written()) +
              if present then [0xa700_0000, Wrap(|BuildInfoBody(list)|)] + BuildInfoBody(list) else []
  {
    hide StringRecords, StringsLength, CountStrings, Wrap;
    if !present {
      assert w.Written() == w.Written() + [];
      return;
    }
    ghost var before := w.Written();
    var num := CountUntilEmpty(list);
    StringsLengthCounts(list, num);
    var len: nat;
    len := ComputeStringArrayLen(list, num);
    WrapAdd(1, StringsLength(list, num));
    w.WriteTagLength(BUILD_INFO_TAG, Wrap(1 + len));
    w.WriteUnsigned(num);
    WriteStringArray(w, list, num);
    WrittenInParts(before, [BUILD_INFO_TAG, Wrap(1 + len)], [num], StringRecords(list, num));
  }

  method CountUntilEmpty(list: seq<seq<Byte>>) returns (num: nat)
    requires [] in list
    ensures num == CountStrings(list)
  {
    num := 0;
    SameCount(list, 0);
    while list[num] != []
      invariant num < |list| && CountStrings(list) == num + CountStrings(list[num..])
      invariant [] in list[num..]
      decreases |list| - num
    {
      SameCount(list, num);
      num := num + 1;
    }
  }

  lemma SameCount(list: seq<seq<Byte>>, n: nat)
    requires n < |list|
    ensures list[0..] == list
    ensures list[n] != [] ==> CountStrings(list[n..]) == 1 + CountStrings(list[n + 1..])
    ensures [] in list[n..] && list[n] != [] ==> n + 1 < |list| && [] in list[n + 1..]
  {
    assert list[n..][1..] == list[n + 1..];
    assert list[n..] == [list[n]] + list[n + 1..];
  }

  // ---------- reading ----------

  /** The memory of the next n strings, their words and lengths added up, and what is left of the file. */
  datatype ReadStrings = ReadStrings(strings: seq<seq<Word>>, length: nat, rest: seq<Word>)

  function TakeStrings(rest: seq<Word>, n: nat): ReadStrings {
    if n == 0 then ReadStrings([], 0, rest)
    else
      var before := TakeStrings(rest, n - 1);
      var (stringLen, r) := NextWord(before.rest);
      var (words, r') := TakeWords(r, stringLen);
      ReadStrings(before.strings + [words], before.length + stringLen + 1, r')
  }

  method ReadStringArray(r: Reader, n: nat) returns (strings: seq<seq<Word>>, len: Word)
    requires r.Valid()
    modifies r, r.buffer
    ensures r.Valid()
    ensures var taken := TakeStrings(old(r.Rest()), n);
            strings == taken.strings && len == Wrap(taken.length) && r.Rest() == taken.rest
  {
    hide Wrap, NextWord, TakeWords, TakeStrings;
    ghost var rest := r.Rest();
    strings, len := [], Wrap(0);
    NoStringTaken(rest);
    for j := 0 to n
      invariant r.Valid()
      invariant var taken := TakeStrings(rest, j);
                strings == taken.strings && len == Wrap(taken.length) && r.Rest() == taken.rest
    {
      var stringLen: nat;
      stringLen := r.ReadUnsigned();
      var words := ReadWordsOf(r, stringLen);
      strings := strings + [words];
      OneMoreString(rest, j);
      WrapAdd(TakeStrings(rest, j).length, stringLen + 1);
      len := Wrap(len + (stringLen + 1));
    }
  }

  lemma NoStringTaken(rest: seq<Word>)
    ensures TakeStrings(rest, 0) == ReadStrings([], 0, rest)
  {
  }

  lemma OneMoreString(rest: seq<Word>, n: nat)
    ensures var before := TakeStrings(rest, n);
            var (stringLen, r) := NextWord(before.rest);
            var (words, r') := TakeWords(r, stringLen);
            TakeStrings(rest, n + 1) == ReadStrings(before.strings + [words], before.length + (stringLen + 1), r')
  {
    hide NextWord, TakeWords;
  }

  method ReadWordsOf(r: Reader, n: nat) returns (words: seq<Word>)
    requires r.Valid()
    modifies r, r.buffer
    ensures r.Valid() && (words, r.Rest()) == TakeWords(old(r.Rest()), n)
  {
    hide NextWord;
    words := [];
    for i := 0 to n
      invariant r.Valid() && (words, r.Rest()) == TakeWords(old(r.Rest()), i)
    {
      var word := r.ReadUnsigned();
      words := words + [word];
    }
  }

  /** Reads the strings of a record; fails if they do not take up the declared length. */
  method ReadBuildInfo(r: Reader, length: Word) returns (ok: bool, strings: seq<seq<Word>>)
    requires r.Valid()
    modifies r, r.buffer
    ensures r.Valid()
    ensures var (num, rest) := NextWord(old(r.Rest()));
            var taken := TakeStrings(rest, num);
            && (ok <==> Wrap(1 + taken.length) == length)
            && r.Rest() == taken.rest
            && (ok ==> strings == taken.strings)
  {
    hide NextWord, TakeStrings;
    var num := r.ReadUnsigned();
    ghost var rest := r.Rest();
    var len;
    strings, len := ReadStringArray(r, num);
    ok := len == (length - 1) % TWO_32;
    WrapBack(TakeStrings(rest, num).length, length);
  }

  lemma WrapBack(n: nat, length: Word)
    ensures Wrap(n) == (length - 1) % TWO_32 <==> Wrap(1 + n) == length
  {
  }

  // ---------- what is read back ----------

  /** Byte i of a buffer of words. */
  function ByteOf(words: seq<Word>, i: nat): Byte
    requires i < 4 * |words|
  {
    var w := words[i / 4];
    if i % 4 == 0 then w % 0x100
    else if i % 4 == 1 then w / 0x100 % 0x100
    else if i % 4 == 2 then w / 0x1_0000 % 0x100
    else w / 0x100_0000
  }

  function BytesOf(words: seq<Word>): (r: seq<Byte>)
    ensures |r| == 4 * |words| && forall i :: 0 <= i < |r| ==> r[i] == ByteOf(words, i)
  {
    seq(4 * |words|, i requires 0 <= i < 4 * |words| => ByteOf(words, i))
  }

  /** The bytes of a buffer before its first NUL: the C string it holds. */
  function CString(bytes: seq<Byte>): seq<Byte> {
    if bytes == [] || bytes[0] == 0 then [] else [bytes[0]] + CString(bytes[1..])
  }

  lemma FourBytes(a: Byte, b: Byte, c: Byte, d: Byte)
    ensures var w := a + 0x100 * b + 0x1_0000 * c + 0x100_0000 * d;
            && w % 0x100 == a && w / 0x100 % 0x100 == b && w / 0x1_0000 % 0x100 == c && w / 0x100_0000 == d
  {
    var w := a + 0x100 * b + 0x1_0000 * c + 0x100_0000 * d;
    assert w / 0x100 == b + 0x100 * c + 0x1_0000 * d;
    assert w / 0x1_0000 == c + 0x100 * d;
  }

  /** The buffer holds the bytes of the string and then only NULs. */
  lemma PackedByte(s: seq<Byte>, i: nat)
    requires i < 4 * StringLength(s)
    ensures ByteOf(StringWords(s), i) == ByteAt(s, i)
  {
    var k := i / 4;
    FourBytes(ByteAt(s, 4 * k), ByteAt(s, 4 * k + 1), ByteAt(s, 4 * k + 2), ByteAt(s, 4 * k + 3));
  }

  lemma {:induction false} CStringOf(s: seq<Byte>, bytes: seq<Byte>)
    requires |s| < |bytes| && bytes[..|s|] == s && bytes[|s|] == 0
    requires forall i :: 0 <= i < |s| ==> s[i] != 0
    ensures CString(bytes) == s
  {
    if s != [] {
      assert bytes[0] == s[0];
      assert bytes[1..][..|s| - 1] == s[1..];
      CStringOf(s[1..], bytes[1..]);
    }
  }

  /** A string is recovered, up to its padding. */
  lemma StringReadsBack(s: seq<Byte>)
    requires IsCString(s)
    ensures CString(BytesOf(StringWords(s))) == s
  {
    hide StringWords, ByteOf;
    var bytes := BytesOf(StringWords(s));
    forall i | 0 <= i < |bytes|
      ensures bytes[i] == ByteAt(s, i)
    {
      PackedByte(s, i);
    }
    CStringOf(s, bytes);
  }

  /** The memory that strings are read back into. */
  function Packed(strings: seq<seq<Byte>>, n: nat): (r: seq<seq<Word>>)
    requires n <= |strings|
    ensures |r| == n && forall j :: 0 <= j < n ==> r[j] == StringWords(strings[j])
  {
    seq(n, j requires 0 <= j < n => StringWords(strings[j]))
  }

  lemma StringTaken(s: seq<Byte>, tail: seq<Word>)
    requires |s| < TWO_32
    ensures var (stringLen, r) := NextWord(StringRecord(s) + tail);
            stringLen == StringLength(s) && TakeWords(r, stringLen) == (StringWords(s), tail)
  {
    hide StringWords;
    assert StringRecord(s) + tail == [StringLength(s)] + (StringWords(s) + tail);
    NextWordOf(StringLength(s), StringWords(s) + tail);
    WordsReadBack(StringWords(s), tail);
  }

  lemma {:induction false} StringsReadBack(strings: seq<seq<Byte>>, n: nat, tail: seq<Word>)
    requires n <= |strings| && AllStrings(strings)
    ensures TakeStrings(StringRecords(strings, n) + tail, n)
            == ReadStrings(Packed(strings, n), StringsLength(strings, n), tail)
  {
    hide StringWords, StringRecord, NextWord, TakeWords, IsCString, StringLength;
    hide TakeStrings, Packed, StringsLength;
    if n == 0 {
      NoneTaken(strings, tail);
    } else {
      var s := strings[n - 1];
      ShortString(strings, n - 1);
      var next := StringRecord(s) + tail;
      StringsReadBack(strings, n - 1, next);
      assert StringRecords(strings, n) + tail == StringRecords(strings, n - 1) + next;
      StringTaken(s, tail);
      NextTaken(strings, n - 1, StringRecords(strings, n) + tail, tail);
    }
  }

  lemma NoneTaken(strings: seq<seq<Byte>>, tail: seq<Word>)
    requires AllStrings(strings)
    ensures StringRecords(strings, 0) + tail == tail
    ensures TakeStrings(tail, 0) == ReadStrings(Packed(strings, 0), StringsLength(strings, 0), tail)
  {
    assert [] + tail == tail && Packed(strings, 0) == [];
  }

  lemma NextTaken(strings: seq<seq<Byte>>, n: nat, rest: seq<Word>, tail: seq<Word>)
    requires n < |strings| && |strings[n]| < TWO_32
    requires TakeStrings(rest, n) == ReadStrings(Packed(strings, n), StringsLength(strings, n), StringRecord(strings[n]) + tail)
    requires var (stringLen, r) := NextWord(StringRecord(strings[n]) + tail);
             stringLen == StringLength(strings[n]) && TakeWords(r, stringLen) == (StringWords(strings[n]), tail)
    ensures TakeStrings(rest, n + 1) == ReadStrings(Packed(strings, n + 1), StringsLength(strings, n + 1), tail)
  {
    hide StringWords, StringRecord, NextWord, TakeWords, StringLength;
    assert Packed(strings, n + 1) == Packed(strings, n) + [StringWords(strings[n])];
  }

  /**
   Any list of strings that was written is read back: the declared length is the one the reader
   computes, so that its check passes, and every string is recovered up to its padding.
   */
  lemma BuildInfoReadsBack(list: seq<seq<Byte>>, tail: seq<Word>)
    requires |list| < TWO_32 && AllStrings(list)
    ensures var (num, rest) := NextWord(BuildInfoBody(list) + tail);
            var taken := TakeStrings(rest, num);
            && num == CountStrings(list)
            && Wrap(1 + taken.length) == Wrap(|BuildInfoBody(list)|)
            && taken.rest == tail
            && |taken.strings| == num
            && forall j :: 0 <= j < num ==> CString(BytesOf(taken.strings[j])) == list[j]
  {
    hide StringRecords, TakeStrings, BytesOf, CString, StringWords;
    var num := CountStrings(list);
    assert BuildInfoBody(list) + tail == [num] + (StringRecords(list, num) + tail);
    NextWordOf(num, StringRecords(list, num) + tail);
    StringsReadBack(list, num, tail);
    StringsLengthCounts(list, num);
    forall j | 0 <= j < num
      ensures CString(BytesOf(StringWords(list[j]))) == list[j]
    {
      assert list[j] in list;
      StringReadsBack(list[j]);
    }
  }
}
