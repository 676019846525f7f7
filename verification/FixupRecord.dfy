/** The record of functions whose all-zero profile was fixed up: one flag for each function. */
module FixupRecord {
  import opened Powers
  import opened BlockIO
  import opened Bits

  const FIXUP_TAG: Word := 0xa9000000

  /** The declared length of a record of n functions, in 32-bit arithmetic. */
  function FixupLength(n: Word): (length: Word) {
    1 + (n + 31) % TWO_32 / 32
  }

  /** A function is flagged if its byte is not zero. */
  function FixedUp(zeroCounts: seq<int>): (f: seq<bool>)
    ensures |f| == |zeroCounts| && forall i :: 0 <= i < |f| ==> f[i] == (zeroCounts[i] != 0)
  {
    seq(|zeroCounts|, i requires 0 <= i < |zeroCounts| => zeroCounts[i] != 0)
  }

  function FixupBody(flags: seq<bool>): (r: seq<Word>)
    requires |flags| < TWO_32
  {
    [|flags|] + RowWords(flags, (|flags| + 31) / 32)
  }

  /** The declared length is the number of words that follow, unless rounding up the count overflows. */
  lemma FixupLengthIff(flags: seq<bool>)
    requires |flags| < TWO_32
    ensures |FixupBody(flags)| == FixupLength(|flags|) <==> |flags| + 31 < TWO_32
  {
    hide FixupLength;
    LengthIff(|flags|);
  }

  lemma LengthIff(n: Word)
    ensures FixupLength(n) == 1 + (n + 31) / 32 <==> n + 31 < TWO_32
  {
    var up := n + 31;
    if up < TWO_32 {
      assert up % TWO_32 == up;
    } else {
      RemainderPast(up);
      assert (up - TWO_32) / 32 == 0;
      assert up / 32 > 0;
    }
  }

  lemma RemainderPast(x: nat)
    requires TWO_32 <= x < 2 * TWO_32
    ensures x % TWO_32 == x - TWO_32
  {
  }

  /** The flags of row b that have been packed once n flags have been looked at. */
  ghost predicate RowSoFar(flags: seq<bool>, n: nat, word: nat, bit: nat) {
    bit == n % 32 && word == Packed(Row(flags, n / 32), bit)
  }

  lemma RowNext(flags: seq<bool>, n: nat, word: nat, bit: nat)
    requires RowSoFar(flags, n, word, bit) && n < |flags|
    ensures var word' := if flags[n] then WithBit(word, bit) else word;
            if bit + 1 == 32 then (n + 1) % 32 == 0 && n / 32 + 1 == (n + 1) / 32 && word' == RowWord(flags, n / 32)
            else (n + 1) / 32 == n / 32 && RowSoFar(flags, n + 1, word', bit + 1)
  {
    hide WithBit;
    var row := Row(flags, n / 32);
    assert row[bit] == flags[n];
    HighBitClear(word, bit);
    assert Packed(row, bit + 1) == if flags[n] then WithBit(word, bit) else word;
  }

  lemma {:induction false} RowEndsEarly(flags: seq<bool>, b: nat, k: nat, m: nat)
    requires k <= m <= 32 && |flags| <= 32 * b + k
    ensures Packed(Row(flags, b), m) == Packed(Row(flags, b), k)
  {
    if k < m {
      RowEndsEarly(flags, b, k, m - 1);
      assert !Row(flags, b)[m - 1];
    }
  }

  /** Writes the flags of all functions. */
  method WriteComdatZeroFixup(w: Writer, zeroCounts: seq<int>)
    requires w.Valid() && |zeroCounts| < TWO_32
    modifies w, w.buffer
    ensures w.Valid()
    ensures w.Written() == old(w.Written())
              + [0xa900_0000, FixupLength(|zeroCounts|)] + FixupBody(FixedUp(zeroCounts))
  {
    hide FixupLength, FixedUp, RowWords;
    var n := |zeroCounts|;
    w.WriteTagLength(FIXUP_TAG, FixupLength(n));
    w.WriteUnsigned(n);
    WriteFlags(w, zeroCounts);
    WrittenInParts(old(w.Written()), [FIXUP_TAG, FixupLength(n)], [n], RowWords(FixedUp(zeroCounts), (n + 31) / 32));
  }

  /** The rows that are complete after n flags have been written, and the one that is not. */
  ghost predicate FlagsSoFar(written: seq<Word>, start: seq<Word>, flags: seq<bool>, n: nat, word: nat, bit: nat) {
    written == start + RowWords(flags, n / 32) && RowSoFar(flags, n, word, bit)
  }

  lemma FlagsBegin(start: seq<Word>, flags: seq<bool>)
    ensures FlagsSoFar(start, start, flags, 0, 0, 0)
  {
    RowBegins(flags, 0);
    assert start + [] == start;
  }

  lemma FlagsNext(written: seq<Word>, start: seq<Word>, flags: seq<bool>, n: nat, word: nat, bit: nat)
    requires FlagsSoFar(written, start, flags, n, word, bit) && n < |flags|
    ensures var word' := if flags[n] then WithBit(word, bit) else word;
            if bit + 1 == 32 then word' < TWO_32 && FlagsSoFar(written + [word'], start, flags, n + 1, 0, 0)
            else FlagsSoFar(written, start, flags, n + 1, word', bit + 1)
  {
    hide WithBit, RowSoFar, RowWord;
    RowNext(flags, n, word, bit);
    if bit + 1 == 32 {
      RowBegins(flags, n + 1);
      assert start + RowWords(flags, n / 32) + [RowWord(flags, n / 32)] == start + RowWords(flags, n / 32 + 1);
    }
  }

  lemma FlagsEnd(written: seq<Word>, start: seq<Word>, flags: seq<bool>, word: nat, bit: nat)
    requires FlagsSoFar(written, start, flags, |flags|, word, bit)
    ensures bit > 0 ==> word < TWO_32
    ensures start + RowWords(flags, (|flags| + 31) / 32) == if bit > 0 then written + [word] else written
  {
    hide RowSoFar, RowWord;
    RowEnds(flags, word, bit);
    var rows := |flags| / 32;
    if bit > 0 {
      assert start + RowWords(flags, rows) + [RowWord(flags, rows)] == start + RowWords(flags, rows + 1);
    }
  }

  /** Writes the rows of flags; the last one may be incomplete. */
  method WriteFlags(w: Writer, zeroCounts: seq<int>)
    requires w.Valid()
    modifies w, w.buffer
    ensures w.Valid()
    ensures w.Written() == old(w.Written()) + RowWords(FixedUp(zeroCounts), (|zeroCounts| + 31) / 32)
  {
    hide WithBit, RowWords, FlagsSoFar;
    var n := |zeroCounts|;
    ghost var flags := FixedUp(zeroCounts);
    ghost var start := w.Written();
    var bitVector: nat, bit: nat := 0, 0;
    FlagsBegin(start, flags);
    for f := 0 to n
      invariant w.Valid() && FlagsSoFar(w.Written(), start, flags, f, bitVector, bit)
    {
      FlagsNext(w.Written(), start, flags, f, bitVector, bit);
      if zeroCounts[f] != 0 {
        bitVector := WithBit(bitVector, bit);
      }
      bit := bit + 1;
      if bit == 32 {
        w.WriteUnsigned(bitVector);
        bit := 0;
        bitVector := 0;
      }
    }
    FlagsEnd(w.Written(), start, flags, bitVector, bit);
    if bit > 0 {
      w.WriteUnsigned(bitVector);
    }
  }

  lemma RowBegins(flags: seq<bool>, n: nat)
    requires n % 32 == 0
    ensures RowSoFar(flags, n, 0, 0)
  {
  }

  lemma RowEnds(flags: seq<bool>, word: nat, bit: nat)
    requires RowSoFar(flags, |flags|, word, bit)
    ensures (|flags| + 31) / 32 == if bit > 0 then |flags| / 32 + 1 else |flags| / 32
    ensures bit > 0 ==> word == RowWord(flags, |flags| / 32)
  {
    RowEndsEarly(flags, |flags| / 32, bit, 32);
  }

  // ---------- reading ----------

  datatype FixupStatus = FlagsRead | LengthWrong | BeyondFlags

  /**
   Reads the flags of all functions. The assertion on the declared length fails where it does not match the
   number of functions; a bit behind the last function would be written beyond the flags, and ends the reading.
   */
  method ReadComdatZeroFixup(r: Reader, length: Word) returns (status: FixupStatus, flags: array<int>)
    requires r.Valid()
    modifies r, r.buffer
    ensures r.Valid() && fresh(flags)
    ensures var (num, rest) := NextWord(old(r.Rest()));
            && (status.LengthWrong? <==> FixupLength(num) != length)
            && (status.BeyondFlags? <==> FixupLength(num) == length && !AllBelow(BitsOfRows(rest, length - 1), num))
            && (status.FlagsRead? ==>
                  && flags.Length == num
                  && (forall f :: 0 <= f < num ==> flags[f] == if f in BitsOfRows(rest, length - 1) then 1 else 0)
                  && r.Rest() == TakeWords(rest, length - 1).1)
  {
    hide NextWord, BitsOfRows, TakeWords, FixupLength, AllBelow;
    LengthUnfolds(NextWord(r.Rest()).0);
    var num := r.ReadUnsigned();
    if (num + 31) % TWO_32 / 32 + 1 != length {
      status, flags := LengthWrong, new int[0];
      return;
    }
    var ok;
    ok, flags := ReadFlags(r, num, length - 1);
    status := if ok then FlagsRead else BeyondFlags;
  }

  lemma LengthUnfolds(n: Word)
    ensures FixupLength(n) == (n + 31) % TWO_32 / 32 + 1
  {
  }

  /** Reads the given number of rows and sets the flags that they name, as long as there are such flags. */
  method ReadFlags(r: Reader, num: Word, rows: nat) returns (ok: bool, flags: array<int>)
    requires r.Valid()
    modifies r, r.buffer
    ensures r.Valid() && fresh(flags) && flags.Length == num
    ensures ok <==> AllBelow(BitsOfRows(old(r.Rest()), rows), num)
    ensures ok ==> forall f :: 0 <= f < num ==> flags[f] == if f in BitsOfRows(old(r.Rest()), rows) then 1 else 0
    ensures ok ==> r.Rest() == TakeWords(old(r.Rest()), rows).1
  {
    hide NextWord, TakeWords, BitsFrom, SetBits, AllBelow;
    flags := new int[num](_ => 0);
    ghost var rest := r.Rest();
    ghost var words: seq<Word> := [];
    NoWordsTaken(rest);
    NoRows(num);
    for ix := 0 to rows
      invariant r.Valid() && fresh(flags)
      invariant (words, r.Rest()) == TakeWords(rest, ix) && |words| == ix
      invariant AllBelow(BitsFrom(words, 0), num)
      invariant forall f :: 0 <= f < num ==> flags[f] == if f in BitsFrom(words, 0) then 1 else 0
    {
      var word := r.ReadUnsigned();
      RowOfAll(rest, ix, rows, num);
      BitsAppend(words, word);
      OneMoreWord(rest, ix);
      var below := RaiseFlags(flags, word, ix * 32);
      if !below {
        return false, flags;
      }
      BelowAppend(BitsFrom(words, 0), SetBits(word, ix * 32), num);
      words := words + [word];
    }
    ok := true;
  }

  lemma BelowAppend(a: seq<nat>, b: seq<nat>, m: nat)
    requires AllBelow(a, m) && AllBelow(b, m)
    ensures AllBelow(a + b, m)
  {
  }

  /** Places of the bits that are set in the next n words. */
  function BitsOfRows(rest: seq<Word>, n: nat): seq<nat> {
    BitsFrom(TakeWords(rest, n).0, 0)
  }

  lemma NoRows(num: nat)
    ensures BitsFrom([], 0) == [] && AllBelow([], num)
  {
  }

  lemma {:induction false} BitsFromAppend(words: seq<Word>, word: Word, b: nat)
    requires b <= |words|
    ensures BitsFrom(words + [word], b) == BitsFrom(words, b) + SetBits(word, 32 * |words|)
    decreases |words| - b
  {
    hide SetBits;
    if b == |words| {
      assert BitsFrom(words + [word], b + 1) == [];
    } else {
      BitsFromAppend(words, word, b + 1);
      assert SetBits(words[b], 32 * b) + (BitsFrom(words, b + 1) + SetBits(word, 32 * |words|))
          == SetBits(words[b], 32 * b) + BitsFrom(words, b + 1) + SetBits(word, 32 * |words|);
    }
  }

  lemma BitsAppend(words: seq<Word>, word: Word)
    ensures BitsFrom(words + [word], 0) == BitsFrom(words, 0) + SetBits(word, 32 * |words|)
  {
    BitsFromAppend(words, word, 0);
  }

  lemma {:induction false} BitsOfNth(words: seq<Word>, b: nat, k: nat)
    requires b <= k < |words|
    ensures forall i :: i in SetBits(words[k], 32 * k) ==> i in BitsFrom(words, b)
    decreases k - b
  {
    hide SetBits;
    if b < k {
      BitsOfNth(words, b + 1, k);
    }
  }

  /** The flags of each row are flags of a function. */
  lemma RowOfAll(rest: seq<Word>, ix: nat, rows: nat, num: nat)
    requires ix < rows
    ensures AllBelow(BitsOfRows(rest, rows), num) ==> AllBelow(SetBits(NextWord(TakeWords(rest, ix).1).0, ix * 32), num)
  {
    hide SetBits, NextWord, BitsFrom;
    var words := TakeWords(rest, rows).0;
    TakeWordsPrefix(rest, ix + 1, rows);
    TakeWordsPrefix(rest, ix, ix);
    var word := NextWord(TakeWords(rest, ix).1).0;
    OneMoreWord(rest, ix);
    assert words[ix] == words[..ix + 1][ix] == word;
    BitsOfNth(words, 0, ix);
    assert forall i :: i in SetBits(word, ix * 32) ==> i in BitsFrom(words, 0);
  }

  /** Sets the flags of one row, up to the first that does not exist. */
  method RaiseFlags(flags: array<int>, bitVector: Word, base: nat) returns (ok: bool)
    modifies flags
    ensures ok <==> AllBelow(SetBits(bitVector, base), flags.Length)
    ensures ok ==> forall f :: 0 <= f < flags.Length ==>
              flags[f] == if f in SetBits(bitVector, base) then 1 else old(flags[f])
  {
    var bits: nat, f: nat := bitVector, base;
    while bits != 0
      invariant forall i :: i in SetBits(bits, f) ==> i in SetBits(bitVector, base)
      invariant forall i :: i in SetBits(bitVector, base) ==> i in SetBits(bits, f) || (i < f && i < flags.Length && flags[i] == 1)
      invariant forall i :: 0 <= i < flags.Length ==> flags[i] == old(flags[i]) || (flags[i] == 1 && i in SetBits(bitVector, base))
      decreases bits
    {
      if bits % 2 == 1 {
        assert f in SetBits(bits, f);
        if f >= flags.Length {
          return false;
        }
        flags[f] := 1;
      }
      f := f + 1;
      bits := bits / 2;
    }
    ok := true;
  }

  /**
   Whatever the number of functions, reading back a written record finds the declared length, sets no
   flag beyond the last function, and flag f is set exactly if byte f was not zero.
   */
  lemma FixupReadsBack(zeroCounts: seq<int>, tail: seq<Word>)
    requires |zeroCounts| + 31 < TWO_32
    ensures var n := |zeroCounts|;
            var (num, rest) := NextWord(FixupBody(FixedUp(zeroCounts)) + tail);
            && num == n && FixupLength(num) == 1 + (n + 31) / 32
            && AllBelow(BitsOfRows(rest, (n + 31) / 32), n)
            && (forall f :: 0 <= f < n ==> (f in BitsOfRows(rest, (n + 31) / 32) <==> zeroCounts[f] != 0))
            && TakeWords(rest, (n + 31) / 32).1 == tail
  {
    hide BitsFrom, TakeWords, RowWords, Places;
    var n, flags := |zeroCounts|, FixedUp(zeroCounts);
    var rows := (n + 31) / 32;
    assert FixupBody(flags) + tail == [n] + (RowWords(flags, rows) + tail);
    assert ([n] + (RowWords(flags, rows) + tail))[1..] == RowWords(flags, rows) + tail;
    WordsReadBack(RowWords(flags, rows), tail);
    RowsRoundTrip(flags, rows);
    PlacesBelow(flags, n);
    forall f | 0 <= f < n
      ensures f in Places(flags, n) <==> zeroCounts[f] != 0
    {
      PlacesAreFlags(flags, n, f);
    }
  }
}
