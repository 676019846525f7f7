/** Where each field of a record lies, word by word and bit by bit. */
module RecordLayout {
  import opened Powers
  import opened Histogram
  import opened ProgramSummary
  import opened BlockIO
  import opened Bits
  import opened SummaryRecord
  import opened FixupRecord
  import opened BuildInfo

  // ---------- flags in words ----------

  lemma {:induction false} SetBitsAre(w: nat, base: nat, j: nat)
    ensures base + j in SetBits(w, base) <==> Bit(w, j)
    decreases w
  {
    if w == 0 {
      NoBits(j);
    } else if j > 0 {
      SetBitsAre(w / 2, base + 1, j - 1);
    }
  }

  lemma {:induction false} NoBits(j: nat)
    ensures !Bit(0, j)
  {
    if j > 0 {
      NoBits(j - 1);
    }
  }

  lemma {:induction false} RaisedAre(flags: seq<bool>, n: nat, j: nat)
    requires n <= |flags|
    ensures j in Raised(flags, n, 0) <==> j < n && flags[j]
  {
    if n > 0 {
      RaisedAre(flags, n - 1, j);
    }
  }

  /** Bit j of word b is flag number 32 * b + j. */
  lemma RowWordBit(flags: seq<bool>, b: nat, j: nat)
    requires j < 32
    ensures Bit(RowWord(flags, b), j) <==> Flag(flags, 32 * b + j)
  {
    hide Bits.Packed, Raised, SetBits, Bit;
    SetBitsAre(Bits.Packed(Row(flags, b), 32), 0, j);
    PackedBits(Row(flags, b), 32, 0);
    RaisedAre(Row(flags, b), 32, j);
  }

  // ---------- the summary ----------

  /** The number that two words make, low word first. */
  function TwoWords(words: seq<Word>, p: nat): int
    requires p + 1 < |words|
  {
    var low: int, high: int := words[p], words[p + 1];
    low + 0x1_0000_0000 * high
  }

  lemma HeaderLayout(c: Contents)
    requires RecordFits(c)
    ensures var r := HeaderWords(c);
            && r[0] == c.checksum && r[1] == c.num && r[2] == c.runs
            && TwoWords(r, 3) == c.sumAll && TwoWords(r, 5) == c.runMax && TwoWords(r, 7) == c.sumMax
  {
    hide CounterWords;
    CounterWordsAre(c.sumAll);
    CounterWordsAre(c.runMax);
    CounterWordsAre(c.sumMax);
  }

  /** The record of bucket i comes after those of the buckets in use below it. */
  lemma {:induction false} BucketLayout(h: seq<Bucket>, n: nat, i: nat)
    requires BucketsFit(h, n) && i < n && h[i].num > 0
    ensures var p := 5 * UsedCount(h, i); var r := BucketRecords(h, n);
            p + 5 <= |r| && r[p..p + 5] == BucketWords(h[i])
  {
    hide BucketWords, BucketFits;
    RecordsLength(h, n);
    RecordsLength(h, i);
    if i == n - 1 {
      assert BucketRecords(h, n)[|BucketRecords(h, i)|..] == BucketWords(h[i]);
    } else {
      BucketLayout(h, n - 1, i);
    }
  }

  lemma BucketWordsLayout(b: Bucket)
    requires BucketFits(b)
    ensures var r := BucketWords(b); r[0] == b.num && TwoWords(r, 1) == b.minValue && TwoWords(r, 3) == b.cumValue
  {
    hide CounterWords;
    CounterWordsAre(b.minValue);
    CounterWordsAre(b.cumValue);
  }

  lemma TwoWordsWithin(words: seq<Word>, from: nat, part: seq<Word>, p: nat)
    requires from + |part| <= |words| && words[from..from + |part|] == part && p + 1 < |part|
    ensures TwoWords(words, from + p) == TwoWords(part, p)
  {
    assert words[from + p] == part[p] && words[from + p + 1] == part[p + 1];
  }

  /**
   The words of a summary: checksum, number of counters and number of runs; the sum of all counters, the
   largest of them and the sum of the largest of each run, low words first.
   */
  lemma SummaryHeaderLayout(c: Contents)
    requires RecordFits(c)
    ensures var r := SummaryBody(c);
            && |r| == 17 + 5 * UsedCount(c.histogram, 252)
            && r[0] == c.checksum && r[1] == c.num && r[2] == c.runs
            && TwoWords(r, 3) == c.sumAll && TwoWords(r, 5) == c.runMax && TwoWords(r, 7) == c.sumMax
  {
    hide HeaderWords, RowWords, BucketRecords;
    DeclaredLength(c);
    HeaderLayout(c);
    var r, head := SummaryBody(c), HeaderWords(c);
    assert r[0..0 + |head|] == head;
    TwoWordsWithin(r, 0, head, 3);
    TwoWordsWithin(r, 0, head, 5);
    TwoWordsWithin(r, 0, head, 7);
  }

  /** Behind them, one bit for each of the 252 buckets says whether it is in use. */
  lemma SummaryBitsLayout(c: Contents, i: nat)
    requires RecordFits(c) && i < 252
    ensures |SummaryBody(c)| >= 17
    ensures Bit(SummaryBody(c)[9 + i / 32], i % 32) <==> c.histogram[i].num > 0
  {
    hide HeaderWords, RowWords, BucketRecords, RowWord, Bit;
    var flags := UseFlags(c.histogram);
    NthRow(flags, 8, i / 32);
    RowWordBit(flags, i / 32, i % 32);
    assert SummaryBody(c)[9..17] == RowWords(flags, 8);
    assert SummaryBody(c)[9 + i / 32] == RowWords(flags, 8)[i / 32];
  }

  /** Then each bucket in use, in order: its number of counters, its least value and its sum. */
  lemma SummaryBucketLayout(c: Contents, i: nat)
    requires RecordFits(c) && i < 252 && c.histogram[i].num > 0
    ensures var r, p := SummaryBody(c), 17 + 5 * UsedCount(c.histogram, i);
            && p + 5 <= |r| && r[p] == c.histogram[i].num
            && TwoWords(r, p + 1) == c.histogram[i].minValue && TwoWords(r, p + 3) == c.histogram[i].cumValue
  {
    hide HeaderWords, RowWords, BucketRecords, BucketWords, UsedCount;
    var h := c.histogram;
    BucketLayout(h, 252, i);
    BucketWordsLayout(h[i]);
    var r, p, records := SummaryBody(c), 17 + 5 * UsedCount(h, i), BucketRecords(h, 252);
    assert r[17..] == records;
    var part := BucketWords(h[i]);
    assert r[p..p + |part|] == records[p - 17..p - 12];
    assert r[p] == part[0];
    TwoWordsWithin(r, p, part, 1);
    TwoWordsWithin(r, p, part, 3);
  }

  // ---------- the other records ----------

  /** The number of functions, and behind it one bit for each. */
  lemma FixupLayout(flags: seq<bool>, f: nat)
    requires |flags| < TWO_32 && f < |flags|
    ensures var r := FixupBody(flags);
            |r| == 1 + (|flags| + 31) / 32 && r[0] == |flags| && (Bit(r[1 + f / 32], f % 32) <==> flags[f])
  {
    hide RowWord, RowWords, Bit;
    NthRow(flags, (|flags| + 31) / 32, f / 32);
    RowWordBit(flags, f / 32, f % 32);
  }

  /** Byte i of a string lies in bits 8 * (i % 4) and up of word i / 4, and there is room for a NUL but for no word more. */
  lemma StringLayout(s: seq<Byte>, i: nat)
    requires i < 4 * StringLength(s)
    ensures |s| < 4 * |StringWords(s)| <= |s| + 4
    ensures StringWords(s)[i / 4] / Pow2(8 * (i % 4)) % 0x100 == if i < |s| then s[i] else 0
  {
    hide Pow2, StringWords, ByteOf;
    PackedByte(s, i);
    ByteOfWord(StringWords(s), i);
  }

  lemma ByteOfWord(words: seq<Word>, i: nat)
    requires i < 4 * |words|
    ensures ByteOf(words, i) == words[i / 4] / Pow2(8 * (i % 4)) % 0x100
  {
    hide Pow2;
    BytePowers();
    assert i % 4 == 0 || i % 4 == 1 || i % 4 == 2 || i % 4 == 3;
    assert i % 4 == 3 ==> words[i / 4] / 0x100_0000 < 0x100;
  }
}
