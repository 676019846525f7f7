/** A summary that was written is read back as it was, but for the least values of empty buckets. */
module SummaryRoundTrip {
  import opened Powers
  import opened HistoIndex
  import opened Histogram
  import opened ProgramSummary
  import opened BlockIO
  import opened Bits
  import opened SummaryRecord

  lemma HeaderRoundTrip(c: Contents, tail: seq<Word>)
    requires RecordFits(c)
    ensures ParseHeader(HeaderWords(c) + tail)
            == (Header(c.checksum, c.num, c.runs, c.sumAll, c.runMax, c.sumMax), tail)
  {
    hide NextWord, NextCounter, CounterWords, ParseTotals;
    var t3 := TotalsWords(c) + tail;
    TotalsRoundTrip(c, tail);
    NextWordOf(c.runs, t3);
    NextWordOf(c.num, [c.runs] + t3);
    NextWordOf(c.checksum, [c.num] + ([c.runs] + t3));
    assert HeaderWords(c) + tail == [c.checksum] + ([c.num] + ([c.runs] + t3));
  }

  lemma TotalsRoundTrip(c: Contents, tail: seq<Word>)
    requires RecordFits(c)
    ensures ParseTotals(TotalsWords(c) + tail) == ((c.sumAll, c.runMax, c.sumMax), tail)
  {
    hide NextCounter, CounterWords;
    var t2 := CounterWords(c.sumMax) + tail;
    var t1 := CounterWords(c.runMax) + t2;
    NextCounterOf(c.sumMax, tail);
    NextCounterOf(c.runMax, t2);
    NextCounterOf(c.sumAll, t1);
    assert TotalsWords(c) + tail == CounterWords(c.sumAll) + t1;
  }

  /** Reading one bucket more. */
  lemma {:induction false} FillInAppend(h: seq<RawBucket>, places: seq<nat>, p: nat, rest: seq<Word>)
    requires AllBelow(places, HISTOGRAM_SIZE) && p < HISTOGRAM_SIZE && |h| == HISTOGRAM_SIZE
    ensures AllBelow(places + [p], HISTOGRAM_SIZE)
    ensures var (h1, r1) := FillIn(h, places, rest); var (b, r2) := ParseBucket(r1);
            FillIn(h, places + [p], rest) == (h1[p := b], r2)
    decreases |places|
  {
    hide ParseBucket;
    if places == [] {
      assert [] + [p] == [p];
      assert [p][1..] == [];
    } else {
      var (b, r) := ParseBucket(rest);
      BelowTail(places, HISTOGRAM_SIZE);
      assert (places + [p])[1..] == places[1..] + [p];
      FillInAppend(h[places[0] := b], places[1..], p, r);
      BelowTail(places + [p], HISTOGRAM_SIZE);
    }
  }

  lemma BucketRoundTrip(b: Bucket, tail: seq<Word>)
    requires BucketFits(b)
    ensures ParseBucket(BucketWords(b) + tail) == (RawBucket(b.num, b.minValue, b.cumValue), tail)
  {
    hide NextWord, NextCounter, CounterWords;
    var t := CounterWords(b.cumValue) + tail;
    NextCounterOf(b.cumValue, tail);
    NextCounterOf(b.minValue, t);
    NextWordOf(b.num, CounterWords(b.minValue) + t);
    assert BucketWords(b) + tail == [b.num] + (CounterWords(b.minValue) + t);
  }

  predicate SameBucket(raw: RawBucket, b: Bucket) {
    raw.num == b.num && raw.minValue == b.minValue && raw.cumValue == b.cumValue
  }

  /** The first n buckets as they are read back. */
  ghost predicate ReadUpTo(r: seq<RawBucket>, h: seq<Bucket>, n: nat) {
    |r| == |h| && forall i :: 0 <= i < |h| ==> SameBucket(r[i], if i < n then NormalBucket(h[i]) else EMPTY)
  }

  /** The buckets read back from the records of the first n buckets of h. */
  ghost predicate ReadsBack(h: seq<Bucket>, n: nat, rest: seq<Word>, tail: seq<Word>) {
    && AllBelow(Places(UseFlags(h), n), HISTOGRAM_SIZE)
    && var (r, left) := FillIn(RawEmpty(), Places(UseFlags(h), n), rest);
       ReadUpTo(r, h, n) && left == tail
  }

  lemma UsedBucketReadsBack(h: seq<Bucket>, n: nat, rest: seq<Word>, tail: seq<Word>)
    requires n < |h| == HISTOGRAM_SIZE && h[n].num > 0 && BucketFits(h[n])
    requires ReadsBack(h, n, rest, BucketWords(h[n]) + tail)
    ensures ReadsBack(h, n + 1, rest, tail)
  {
    hide BucketWords, ParseBucket, FillIn, NormalBucket;
    BucketRoundTrip(h[n], tail);
    FillInAppend(RawEmpty(), Places(UseFlags(h), n), n, rest);
    assert Places(UseFlags(h), n + 1) == Places(UseFlags(h), n) + [n];
    UsedIsNormal(h[n]);
  }

  lemma UsedIsNormal(b: Bucket)
    requires b.num > 0
    ensures NormalBucket(b) == Bucket(b.num, b.minValue, b.cumValue)
  {
  }

  lemma EmptyBucketReadsBack(h: seq<Bucket>, n: nat, rest: seq<Word>, tail: seq<Word>)
    requires n < |h| == HISTOGRAM_SIZE && h[n].num == 0
    requires ReadsBack(h, n, rest, tail)
    ensures ReadsBack(h, n + 1, rest, tail)
  {
    hide FillIn;
    assert Places(UseFlags(h), n + 1) == Places(UseFlags(h), n) + [] == Places(UseFlags(h), n);
  }

  lemma {:induction false} RecordsRoundTrip(h: seq<Bucket>, n: nat, tail: seq<Word>)
    requires BucketsFit(h, n) && |h| == HISTOGRAM_SIZE
    ensures ReadsBack(h, n, BucketRecords(h, n) + tail, tail)
  {
    hide BucketWords, BucketFits, ReadsBack;
    if n == 0 {
      assert [] + tail == tail;
      NothingReadsBack(h, tail);
    } else if h[n - 1].num == 0 {
      RecordsRoundTrip(h, n - 1, tail);
      assert BucketRecords(h, n - 1) + [] == BucketRecords(h, n - 1);
      EmptyBucketReadsBack(h, n - 1, BucketRecords(h, n) + tail, tail);
    } else {
      var b := h[n - 1];
      RecordsRoundTrip(h, n - 1, BucketWords(b) + tail);
      assert BucketRecords(h, n) + tail == BucketRecords(h, n - 1) + (BucketWords(b) + tail);
      UsedBucketReadsBack(h, n - 1, BucketRecords(h, n) + tail, tail);
    }
  }

  lemma NothingReadsBack(h: seq<Bucket>, tail: seq<Word>)
    requires |h| == HISTOGRAM_SIZE
    ensures ReadsBack(h, 0, tail, tail)
  {
  }

  /**
   Reading back a written summary gives the same summary with its empty buckets zeroed, leaves the file
   where the record ends, and none of the assertions of the reader fails.
   */
  lemma SummaryReadsBack(c: Contents, tail: seq<Word>)
    requires RecordFits(c)
    ensures var rest := SummaryBody(c) + tail;
            && AllBelow(BitsFrom(BitVectorOf(rest), 0), HISTOGRAM_SIZE)
            && var (raw, left) := ParseSummary(rest);
               left == tail && RawNonNegative(raw) && ContentsOf(raw) == NormalContents(c)
  {
    hide ParseHeader, HeaderWords, TakeWords, RowWords, BitsFrom, BucketRecords, FillIn, Places, ContentsOf, RawNonNegative;
    var h := c.histogram;
    var t2 := BucketRecords(h, HISTOGRAM_SIZE) + tail;
    var t1 := RowWords(UseFlags(h), BITVECTOR_SIZE) + t2;
    assert SummaryBody(c) + tail == HeaderWords(c) + t1;
    HeaderRoundTrip(c, t1);
    WordsReadBack(RowWords(UseFlags(h), BITVECTOR_SIZE), t2);
    RowsRoundTrip(UseFlags(h), BITVECTOR_SIZE);
    RecordsRoundTrip(h, HISTOGRAM_SIZE, tail);
    var (r, _) := FillIn(RawEmpty(), Places(UseFlags(h), HISTOGRAM_SIZE), t2);
    SameContents(c, r);
  }

  lemma SameContents(c: Contents, r: seq<RawBucket>)
    requires RecordFits(c) && ReadUpTo(r, c.histogram, HISTOGRAM_SIZE)
    ensures var raw := RawContents(Header(c.checksum, c.num, c.runs, c.sumAll, c.runMax, c.sumMax), r);
            RawNonNegative(raw) && ContentsOf(raw) == NormalContents(c)
  {
    hide NormalBucket;
    var raw := RawContents(Header(c.checksum, c.num, c.runs, c.sumAll, c.runMax, c.sumMax), r);
    forall b | b in r
      ensures BucketNonNegative(b)
    {
      var i :| 0 <= i < |r| && r[i] == b;
      assert SameBucket(r[i], NormalBucket(c.histogram[i]));
    }
    assert ContentsOf(raw).histogram == Normalise(c.histogram);
  }

  lemma {:induction false} BitsBelowEnd(words: seq<Word>, b: nat, m: nat)
    requires b < |words| && m <= 32
    ensures AllBelow(BitsFrom(words, b), 32 * (|words| - 1) + m) <==> words[|words| - 1] < Pow2(m)
    decreases |words| - b
  {
    if b == |words| - 1 {
      assert BitsFrom(words, b) == SetBits(words[b], 32 * b) + [];
      assert SetBits(words[b], 32 * b) + [] == SetBits(words[b], 32 * b);
      SetBitsBelow(words[b], m, 32 * b);
    } else {
      BitsBelowEnd(words, b + 1, m);
      Pow2At64();
      SetBitsBelow(words[b], 32, 32 * b);
      BelowOfConcat(SetBits(words[b], 32 * b), BitsFrom(words, b + 1), 32 * b + 32, 32 * (|words| - 1) + m);
    }
  }

  lemma BelowOfConcat(a: seq<nat>, s: seq<nat>, low: nat, m: nat)
    requires AllBelow(a, low) && low <= m
    ensures AllBelow(a + s, m) <==> AllBelow(s, m)
  {
    if AllBelow(a + s, m) {
      assert forall i :: i in s ==> i in a + s;
    }
  }

  /** The reader's assertions hold exactly if the four highest bits of the last word are clear. */
  lemma ReadableIff(words: seq<Word>)
    requires |words| == BITVECTOR_SIZE
    ensures AllBelow(BitsFrom(words, 0), HISTOGRAM_SIZE) <==> words[BITVECTOR_SIZE - 1] < 0x1000_0000
  {
    hide BitsFrom;
    BitsBelowEnd(words, 0, 28);
    assert Pow2(8) == 0x100;
    assert Pow2(16) == 0x1_0000;
    assert Pow2(24) == 0x100_0000;
    assert Pow2(28) == 0x1000_0000;
  }
}
