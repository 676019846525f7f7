/** The summary record of a profile data file: only buckets in use are written, behind a bit vector. */
module SummaryRecord {
  import opened Powers
  import opened HistoIndex
  import opened Histogram
  import opened ProgramSummary
  import opened BlockIO
  import opened Bits

  const BITVECTOR_SIZE: nat := 8

  // ---------- the record ----------

  predicate BucketFits(b: Bucket) {
    b.num < TWO_32 && b.minValue < TWO_63 && b.cumValue < TWO_63
  }

  /** The fields hold what their C types can hold. */
  ghost predicate RecordFits(c: Contents) {
    && c.num < TWO_32 && c.runs < TWO_32
    && c.sumAll < TWO_63 && c.runMax < TWO_63 && c.sumMax < TWO_63
    && |c.histogram| == HISTOGRAM_SIZE
    && forall i :: 0 <= i < |c.histogram| && c.histogram[i].num > 0 ==> BucketFits(c.histogram[i])
  }

  /** The flags of the bit vector. */
  function UseFlags(h: seq<Bucket>): (f: seq<bool>)
    ensures |f| == |h| && forall i :: 0 <= i < |h| ==> f[i] == (h[i].num > 0)
  {
    seq(|h|, i requires 0 <= i < |h| => h[i].num > 0)
  }

  function BucketWords(b: Bucket): (r: seq<Word>)
    requires BucketFits(b)
    ensures |r| == 5
  {
    [b.num] + CounterWords(b.minValue) + CounterWords(b.cumValue)
  }

  ghost predicate BucketsFit(h: seq<Bucket>, n: nat) {
    n <= |h| && forall i :: 0 <= i < n && h[i].num > 0 ==> BucketFits(h[i])
  }

  /** The buckets in use among the first n. */
  function BucketRecords(h: seq<Bucket>, n: nat): seq<Word>
    requires BucketsFit(h, n)
  {
    if n == 0 then []
    else BucketRecords(h, n - 1) + (if h[n - 1].num > 0 then BucketWords(h[n - 1]) else [])
  }

  function UsedCount(h: seq<Bucket>, n: nat): (k: nat)
    requires n <= |h|
    ensures k <= n
  {
    if n == 0 then 0 else UsedCount(h, n - 1) + (if h[n - 1].num > 0 then 1 else 0)
  }

  /** The length that is declared for a summary with the given number of buckets in use. */
  function SummaryLength(used: nat): nat {
    1 + (10 + 3 * 2) + used * 5
  }

  function HeaderWords(c: Contents): (r: seq<Word>)
    requires RecordFits(c)
    ensures |r| == 9
  {
    [c.checksum, c.num, c.runs] + TotalsWords(c)
  }

  function TotalsWords(c: Contents): (r: seq<Word>)
    requires RecordFits(c)
    ensures |r| == 6
  {
    CounterWords(c.sumAll) + CounterWords(c.runMax) + CounterWords(c.sumMax)
  }

  function SummaryBody(c: Contents): seq<Word>
    requires RecordFits(c)
  {
    HeaderWords(c) + RowWords(UseFlags(c.histogram), BITVECTOR_SIZE) + BucketRecords(c.histogram, HISTOGRAM_SIZE)
  }

  lemma {:induction false} RecordsLength(h: seq<Bucket>, n: nat)
    requires BucketsFit(h, n)
    ensures |BucketRecords(h, n)| == 5 * UsedCount(h, n)
  {
    if n > 0 {
      RecordsLength(h, n - 1);
    }
  }

  /** The declared length of a summary is the number of words that follow. */
  lemma DeclaredLength(c: Contents)
    requires RecordFits(c)
    ensures |SummaryBody(c)| == SummaryLength(UsedCount(c.histogram, HISTOGRAM_SIZE))
  {
    RecordsLength(c.histogram, HISTOGRAM_SIZE);
  }

  // ---------- writing ----------

  /** Bits of word b after the first n buckets have been looked at. */
  function Seen(n: nat, b: nat): nat {
    if n <= 32 * b then 0 else if n - 32 * b < 32 then n - 32 * b else 32
  }

  /** The bit vector after the first n buckets have been looked at. */
  ghost predicate Marked(bitVector: seq<nat>, h: seq<Bucket>, n: nat) {
    |bitVector| == BITVECTOR_SIZE
    && forall b :: 0 <= b < BITVECTOR_SIZE ==> bitVector[b] == Packed(Row(UseFlags(h), b), Seen(n, b))
  }

  lemma MarkNext(bitVector: seq<nat>, h: seq<Bucket>, i: nat)
    requires Marked(bitVector, h, i) && i < |h| == HISTOGRAM_SIZE
    ensures var b, j := i / 32, i % 32;
            Marked(if h[i].num > 0 then bitVector[b := WithBit(bitVector[b], j)] else bitVector, h, i + 1)
  {
    hide WithBit;
    var b, j := i / 32, i % 32;
    assert Row(UseFlags(h), b)[j] == (h[i].num > 0);
    assert Seen(i, b) == j && Seen(i + 1, b) == j + 1;
    HighBitClear(bitVector[b], j);
    assert Packed(Row(UseFlags(h), b), j + 1) == if h[i].num > 0 then WithBit(bitVector[b], j) else bitVector[b];
    hide Packed, Row;
    forall k | 0 <= k < BITVECTOR_SIZE && k != b
      ensures Seen(i + 1, k) == Seen(i, k)
    {
    }
  }

  lemma MarkedAll(bitVector: seq<nat>, h: seq<Bucket>)
    requires Marked(bitVector, h, HISTOGRAM_SIZE) && |h| == HISTOGRAM_SIZE
    ensures forall b :: 0 <= b < BITVECTOR_SIZE ==> bitVector[b] == RowWord(UseFlags(h), b)
  {
    forall b | 0 <= b < BITVECTOR_SIZE
      ensures bitVector[b] == RowWord(UseFlags(h), b)
    {
      if b == 7 {
        LastWord(h);
      }
    }
  }

  /** The last word has only 28 flags that belong to a bucket. */
  lemma LastWord(h: seq<Bucket>)
    requires |h| == HISTOGRAM_SIZE
    ensures Packed(Row(UseFlags(h), 7), 32) == Packed(Row(UseFlags(h), 7), 28)
  {
    var f := Row(UseFlags(h), 7);
    assert !f[28] && !f[29] && !f[30] && !f[31];
    assert Packed(f, 29) == Packed(f, 28);
    assert Packed(f, 30) == Packed(f, 29);
    assert Packed(f, 31) == Packed(f, 30);
    assert Packed(f, 32) == Packed(f, 31);
  }

  method FillBitVector(histogram: array<Bucket>) returns (bitVector: array<nat>, used: nat)
    requires histogram.Length == HISTOGRAM_SIZE
    ensures fresh(bitVector) && bitVector.Length == BITVECTOR_SIZE
    ensures forall b :: 0 <= b < BITVECTOR_SIZE ==> bitVector[b] == RowWord(UseFlags(histogram[..]), b)
    ensures used == UsedCount(histogram[..], HISTOGRAM_SIZE)
  {
    hide WithBit, Packed;
    bitVector := new nat[BITVECTOR_SIZE](_ => 0);
    used := 0;
    ghost var h := histogram[..];
    NoneMarked(bitVector[..], h);
    hide Marked, RowWord;
    for i := 0 to HISTOGRAM_SIZE
      invariant histogram[..] == h && bitVector.Length == BITVECTOR_SIZE
      invariant Marked(bitVector[..], h, i)
      invariant used == UsedCount(h, i)
    {
      MarkNext(bitVector[..], h, i);
      if histogram[i].num > 0 {
        bitVector[i / 32] := WithBit(bitVector[i / 32], i % 32);
        used := used + 1;
      }
    }
    MarkedAll(bitVector[..], h);
  }

  lemma NoneMarked(bitVector: seq<nat>, h: seq<Bucket>)
    requires |bitVector| == BITVECTOR_SIZE && forall b :: 0 <= b < BITVECTOR_SIZE ==> bitVector[b] == 0
    ensures Marked(bitVector, h, 0)
  {
  }

  /** Writes the summary record. */
  method WriteSummary(w: Writer, tag: Word, s: Summary)
    requires w.Valid() && s.Valid() && RecordFits(s.Value())
    modifies w, w.buffer
    ensures w.Valid()
    ensures w.Written() == old(w.Written())
              + [tag, SummaryLength(UsedCount(s.histogram[..], HISTOGRAM_SIZE))] + SummaryBody(s.Value())
  {
    hide RowWord, RowWords, BucketRecords, HeaderWords, UsedCount;
    var bitVector, used := FillBitVector(s.histogram);
    w.WriteTagLength(tag, SummaryLength(used));
    WriteHeader(w, s);
    WriteBitVector(w, bitVector, s.histogram[..]);
    WriteBuckets(w, s.histogram);
  }

  method WriteHeader(w: Writer, s: Summary)
    requires w.Valid() && s.Valid() && RecordFits(s.Value())
    modifies w, w.buffer
    ensures w.Valid() && w.Written() == old(w.Written()) + HeaderWords(s.Value())
  {
    hide TotalsWords;
    w.WriteUnsigned(s.checksum);
    w.WriteUnsigned(s.num);
    w.WriteUnsigned(s.runs);
    WriteTotals(w, s);
  }

  method WriteTotals(w: Writer, s: Summary)
    requires w.Valid() && s.Valid() && RecordFits(s.Value())
    modifies w, w.buffer
    ensures w.Valid() && w.Written() == old(w.Written()) + TotalsWords(s.Value())
  {
    hide CounterWords;
    w.WriteCounter(s.sumAll);
    w.WriteCounter(s.runMax);
    w.WriteCounter(s.sumMax);
  }

  method WriteBitVector(w: Writer, bitVector: array<nat>, ghost h: seq<Bucket>)
    requires w.Valid() && bitVector.Length == BITVECTOR_SIZE
    requires forall b :: 0 <= b < BITVECTOR_SIZE ==> bitVector[b] == RowWord(UseFlags(h), b)
    modifies w, w.buffer
    ensures w.Valid() && w.Written() == old(w.Written()) + RowWords(UseFlags(h), BITVECTOR_SIZE)
  {
    hide RowWord;
    ghost var words := bitVector[..];
    for b := 0 to BITVECTOR_SIZE
      invariant w.Valid() && bitVector[..] == words
      invariant w.Written() == old(w.Written()) + RowWords(UseFlags(h), b)
    {
      w.WriteUnsigned(bitVector[b]);
    }
  }

  method WriteBuckets(w: Writer, histogram: array<Bucket>)
    requires w.Valid() && histogram.Length == HISTOGRAM_SIZE && BucketsFit(histogram[..], HISTOGRAM_SIZE)
    modifies w, w.buffer
    ensures w.Valid() && w.Written() == old(w.Written()) + BucketRecords(histogram[..], HISTOGRAM_SIZE)
  {
    hide BucketWords;
    ghost var h := histogram[..];
    for i := 0 to HISTOGRAM_SIZE
      invariant w.Valid() && BucketsFit(h, i) && histogram[..] == h
      invariant w.Written() == old(w.Written()) + BucketRecords(h, i)
    {
      if histogram[i].num == 0 {
        continue;
      }
      WriteBucket(w, histogram[i]);
    }
  }

  method WriteBucket(w: Writer, b: Bucket)
    requires w.Valid() && BucketFits(b)
    modifies w, w.buffer
    ensures w.Valid() && w.Written() == old(w.Written()) + BucketWords(b)
  {
    hide CounterWords;
    w.WriteUnsigned(b.num);
    w.WriteCounter(b.minValue);
    w.WriteCounter(b.cumValue);
  }

  // ---------- reading ----------

  datatype Header = Header(checksum: Word, num: Word, runs: Word, sumAll: Counter, runMax: Counter, sumMax: Counter)

  function ParseHeader(rest: seq<Word>): (Header, seq<Word>) {
    var (checksum, r1) := NextWord(rest);
    var (num, r2) := NextWord(r1);
    var (runs, r3) := NextWord(r2);
    var ((sumAll, runMax, sumMax), r4) := ParseTotals(r3);
    (Header(checksum, num, runs, sumAll, runMax, sumMax), r4)
  }

  function ParseTotals(rest: seq<Word>): ((Counter, Counter, Counter), seq<Word>) {
    var (sumAll, r1) := NextCounter(rest);
    var (runMax, r2) := NextCounter(r1);
    var (sumMax, r3) := NextCounter(r2);
    ((sumAll, runMax, sumMax), r3)
  }

  /** A bucket and a summary as a file gives them: counters may read back negative. */
  datatype RawBucket = RawBucket(num: Word, minValue: Counter, cumValue: Counter)

  datatype RawContents = RawContents(header: Header, histogram: seq<RawBucket>)

  const RAW_EMPTY := RawBucket(0, 0, 0)

  function RawEmpty(): (h: seq<RawBucket>)
    ensures |h| == HISTOGRAM_SIZE && forall i :: 0 <= i < |h| ==> h[i] == RAW_EMPTY
  {
    seq(HISTOGRAM_SIZE, i => RAW_EMPTY)
  }

  function ParseBucket(rest: seq<Word>): (RawBucket, seq<Word>) {
    var (num, r1) := NextWord(rest);
    var (minValue, r2) := NextCounter(r1);
    var (cumValue, r3) := NextCounter(r2);
    (RawBucket(num, minValue, cumValue), r3)
  }

  /** Reads the buckets of the given places into h. */
  function FillIn(h: seq<RawBucket>, places: seq<nat>, rest: seq<Word>): (r: (seq<RawBucket>, seq<Word>))
    requires AllBelow(places, HISTOGRAM_SIZE) && |h| == HISTOGRAM_SIZE
    ensures |r.0| == |h|
    decreases |places|
  {
    if places == [] then (h, rest)
    else
      var (b, r) := ParseBucket(rest);
      assert places[0] in places && forall i :: i in places[1..] ==> i in places;
      FillIn(h[places[0] := b], places[1..], r)
  }

  function PopSum(words: seq<Word>): nat {
    if words == [] then 0 else PopSum(words[..|words| - 1]) + PopCount(words[|words| - 1])
  }

  lemma {:induction false} CountBits(words: seq<Word>, b: nat)
    requires b <= |words|
    ensures PopSum(words[..b]) + |BitsFrom(words, b)| == PopSum(words)
    decreases |words| - b
  {
    if b == |words| {
      assert words[..b] == words;
    } else {
      CountBits(words, b + 1);
      CountSetBits(words[b], 32 * b);
      assert words[..b + 1][..b] == words[..b];
    }
  }

  /** Reads the bit vector and counts its bits. */
  method ReadBitVector(r: Reader) returns (bitVector: array<Word>, count: nat)
    requires r.Valid()
    modifies r, r.buffer
    ensures r.Valid() && fresh(bitVector) && bitVector.Length == BITVECTOR_SIZE
    ensures (bitVector[..], r.Rest()) == TakeWords(old(r.Rest()), BITVECTOR_SIZE)
    ensures count == |BitsFrom(bitVector[..], 0)|
  {
    hide NextWord, PopCount, PopSum, BitsFrom, TakeWords;
    NoWordsTaken(r.Rest());
    OneMoreCount([], 0);
    bitVector := new Word[BITVECTOR_SIZE](_ => 0);
    count := 0;
    ghost var rest := r.Rest();
    ghost var words: seq<Word> := [];
    for b := 0 to BITVECTOR_SIZE
      invariant r.Valid() && fresh(bitVector) && bitVector.Length == BITVECTOR_SIZE && bitVector != r.buffer
      invariant words == bitVector[..b] && (words, r.Rest()) == TakeWords(rest, b)
      invariant count == PopSum(words)
    {
      var word := r.ReadUnsigned();
      bitVector[b] := word;
      count := count + PopCount(bitVector[b]);
      OneMoreWord(rest, b);
      OneMoreCount(words, word);
      words := words + [word];
    }
    assert bitVector[..] == words && words[..0] == [];
    CountBits(words, 0);
  }

  lemma OneMoreCount(words: seq<Word>, word: Word)
    ensures PopSum([]) == 0
    ensures PopSum(words + [word]) == PopSum(words) + PopCount(word)
  {
    hide PopCount;
    assert (words + [word])[..|words|] == words;
  }

  /** Places of the bits not yet dealt with: of the current word, shifted, and of the words behind it. */
  function PlacesLeft(current: nat, place: nat, words: seq<Word>, next: nat): seq<nat>
    requires next <= |words|
  {
    SetBits(current, place) + BitsFrom(words, next)
  }

  /** Finds the next set bit, going on to the next words where the current one is used up. */
  method NextPlace(bitVector: array<Word>, current0: nat, place0: nat, next0: nat)
    returns (current: nat, place: nat, next: nat)
    requires next0 <= bitVector.Length && PlacesLeft(current0, place0, bitVector[..], next0) != []
    ensures next <= bitVector.Length && current % 2 == 1
    ensures PlacesLeft(current, place, bitVector[..], next) == PlacesLeft(current0, place0, bitVector[..], next0)
  {
    current, place, next := current0, place0, next0;
    ghost var words := bitVector[..];
    ghost var left := PlacesLeft(current, place, words, next);
    while current == 0
      invariant next <= bitVector.Length && PlacesLeft(current, place, words, next) == left
      decreases bitVector.Length - next, current
    {
      place := next * 32;
      assert next < bitVector.Length;
      assert [] + BitsFrom(words, next) == BitsFrom(words, next);
      current := bitVector[next];
      next := next + 1;
    }
    while current % 2 == 0
      invariant current > 0 && PlacesLeft(current, place, words, next) == left
      decreases current
    {
      place := place + 1;
      current := current / 2;
    }
  }

  lemma AfterPlace(current: nat, place: nat, words: seq<Word>, next: nat)
    requires next <= |words| && current % 2 == 1
    ensures var left := PlacesLeft(current, place, words, next);
            left != [] && left[0] == place && left[1..] == PlacesLeft(current / 2, place + 1, words, next)
  {
  }

  lemma BelowTail(places: seq<nat>, m: nat)
    requires places != []
    ensures AllBelow(places, m) <==> places[0] < m && AllBelow(places[1..], m)
  {
    if AllBelow(places, m) {
      assert places[0] in places && forall i :: i in places[1..] ==> i in places;
    }
    if places[0] < m && AllBelow(places[1..], m) {
      forall i | i in places
        ensures i < m
      {
        var k :| 0 <= k < |places| && places[k] == i;
        if k > 0 {
          assert places[1..][k - 1] in places[1..];
        }
      }
    }
  }

  /**
   Reads as many buckets as the bit vector has bits. The result is false where a bit has no bucket, so
   that the assertion on its place fails.
   */
  method ReadBuckets(r: Reader, histogram: array<RawBucket>, bitVector: array<Word>, count0: nat) returns (ok: bool)
    requires r.Valid() && histogram.Length == HISTOGRAM_SIZE
    requires bitVector.Length == BITVECTOR_SIZE && bitVector != r.buffer
    requires count0 == |BitsFrom(bitVector[..], 0)|
    modifies r, r.buffer, histogram
    ensures r.Valid()
    ensures ok <==> AllBelow(BitsFrom(bitVector[..], 0), HISTOGRAM_SIZE)
    ensures ok ==> (histogram[..], r.Rest()) == FillIn(old(histogram[..]), BitsFrom(bitVector[..], 0), old(r.Rest()))
  {
    hide BitsFrom, SetBits, ParseBucket, FillIn, AllBelow, PlacesLeft;
    var count: nat, current: nat, place: nat, next: nat := count0, 0, 0, 0;
    ghost var words := bitVector[..];
    ghost var left := BitsFrom(words, 0);
    ghost var h0, rest0 := histogram[..], r.Rest();
    StartPlaces(words);
    while count > 0
      invariant r.Valid() && bitVector[..] == words && next <= BITVECTOR_SIZE
      invariant left == PlacesLeft(current, place, words, next) && count == |left|
      invariant AllBelow(left, HISTOGRAM_SIZE) <==> AllBelow(BitsFrom(words, 0), HISTOGRAM_SIZE)
      invariant AllBelow(left, HISTOGRAM_SIZE) ==>
                  FillIn(histogram[..], left, r.Rest()) == FillIn(h0, BitsFrom(words, 0), rest0)
    {
      count := count - 1;
      current, place, next := NextPlace(bitVector, current, place, next);
      AfterPlace(current, place, words, next);
      BelowTail(left, HISTOGRAM_SIZE);
      if place >= HISTOGRAM_SIZE {
        return false;
      }
      ghost var before := histogram[..];
      FillOne(before, left, r.Rest());
      var num, minValue, cumValue := ReadBucket(r);
      SetBucket(histogram, place, num, minValue, cumValue);
      current := current / 2;
      place := place + 1;
      left := left[1..];
    }
    assert left == [];
    NothingToFill(histogram[..], r.Rest());
    ok := true;
  }

  lemma NothingToFill(h: seq<RawBucket>, rest: seq<Word>)
    requires |h| == HISTOGRAM_SIZE
    ensures AllBelow([], HISTOGRAM_SIZE) && FillIn(h, [], rest) == (h, rest)
  {
  }

  method SetBucket(histogram: array<RawBucket>, i: nat, num: Word, minValue: Counter, cumValue: Counter)
    requires i < histogram.Length
    modifies histogram
    ensures histogram[..] == old(histogram[..])[i := RawBucket(num, minValue, cumValue)]
  {
    histogram[i] := histogram[i].(num := num);
    histogram[i] := histogram[i].(minValue := minValue);
    histogram[i] := histogram[i].(cumValue := cumValue);
  }

  /** Reading the bucket of the first place, and then those of the others. */
  lemma FillOne(h: seq<RawBucket>, places: seq<nat>, rest: seq<Word>)
    requires places != [] && places[0] < HISTOGRAM_SIZE && |h| == HISTOGRAM_SIZE
    ensures AllBelow(places, HISTOGRAM_SIZE) && AllBelow(places[1..], HISTOGRAM_SIZE) ==>
              var (b, r) := ParseBucket(rest);
              FillIn(h, places, rest) == FillIn(h[places[0] := b], places[1..], r)
  {
    hide ParseBucket, AllBelow;
  }

  lemma StartPlaces(words: seq<Word>)
    ensures PlacesLeft(0, 0, words, 0) == BitsFrom(words, 0)
  {
    assert [] + BitsFrom(words, 0) == BitsFrom(words, 0);
  }

  method ReadBucket(r: Reader) returns (num: Word, minValue: Counter, cumValue: Counter)
    requires r.Valid()
    modifies r, r.buffer
    ensures r.Valid() && (RawBucket(num, minValue, cumValue), r.Rest()) == ParseBucket(old(r.Rest()))
  {
    hide NextWord, NextCounter;
    num := r.ReadUnsigned();
    minValue := r.ReadCounter();
    cumValue := r.ReadCounter();
  }

  /** The bit vector of the record that is read next. */
  function BitVectorOf(rest: seq<Word>): (words: seq<Word>)
    ensures |words| == BITVECTOR_SIZE
  {
    TakeWordsPrefix(ParseHeader(rest).1, BITVECTOR_SIZE, BITVECTOR_SIZE);
    TakeWords(ParseHeader(rest).1, BITVECTOR_SIZE).0
  }

  /** The summary that is read next, and what is left of the file after it. */
  function ParseSummary(rest: seq<Word>): (RawContents, seq<Word>)
    requires AllBelow(BitsFrom(BitVectorOf(rest), 0), HISTOGRAM_SIZE)
  {
    var (header, r1) := ParseHeader(rest);
    var (words, r2) := TakeWords(r1, BITVECTOR_SIZE);
    TakeWordsPrefix(r1, BITVECTOR_SIZE, BITVECTOR_SIZE);
    var (h, r3) := FillIn(RawEmpty(), BitsFrom(words, 0), r2);
    (RawContents(header, h), r3)
  }

  /** A summary that is read from a file. */
  class RawSummary {
    var header: Header
    const histogram: array<RawBucket>

    ghost predicate Valid() {
      histogram.Length == HISTOGRAM_SIZE
    }

    ghost function Value(): RawContents
      reads this, histogram
    {
      RawContents(header, histogram[..])
    }

    constructor ()
      ensures Valid() && fresh(histogram)
    {
      header := Header(0, 0, 0, 0, 0, 0);
      histogram := new RawBucket[HISTOGRAM_SIZE](_ => RAW_EMPTY);
    }
  }

  /**
   Reads a summary record, whatever words it has. The result is false where the bit vector names a bucket
   that does not exist, so that the assertion on its place fails.
   */
  method ReadSummary(r: Reader, s: RawSummary) returns (ok: bool)
    requires r.Valid() && s.Valid()
    modifies r, r.buffer, s, s.histogram
    ensures r.Valid() && s.Valid()
    ensures ok <==> AllBelow(BitsFrom(BitVectorOf(old(r.Rest())), 0), HISTOGRAM_SIZE)
    ensures ok ==> (s.Value(), r.Rest()) == ParseSummary(old(r.Rest()))
  {
    hide NextWord, NextCounter, TakeWords, BitsFrom, FillIn;
    ReadHeader(r, s);
    var histogram := s.histogram;
    forall i | 0 <= i < histogram.Length {
      histogram[i] := RAW_EMPTY;
    }
    assert histogram[..] == RawEmpty();
    var bitVector, count := ReadBitVector(r);
    ok := ReadBuckets(r, histogram, bitVector, count);
  }

  method ReadHeader(r: Reader, s: RawSummary)
    requires r.Valid() && s.Valid()
    modifies r, r.buffer, s`header
    ensures r.Valid() && (s.header, r.Rest()) == ParseHeader(old(r.Rest()))
  {
    hide NextWord, NextCounter, ParseTotals;
    var checksum := r.ReadUnsigned();
    var num := r.ReadUnsigned();
    var runs := r.ReadUnsigned();
    var sumAll, runMax, sumMax := ReadTotals(r);
    s.header := Header(checksum, num, runs, sumAll, runMax, sumMax);
  }

  method ReadTotals(r: Reader) returns (sumAll: Counter, runMax: Counter, sumMax: Counter)
    requires r.Valid()
    modifies r, r.buffer
    ensures r.Valid() && ((sumAll, runMax, sumMax), r.Rest()) == ParseTotals(old(r.Rest()))
  {
    hide NextCounter;
    sumAll := r.ReadCounter();
    runMax := r.ReadCounter();
    sumMax := r.ReadCounter();
  }

  // ---------- summaries without negative counters ----------

  predicate BucketNonNegative(b: RawBucket) {
    b.minValue >= 0 && b.cumValue >= 0
  }

  predicate RawNonNegative(raw: RawContents) {
    && raw.header.sumAll >= 0 && raw.header.runMax >= 0 && raw.header.sumMax >= 0
    && forall b :: b in raw.histogram ==> BucketNonNegative(b)
  }

  /** The summary that was read, if it has no negative counters. */
  function ContentsOf(raw: RawContents): (c: Contents)
    requires RawNonNegative(raw)
  {
    var h := raw.histogram;
    var buckets := seq(|h|, i requires 0 <= i < |h| =>
      assert BucketNonNegative(h[i]); Bucket(h[i].num, h[i].minValue, h[i].cumValue));
    Contents(raw.header.checksum, raw.header.num, raw.header.runs,
             raw.header.sumAll, raw.header.runMax, raw.header.sumMax, buckets)
  }
}
