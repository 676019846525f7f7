/** The stored summary over any number of runs of one program. */
module RunHistory {
  import opened Powers
  import opened HistoIndex
  import opened Histogram
  import opened HistogramMerge
  import opened ProgramSummary
  import opened WorkingSets
  import opened SummaryRecord
  import opened Bits
  import SummaryRoundTrip

  /** The histogram accounts for all counters and for the whole execution count. */
  ghost predicate SummaryOk(c: Contents) {
    HistogramOk(c.histogram) && TotalNum(c.histogram) == c.num && TotalCum(c.histogram) == c.sumAll
  }

  /** Computing the summary of a run establishes the invariant. */
  lemma ComputedOk(vals: seq<Count>)
    ensures SummaryOk(SummaryOf(vals))
  {
    hide IndexOf;
    if vals == [] {
      ZeroTotals(NoBuckets(), |NoBuckets()|);
    } else {
      TallyOk(vals, Max(vals));
    }
  }

  /**
   A merge that runs to its end keeps the invariant exactly if the stored summary has runs, or has
   accumulated nothing yet. Otherwise the histogram is replaced while the execution count adds up.
   */
  lemma MergeKeepsInvariant(prg: Contents, run: Contents, crc: Word, accounted: bool)
    requires SummaryOk(prg) && SummaryOk(run)
    requires prg.runs != 0 ==> Mergeable(prg.histogram) && Mergeable(run.histogram) && MergeDefined(prg.histogram, run.histogram)
    ensures SummaryOk(MergeContents(prg, run, crc, accounted)) <==> prg.runs != 0 || prg.sumAll == 0
  {
    hide IndexOf, HistogramOk, Merged, Normalise, Mergeable;
    if prg.runs == 0 {
      NormaliseKeeps(run.histogram);
    } else {
      MergedConserves(prg.histogram, run.histogram);
    }
  }

  // ---------- sequences of runs ----------

  /** One execution: its counters, and whether it had been counted as a run before it was merged. */
  datatype Run = Run(vals: seq<Count>, accounted: bool)

  function RunsSum(runs: seq<Run>): nat {
    if runs == [] then 0 else RunsSum(runs[..|runs| - 1]) + Sum(runs[|runs| - 1].vals)
  }

  /** Runs of one program with n counters, small enough for 64-bit arithmetic. */
  ghost predicate RunsFit(runs: seq<Run>, n: nat) {
    && RunsSum(runs) < TWO_63 && n * RunsSum(runs) < TWO_63 && |runs| < TWO_32
    && forall r :: r in runs ==> |r.vals| == n
  }

  lemma RunsFitPrefix(runs: seq<Run>, n: nat)
    requires RunsFit(runs, n) && runs != []
    ensures RunsFit(runs[..|runs| - 1], n)
    ensures var last := runs[|runs| - 1];
            |last.vals| == n && n * Sum(last.vals) < TWO_63 && RunsSum(runs[..|runs| - 1]) + Sum(last.vals) == RunsSum(runs)
  {
    var init, last := runs[..|runs| - 1], runs[|runs| - 1];
    MulMonotone(RunsSum(init), RunsSum(runs), n);
    MulMonotone(Sum(last.vals), RunsSum(runs), n);
    assert last in runs && forall r :: r in init ==> r in runs;
  }

  /** How many runs in a row, from the first, had been counted before. */
  function Uncounted(runs: seq<Run>): (k: nat)
    ensures k <= |runs|
    ensures forall i :: 0 <= i < k ==> runs[i].accounted
    ensures k < |runs| ==> !runs[k].accounted
  {
    if runs == [] then 0
    else
      var k := Uncounted(runs[..|runs| - 1]);
      if k == |runs| - 1 && runs[k].accounted then k + 1 else k
  }

  /** A program without counters gets through one merge into a summary that has no runs, but through none after it. */
  predicate GoesThrough(runs: seq<Run>, n: nat) {
    0 < n || |runs| <= Uncounted(runs) + 1
  }

  lemma GoesThroughPrefix(runs: seq<Run>, n: nat)
    requires GoesThrough(runs, n) && runs != []
    ensures GoesThrough(runs[..|runs| - 1], n)
    ensures n == 0 ==> Uncounted(runs[..|runs| - 1]) == |runs| - 1
  {
  }

  /** How many runs have had their histogram replaced by that of a later run. */
  function Replaced(runs: seq<Run>): (k: nat)
    ensures k <= |runs|
  {
    var k := Uncounted(runs);
    if 0 < |runs| == k then k - 1 else k
  }

  /** What is left of the bounds when a histogram's totals are known. */
  lemma TotalsMakeMergeable(h: seq<Bucket>, n: nat, sum: nat)
    requires HistogramOk(h) && TotalNum(h) <= n && TotalCum(h) <= sum && n * sum < TWO_63
    ensures Mergeable(h)
  {
    hide IndexOf, HistogramOk;
    forall i | 0 <= i < |h| && h[i].num > 0
      ensures h[i].num * h[i].cumValue < TWO_63
    {
      BucketWithinTotals(h, i, |h|);
      MulMonotone(h[i].num, n, h[i].cumValue);
      MulMonotone(h[i].cumValue, sum, n);
    }
  }

  ghost predicate StoredShape(c: Contents, runs: seq<Run>, n: nat) {
    && HistogramOk(c.histogram) && Normalise(c.histogram) == c.histogram
    && c.sumAll == RunsSum(runs)
    && c.num == (if runs == [] then 0 else n)
    && TotalNum(c.histogram) == c.num
    && TotalCum(c.histogram) <= c.sumAll
    && c.runMax <= c.sumMax <= c.sumAll
    && c.runs <= |runs|
    && (c.runs == 0 <==> Uncounted(runs) == |runs|)
  }

  /** The stored summary after a sequence of runs, each merged into what was read back. */
  function Stored(runs: seq<Run>, n: nat, crc: Word): (c: Contents)
    requires RunsFit(runs, n) && GoesThrough(runs, n)
    ensures StoredShape(c, runs, n)
  {
    if runs == [] then
      NothingStored();
      ZERO_CONTENTS
    else
      var init, last := runs[..|runs| - 1], runs[|runs| - 1];
      RunsFitPrefix(runs, n);
      GoesThroughPrefix(runs, n);
      var prg := Stored(init, n, crc);
      StoreStep(prg, runs, n, crc);
      MergeContents(prg, SummaryOf(last.vals), crc, last.accounted)
  }

  lemma NothingStored()
    ensures HistogramOk(NoBuckets()) && TotalNum(NoBuckets()) == 0 && TotalCum(NoBuckets()) == 0
    ensures Normalise(NoBuckets()) == NoBuckets()
  {
    hide IndexOf;
    ZeroTotals(NoBuckets(), |NoBuckets()|);
  }

  /** A stored summary and the summary of the next run can always be merged. */
  lemma StoreInputs(prg: Contents, runs: seq<Run>, n: nat)
    requires RunsFit(runs, n) && runs != [] && StoredShape(prg, runs[..|runs| - 1], n)
    ensures var run := SummaryOf(runs[|runs| - 1].vals);
            && Mergeable(prg.histogram) && Mergeable(run.histogram)
            && (prg.runs != 0 ==> (MergeDefined(prg.histogram, run.histogram) <==> 0 < n))
            && SummaryOk(run) && run.num == n && run.sumAll == Sum(runs[|runs| - 1].vals) && run.runMax <= run.sumAll
  {
    hide IndexOf, HistogramOk, Merged, Normalise, Mergeable, Tally;
    var init, last := runs[..|runs| - 1], runs[|runs| - 1];
    RunsFitPrefix(runs, n);
    var run := SummaryOf(last.vals);
    ComputedOk(last.vals);
    MaxAtMostSum(last.vals);
    TotalsMakeMergeable(run.histogram, n, run.sumAll);
    MulMonotone(RunsSum(init), RunsSum(runs), n);
    TotalsMakeMergeable(prg.histogram, n, RunsSum(init));
  }

  lemma {:induction false} MaxAtMostSum(vals: seq<Count>)
    ensures Max(vals) <= Sum(vals)
  {
    if vals != [] {
      MaxAtMostSum(vals[..|vals| - 1]);
    }
  }

  lemma UncountedNext(runs: seq<Run>)
    requires runs != []
    ensures var init, last := runs[..|runs| - 1], runs[|runs| - 1];
            Uncounted(runs) == |runs| <==> Uncounted(init) == |init| && last.accounted
  {
  }

  /** Each merge keeps the shape of the stored summary. */
  lemma StoreStep(prg: Contents, runs: seq<Run>, n: nat, crc: Word)
    requires RunsFit(runs, n) && GoesThrough(runs, n) && runs != [] && StoredShape(prg, runs[..|runs| - 1], n)
    ensures var run := SummaryOf(runs[|runs| - 1].vals);
            && (prg.runs != 0 ==> Mergeable(prg.histogram) && Mergeable(run.histogram))
            && StoredShape(MergeContents(prg, run, crc, runs[|runs| - 1].accounted), runs, n)
            && TotalCum(MergeContents(prg, run, crc, runs[|runs| - 1].accounted).histogram)
               == (if prg.runs == 0 then 0 else TotalCum(prg.histogram)) + Sum(runs[|runs| - 1].vals)
  {
    hide HistogramOk, Merged, Normalise, Mergeable, SummaryOf, MergeDefined, Uncounted, TotalNum, TotalCum, RunsSum, Sum;
    RunsFitPrefix(runs, n);
    GoesThroughPrefix(runs, n);
    StoreInputs(prg, runs, n);
    UncountedNext(runs);
    var run := SummaryOf(runs[|runs| - 1].vals);
    NormaliseKeeps(run.histogram);
    if prg.runs != 0 {
      MergedConserves(prg.histogram, run.histogram);
    }
  }

  /** Among runs that have gone through, the next merge runs to its end exactly if it is said to go through. */
  lemma MergeGoesThroughIff(runs: seq<Run>, n: nat, crc: Word)
    requires RunsFit(runs, n) && runs != [] && GoesThrough(runs[..|runs| - 1], n)
    ensures RunsFit(runs[..|runs| - 1], n)
    ensures var prg, run := Stored(runs[..|runs| - 1], n, crc), SummaryOf(runs[|runs| - 1].vals);
            && Mergeable(prg.histogram) && Mergeable(run.histogram) && |prg.histogram| == HISTOGRAM_SIZE
            && ((prg.runs != 0 ==> MergeDefined(prg.histogram, run.histogram)) <==> GoesThrough(runs, n))
  {
    hide HistogramOk, Normalise, Mergeable, SummaryOf, MergeDefined, TotalNum, TotalCum, RunsSum, Sum;
    hide Stored, GoesThrough, Uncounted;
    RunsFitPrefix(runs, n);
    var prg := Stored(runs[..|runs| - 1], n, crc);
    StoreInputs(prg, runs, n);
    GoesThroughNext(runs, n);
    SizeOf(prg.histogram);
  }

  lemma GoesThroughNext(runs: seq<Run>, n: nat)
    requires runs != []
    ensures var init := runs[..|runs| - 1];
            GoesThrough(runs, n) <==> 0 < n || Uncounted(init) == |init|
  {
  }

  lemma SizeOf(h: seq<Bucket>)
    requires HistogramOk(h)
    ensures |h| == HISTOGRAM_SIZE
  {
    hide IndexOf;
  }

  /** A program without counters whose first run was counted: the merge of the second run fails its assertion. */
  lemma NoCountersFailAtSecondRun(crc: Word)
    ensures var none := SummaryOf([]);
            var first := MergeContents(ZERO_CONTENTS, none, crc, false);
            && first.runs == 1 && Mergeable(first.histogram) && Mergeable(none.histogram)
            && |first.histogram| == HISTOGRAM_SIZE && !MergeDefined(first.histogram, none.histogram)
  {
    hide HistogramOk, Normalise, Mergeable, MergeDefined, TotalNum, TotalCum, Sum;
    var runs := [Run([], false), Run([], false)];
    assert runs[..1] == [runs[0]] && runs[..1][..0] == [];
    SumOfNothing();
    assert RunsSum([]) == 0 && RunsSum(runs[..1]) == 0 && RunsSum(runs) == 0;
    assert Uncounted([]) == 0 && Uncounted(runs[..1]) == 0 && Uncounted(runs) == 0;
    MergeGoesThroughIff(runs, 0, crc);
  }

  lemma SumOfNothing()
    ensures Sum([]) == 0
  {
  }

  // ---------- the other fields of the stored summary ----------

  function NumberCounted(runs: seq<Run>): nat {
    if runs == [] then 0
    else NumberCounted(runs[..|runs| - 1]) + if runs[|runs| - 1].accounted then 0 else 1
  }

  function SumOfLargest(runs: seq<Run>): nat {
    if runs == [] then 0 else SumOfLargest(runs[..|runs| - 1]) + Max(runs[|runs| - 1].vals)
  }

  /** The largest counter of any run, 0 without counters. */
  ghost predicate IsLargest(m: nat, runs: seq<Run>) {
    && (forall r, v :: r in runs && v in r.vals ==> v <= m)
    && (m == 0 || exists r :: r in runs && m in r.vals)
  }

  lemma LargestNext(m: nat, init: seq<Run>, last: Run)
    requires IsLargest(m, init)
    ensures IsLargest(Larger(m, Max(last.vals)), init + [last])
  {
    var larger := Larger(m, Max(last.vals));
    if larger != 0 {
      if larger == m {
        var r :| r in init && m in r.vals;
        assert r in init + [last];
      } else {
        assert last in init + [last];
      }
    }
  }

  lemma StoredAgain(runs: seq<Run>, n: nat, crc: Word)
    requires RunsFit(runs, n) && GoesThrough(runs, n) && runs != []
    ensures var init, last := runs[..|runs| - 1], runs[|runs| - 1];
            && RunsFit(init, n) && GoesThrough(init, n)
            && var prg, run := Stored(init, n, crc), SummaryOf(last.vals);
               && (prg.runs != 0 ==> Mergeable(prg.histogram) && Mergeable(run.histogram))
               && Stored(runs, n, crc) == MergeContents(prg, run, crc, last.accounted)
  {
    hide StoredShape, MergeContents, SummaryOf, Uncounted, Sum, TotalCum, HistogramOk, Normalise, Mergeable;
    RunsFitPrefix(runs, n);
    GoesThroughPrefix(runs, n);
    StoreStep(Stored(runs[..|runs| - 1], n, crc), runs, n, crc);
  }

  lemma MergedFields(prg: Contents, run: Contents, crc: Word, accounted: bool)
    requires prg.runs != 0 ==> Mergeable(prg.histogram) && Mergeable(run.histogram)
    ensures var c := MergeContents(prg, run, crc, accounted);
            && c.checksum == crc && c.runs == (if accounted then prg.runs else (prg.runs + 1) % TWO_32)
            && c.runMax == Larger(prg.runMax, run.runMax) && c.sumMax == prg.sumMax + run.runMax
  {
    hide Normalise, Mergeable, Merged, Larger;
  }

  lemma MaxOfRun(vals: seq<Count>)
    ensures SummaryOf(vals).runMax == Max(vals)
  {
    hide Tally, Max, Sum;
  }

  /**
   After any runs the stored summary says how many of them had not been counted before, the largest
   counter of any of them, and the sum of the largest counters of each; its checksum is the program's.
   */
  lemma {:induction false} StoredFields(runs: seq<Run>, n: nat, crc: Word)
    requires RunsFit(runs, n) && GoesThrough(runs, n)
    ensures var c := Stored(runs, n, crc);
            && c.runs == NumberCounted(runs)
            && IsLargest(c.runMax, runs)
            && c.sumMax == SumOfLargest(runs)
            && c.checksum == (if runs == [] then 0 else crc)
  {
    hide Stored, StoredShape, MergeContents, SummaryOf, Mergeable, Uncounted, RunsFit, GoesThrough, IsLargest, Max, Larger;
    if runs == [] {
      StoredNothing(n, crc);
      assert IsLargest(0, []) by { NoLargest(); }
    } else {
      var init, last := runs[..|runs| - 1], runs[|runs| - 1];
      StoredAgain(runs, n, crc);
      MergedFields(Stored(init, n, crc), SummaryOf(last.vals), crc, last.accounted);
      MaxOfRun(last.vals);
      StoredFields(init, n, crc);
      AtMostAll(init);
      ShortHistory(runs, n);
      assert runs == init + [last];
      LargestNext(Stored(init, n, crc).runMax, init, last);
    }
  }

  lemma NoLargest()
    ensures IsLargest(0, [])
  {
  }

  lemma ShortHistory(runs: seq<Run>, n: nat)
    requires RunsFit(runs, n)
    ensures |runs| < TWO_32
  {
  }

  lemma {:induction false} AtMostAll(runs: seq<Run>)
    ensures NumberCounted(runs) <= |runs|
  {
    if runs != [] {
      AtMostAll(runs[..|runs| - 1]);
    }
  }

  /** The stored histogram accounts for all runs but those whose histogram was replaced. */
  lemma {:induction false} StoredSums(runs: seq<Run>, n: nat, crc: Word)
    requires RunsFit(runs, n) && GoesThrough(runs, n)
    ensures TotalCum(Stored(runs, n, crc).histogram) == RunsSum(runs) - RunsSum(runs[..Replaced(runs)])
  {
    hide Stored, StoredShape, Uncounted, Replaced, Sum, TotalCum, HistogramOk, Normalise;
    if runs == [] {
      NothingStored();
      StoredNothing(n, crc);
    } else {
      var init := runs[..|runs| - 1];
      RunsFitPrefix(runs, n);
      GoesThroughPrefix(runs, n);
      StoredSums(init, n, crc);
      StoredNext(runs, n, crc);
      ReplacedNext(runs);
      assert runs[..Replaced(runs)] == init[..Replaced(runs)];
    }
  }

  lemma StoredNothing(n: nat, crc: Word)
    requires RunsFit([], n) && GoesThrough([], n)
    ensures Stored([], n, crc) == ZERO_CONTENTS
  {
  }

  /** The next run adds its counters to the histogram, or replaces it. */
  lemma StoredNext(runs: seq<Run>, n: nat, crc: Word)
    requires RunsFit(runs, n) && GoesThrough(runs, n) && runs != []
    ensures var init, last := runs[..|runs| - 1], runs[|runs| - 1];
            && RunsFit(init, n) && GoesThrough(init, n) && RunsSum(runs) == RunsSum(init) + Sum(last.vals)
            && TotalCum(Stored(runs, n, crc).histogram) == Sum(last.vals) +
               if Uncounted(init) == |init| then 0 else TotalCum(Stored(init, n, crc).histogram)
  {
    hide MergeContents, SummaryOf, Uncounted, Sum, TotalCum, HistogramOk, Normalise, Mergeable;
    RunsFitPrefix(runs, n);
    GoesThroughPrefix(runs, n);
    StoreStep(Stored(runs[..|runs| - 1], n, crc), runs, n, crc);
  }

  /** All runs before the first that is counted, or before the last of all, are replaced. */
  lemma ReplacedNext(runs: seq<Run>)
    requires runs != []
    ensures var init := runs[..|runs| - 1];
            Replaced(runs) == if Uncounted(init) == |init| then |init| else Replaced(init)
  {
  }

  /**
   After any number of runs the stored summary satisfies the invariant exactly if the runs whose
   histogram was replaced had all counters zero; so always if the first run had not been counted before.
   */
  lemma StoredOkIff(runs: seq<Run>, n: nat, crc: Word)
    requires RunsFit(runs, n) && GoesThrough(runs, n)
    ensures SummaryOk(Stored(runs, n, crc)) <==> RunsSum(runs[..Replaced(runs)]) == 0
    ensures runs == [] || !runs[0].accounted ==> SummaryOk(Stored(runs, n, crc))
  {
    hide HistogramOk, Stored;
    StoredSums(runs, n, crc);
    if runs == [] || !runs[0].accounted {
      assert runs[..Replaced(runs)] == [];
    }
  }

  /**
   The final assertion of the working set computation holds for the stored summary exactly if there are
   counters and the replaced runs make up no more than 1/1024 of the execution count.
   */
  lemma WorkingSetsDefined(runs: seq<Run>, n: nat, crc: Word)
    requires RunsFit(runs, n) && GoesThrough(runs, n) && runs != []
    ensures var c := Stored(runs, n, crc);
            (TotalNum(c.histogram) > 0 && Threshold(c.sumAll, NUM_WORKING_SETS - 1) <= TotalCum(c.histogram)
             <==> 0 < n && RunsSum(runs[..Replaced(runs)]) <= RunsSum(runs) / 1024)
  {
    hide HistogramOk, Stored, Normalise;
    StoredSums(runs, n, crc);
  }

  /** Two executions that had both been counted before: the second replaces the histogram of the first. */
  lemma CountedTwiceLosesARun()
    ensures var runs := [Run([1], true), Run([1], true)];
            && RunsFit(runs, 1) && GoesThrough(runs, 1)
            && Stored(runs, 1, 0).sumAll == 2 && TotalCum(Stored(runs, 1, 0).histogram) == 1
  {
    var runs := [Run([1], true), Run([1], true)];
    assert Sum([1]) == 1;
    assert runs[..1] == [runs[0]] && RunsSum([runs[0]]) == 1;
    assert RunsSum(runs) == 2;
    assert Uncounted([runs[0]]) == 1 && Uncounted(runs) == 2;
    hide Stored;
    StoredSums(runs, 1, 0);
  }

  /** The stored summary fits its record, and is read back from the file exactly as it was stored. */
  lemma StoredReadsBack(runs: seq<Run>, n: nat, crc: Word, tail: seq<Word>)
    requires RunsFit(runs, n) && GoesThrough(runs, n) && n < TWO_32
    ensures var c := Stored(runs, n, crc);
            && RecordFits(c)
            && AllBelow(BitsFrom(BitVectorOf(SummaryBody(c) + tail), 0), HISTOGRAM_SIZE)
            && var (raw, left) := ParseSummary(SummaryBody(c) + tail);
               left == tail && RawNonNegative(raw) && ContentsOf(raw) == c
  {
    hide Stored, SummaryBody, ParseSummary, ContentsOf, RawNonNegative, BitsFrom, BitVectorOf, HistogramOk, Normalise;
    var c := Stored(runs, n, crc);
    BucketsOfTotals(c.histogram, n, RunsSum(runs));
    SummaryRoundTrip.SummaryReadsBack(c, tail);
  }

  lemma BucketsOfTotals(h: seq<Bucket>, n: nat, sum: nat)
    requires HistogramOk(h) && TotalNum(h) <= n < TWO_32 && TotalCum(h) <= sum < TWO_63
    ensures |h| == HISTOGRAM_SIZE && forall i :: 0 <= i < |h| && h[i].num > 0 ==> BucketFits(h[i])
  {
    hide IndexOf;
    forall i | 0 <= i < |h| && h[i].num > 0
      ensures BucketFits(h[i])
    {
      BucketWithinTotals(h, i, |h|);
      assert BucketOk(h[i], i);
      MulMonotone(1, h[i].num, h[i].minValue);
    }
  }
}
