/** Working sets: how many of the hottest counters cover a given part of the whole execution count. */
module WorkingSets {
  import opened Powers
  import opened HistoIndex
  import opened Histogram
  import opened MergeOrder
  import opened ProgramSummary

  const NUM_WORKING_SETS: nat := 128

  datatype WorkingSet = WorkingSet(numCounters: nat, minCounter: nat)

  /** The part of the execution count that working set k is to cover; the last covers 99.9%. */
  function Threshold(sumAll: nat, k: nat): nat {
    if k + 1 < NUM_WORKING_SETS then (k + 1) * (sumAll / NUM_WORKING_SETS) else sumAll - sumAll / 1024
  }

  lemma ThresholdsOrdered(sumAll: nat, j: nat, k: nat)
    requires j <= k < NUM_WORKING_SETS
    ensures Threshold(sumAll, j) <= Threshold(sumAll, k) <= sumAll
  {
    var step := sumAll / NUM_WORKING_SETS;
    MulMonotone(j + 1, k + 1, step);
    if j < 127 {
      MulMonotone(j + 1, 127, step);
    }
    if k < 127 {
      MulMonotone(k + 1, 127, step);
    }
  }

  /** Working set k of 128 is to cover (k + 1)/128 of the execution count, the last one 1023/1024 of it, up to truncation. */
  lemma ThresholdIsPart(sumAll: nat, k: nat)
    requires k < 128
    ensures k < 127 ==> 128 * Threshold(sumAll, k) <= (k + 1) * sumAll < 128 * Threshold(sumAll, k) + 128 * (k + 1)
    ensures k == 127 ==> 1023 * sumAll <= 1024 * Threshold(sumAll, k) < 1023 * sumAll + 1024
  {
    var step, rest := sumAll / 128, sumAll % 128;
    if k < 127 {
      assert Threshold(sumAll, k) == (k + 1) * step;
      assert (k + 1) * sumAll == 128 * ((k + 1) * step) + (k + 1) * rest;
      MulMonotone(rest, 127, k + 1);
      MulMonotone(0, rest, k + 1);
    }
  }

  /** A lower bound for the sum of the c hottest counters of the first n buckets. */
  function Estimate(h: seq<Bucket>, n: nat, c: nat): nat
    requires n <= |h|
  {
    if n == 0 then 0
    else if c >= h[n - 1].num then h[n - 1].cumValue + Estimate(h, n - 1, c - h[n - 1].num)
    else c * h[n - 1].minValue
  }

  /** Least number of counters, at least one, whose estimate reaches w, and the least of their values. */
  ghost predicate IsWorkingSet(h: seq<Bucket>, w: nat, e: WorkingSet) {
    && 1 <= e.numCounters <= TotalNum(h)
    && w <= Estimate(h, |h|, e.numCounters)
    && (e.numCounters > 1 ==> Estimate(h, |h|, e.numCounters - 1) < w)
    && e.minCounter == h[BucketOfRank(h, |h|, e.numCounters - 1)].minValue
  }

  // ---------- the estimate, bucket by bucket ----------

  function NumFrom(h: seq<Bucket>, i: nat): nat
    requires i <= |h|
  {
    TotalsSplit(h, i, |h|);
    TotalNum(h) - NumBelow(h, i)
  }

  function CumFrom(h: seq<Bucket>, i: nat): nat
    requires i <= |h|
  {
    TotalsSplit(h, i, |h|);
    TotalCum(h) - CumBelow(h, i)
  }

  lemma {:induction false} TotalsSplit(h: seq<Bucket>, i: nat, n: nat)
    requires i <= n <= |h|
    ensures NumBelow(h, i) <= NumBelow(h, n) && CumBelow(h, i) <= CumBelow(h, n)
  {
    if i < n {
      TotalsSplit(h, i, n - 1);
    }
  }

  ghost predicate EmptyHaveNoSum(h: seq<Bucket>) {
    forall i :: 0 <= i < |h| && h[i].num == 0 ==> h[i].cumValue == 0
  }

  lemma {:induction false} EstimateOfNone(h: seq<Bucket>, n: nat)
    requires n <= |h| && EmptyHaveNoSum(h)
    ensures Estimate(h, n, 0) == 0
  {
    if n > 0 && h[n - 1].num == 0 {
      EstimateOfNone(h, n - 1);
    }
  }

  /** The estimate for all buckets above bucket i and c counters of bucket i itself. */
  lemma {:induction false} EstimateAt(h: seq<Bucket>, i: nat, n: nat, c: nat)
    requires i < n <= |h| && c <= h[i].num && EmptyHaveNoSum(h)
    ensures NumBelow(h, i + 1) <= NumBelow(h, n) && CumBelow(h, i + 1) <= CumBelow(h, n)
    ensures Estimate(h, n, NumBelow(h, n) - NumBelow(h, i + 1) + c)
            == CumBelow(h, n) - CumBelow(h, i + 1) + BucketEstimate(h[i], c)
  {
    hide Estimate, BucketEstimate, EmptyHaveNoSum;
    TotalsSplit(h, i + 1, n);
    if n - 1 == i {
      EstimateOfFirst(h, n, c);
    } else {
      TotalsSplit(h, i + 1, n - 1);
      EstimateAt(h, i, n - 1, c);
      EstimateBelow(h, n, NumBelow(h, n) - NumBelow(h, i + 1) + c);
    }
  }

  /** A lower bound for the sum of any c counters of a bucket. */
  function BucketEstimate(b: Bucket, c: nat): nat {
    if c < b.num then c * b.minValue else b.cumValue
  }

  lemma EstimateOfFirst(h: seq<Bucket>, n: nat, c: nat)
    requires 0 < n <= |h| && c <= h[n - 1].num && EmptyHaveNoSum(h)
    ensures Estimate(h, n, c) == BucketEstimate(h[n - 1], c)
  {
    EstimateOfNone(h, n - 1);
  }

  lemma EstimateBelow(h: seq<Bucket>, n: nat, c: nat)
    requires 0 < n <= |h| && c >= h[n - 1].num
    ensures Estimate(h, n, c) == h[n - 1].cumValue + Estimate(h, n - 1, c - h[n - 1].num)
  {
  }

  lemma {:induction false} RankAt(h: seq<Bucket>, i: nat, n: nat, c: nat)
    requires i < n <= |h| && c < h[i].num
    ensures NumBelow(h, i + 1) <= NumBelow(h, n)
    ensures BucketOfRank(h, n, NumBelow(h, n) - NumBelow(h, i + 1) + c) == i
  {
    TotalsSplit(h, i + 1, n);
    if n - 1 != i {
      TotalsSplit(h, i + 1, n - 1);
      RankAt(h, i, n - 1, c);
    }
  }

  lemma {:induction false} EstimateMonotone(h: seq<Bucket>, n: nat, c: nat, d: nat)
    requires n <= |h| && c <= d
    requires forall i :: 0 <= i < |h| ==> h[i].num * h[i].minValue <= h[i].cumValue
    ensures Estimate(h, n, c) <= Estimate(h, n, d) <= CumBelow(h, n)
  {
    if n > 0 {
      var b := h[n - 1];
      assert b.num * b.minValue <= b.cumValue;
      if c >= b.num {
        EstimateMonotone(h, n - 1, c - b.num, d - b.num);
      } else {
        MulMonotone(c, b.num, b.minValue);
        if d >= b.num {
          EstimateMonotone(h, n - 1, 0, d - b.num);
        } else {
          MulMonotone(d, b.num, b.minValue);
          MulMonotone(c, d, b.minValue);
        }
      }
    }
  }

  lemma BucketFacts(h: seq<Bucket>)
    requires HistogramOk(h)
    ensures EmptyHaveNoSum(h)
    ensures forall i :: 0 <= i < |h| ==> h[i].num * h[i].minValue <= h[i].cumValue
  {
    hide IndexOf;
    forall i | 0 <= i < |h|
      ensures (h[i].num == 0 ==> h[i].cumValue == 0) && h[i].num * h[i].minValue <= h[i].cumValue
    {
      assert BucketOk(h[i], i);
    }
  }

  // ---------- the computation ----------

  /** The first n entries are the working sets of the first n thresholds. */
  ghost predicate Filled(h: seq<Bucket>, w: seq<nat>, ws: seq<WorkingSet>, n: nat) {
    && n <= |w| == |ws| && Ascending(w)
    && forall k :: 0 <= k < n ==> IsWorkingSet(h, w[k], ws[k])
  }

  ghost predicate Ascending(w: seq<nat>) {
    forall j, k :: 0 <= j <= k < |w| ==> w[j] <= w[k]
  }

  /** After count counters with estimate cum: the next threshold, if any, is not reached yet. */
  ghost predicate Pending(w: seq<nat>, n: nat, cum: nat, count: nat) {
    n < |w| && count > 0 ==> cum < w[n]
  }

  /** Fills in all entries whose threshold has been reached. */
  method FillReached(ws: array<WorkingSet>, w: array<nat>, wsIx0: nat, tmpCum: nat, count: nat, minValue: nat)
    returns (wsIx: nat)
    requires wsIx0 <= ws.Length == w.Length
    modifies ws
    ensures wsIx0 <= wsIx <= ws.Length
    ensures forall k :: 0 <= k < ws.Length ==>
              ws[k] == if wsIx0 <= k < wsIx then WorkingSet(count, minValue) else old(ws[k])
    ensures forall k :: wsIx0 <= k < wsIx ==> w[k] <= tmpCum
    ensures wsIx < ws.Length ==> tmpCum < w[wsIx]
  {
    wsIx := wsIx0;
    while wsIx < ws.Length && tmpCum >= w[wsIx]
      invariant wsIx0 <= wsIx <= ws.Length
      invariant forall k :: 0 <= k < ws.Length ==>
                  ws[k] == if wsIx0 <= k < wsIx then WorkingSet(count, minValue) else old(ws[k])
      invariant forall k :: wsIx0 <= k < wsIx ==> w[k] <= tmpCum
    {
      ws[wsIx] := WorkingSet(count, minValue);
      wsIx := wsIx + 1;
    }
  }

  lemma FilledMore(h: seq<Bucket>, w: seq<nat>, ws: seq<WorkingSet>, ws': seq<WorkingSet>, n: nat, n': nat,
                   e: WorkingSet, before: nat)
    requires HistogramOk(h) && Filled(h, w, ws, n)
    requires n <= n' <= |ws'| == |ws|
    requires forall k :: 0 <= k < |ws| ==> ws'[k] == if n <= k < n' then e else ws[k]
    requires 1 <= e.numCounters <= TotalNum(h)
    requires forall k :: n <= k < n' ==> w[k] <= Estimate(h, |h|, e.numCounters)
    requires before == Estimate(h, |h|, e.numCounters - 1) && Pending(w, n, before, e.numCounters - 1)
    requires e.minCounter == h[BucketOfRank(h, |h|, e.numCounters - 1)].minValue
    ensures Filled(h, w, ws', n')
  {
    hide HistogramOk, Estimate, BucketOfRank, TotalNum;
    forall k | 0 <= k < n'
      ensures IsWorkingSet(h, w[k], ws'[k])
    {
      if k >= n {
        assert w[n] <= w[k];
      }
    }
  }

  /** Goes through the counters of bucket i, assuming the least value for all but the last. */
  method ScanBucket(ws: array<WorkingSet>, w: array<nat>, ghost h: seq<Bucket>, ghost i: nat, bucket: Bucket,
                    wsIx0: nat, cum: nat, count0: nat)
    returns (wsIx: nat, count: nat)
    requires HistogramOk(h) && i < |h| && bucket == h[i]
    requires cum == CumFrom(h, i + 1) && count0 == NumFrom(h, i + 1)
    requires wsIx0 < ws.Length == w.Length == NUM_WORKING_SETS
    requires Filled(h, w[..], ws[..], wsIx0) && Pending(w[..], wsIx0, cum, count0)
    modifies ws
    ensures wsIx <= ws.Length && Filled(h, w[..], ws[..], wsIx)
    ensures wsIx < ws.Length ==> count == NumFrom(h, i) && Pending(w[..], wsIx, CumFrom(h, i), count)
  {
    hide IndexOf, HistogramOk, Filled, Pending, Estimate, NumFrom, CumFrom, BucketOfRank, EmptyHaveNoSum, TotalNum;
    var tmpCum := cum;
    wsIx, count := wsIx0, count0;
    BucketFacts(h);
    ScanEnds(h, i);
    var c := 0;
    while c < bucket.num && wsIx < NUM_WORKING_SETS
      invariant c <= bucket.num && wsIx <= ws.Length && count == count0 + c
      invariant tmpCum == Estimate(h, |h|, count)
      invariant Filled(h, w[..], ws[..], wsIx) && Pending(w[..], wsIx, tmpCum, count)
    {
      ghost var before, n, filled := tmpCum, wsIx, ws[..];
      ScanStep(h, i, c);
      count := count + 1;
      if c + 1 < bucket.num {
        tmpCum := tmpCum + bucket.minValue;
      } else {
        tmpCum := cum + bucket.cumValue;
      }
      wsIx := FillReached(ws, w, wsIx, tmpCum, count, bucket.minValue);
      FilledMore(h, w[..], filled, ws[..], n, wsIx, WorkingSet(count, bucket.minValue), before);
      PendingAfter(w[..], wsIx, tmpCum, count);
      c := c + 1;
    }
  }

  lemma PendingAfter(w: seq<nat>, n: nat, cum: nat, count: nat)
    requires n < |w| ==> cum < w[n]
    ensures Pending(w, n, cum, count)
  {
  }

  lemma ScanEnds(h: seq<Bucket>, i: nat)
    requires i < |h| && EmptyHaveNoSum(h)
    ensures Estimate(h, |h|, NumFrom(h, i + 1)) == CumFrom(h, i + 1)
    ensures NumFrom(h, i + 1) + h[i].num == NumFrom(h, i)
    ensures Estimate(h, |h|, NumFrom(h, i)) == CumFrom(h, i)
  {
    ScanPoint(h, i, 0);
    ScanPoint(h, i, h[i].num);
  }

  lemma ScanStep(h: seq<Bucket>, i: nat, c: nat)
    requires i < |h| && c < h[i].num && EmptyHaveNoSum(h)
    ensures var count := NumFrom(h, i + 1) + c;
            && count < TotalNum(h) && BucketOfRank(h, |h|, count) == i
            && Estimate(h, |h|, count + 1) ==
               if c + 1 < h[i].num then Estimate(h, |h|, count) + h[i].minValue else CumFrom(h, i + 1) + h[i].cumValue
  {
    hide NumFrom, CumFrom, Estimate, BucketOfRank;
    ScanPoint(h, i, c);
    ScanPoint(h, i, c + 1);
    assert (c + 1) * h[i].minValue == c * h[i].minValue + h[i].minValue;
  }

  /** The estimate after c counters of bucket i and all hotter ones. */
  lemma ScanPoint(h: seq<Bucket>, i: nat, c: nat)
    requires i < |h| && c <= h[i].num && EmptyHaveNoSum(h)
    ensures NumFrom(h, i + 1) + h[i].num == NumFrom(h, i) && CumFrom(h, i + 1) + h[i].cumValue == CumFrom(h, i)
    ensures NumFrom(h, i) <= TotalNum(h)
    ensures Estimate(h, |h|, NumFrom(h, i + 1) + c)
            == CumFrom(h, i + 1) + (if c < h[i].num then c * h[i].minValue else h[i].cumValue)
    ensures 0 < c ==> NumFrom(h, i + 1) + c - 1 < TotalNum(h) && BucketOfRank(h, |h|, NumFrom(h, i + 1) + c - 1) == i
  {
    hide Estimate, BucketOfRank;
    EstimateAt(h, i, |h|, c);
    if 0 < c {
      RankAt(h, i, |h|, c - 1);
    }
  }

  /**
   Computes the working sets of a summary. The result is false where the final assertion fails, that
   is where some working set could not be filled in.
   */
  method ComputeWorkingSets(s: Summary, ws: array<WorkingSet>) returns (ok: bool)
    requires s.Valid() && HistogramOk(s.histogram[..]) && ws.Length == NUM_WORKING_SETS
    modifies ws
    ensures var h := s.histogram[..];
            ok <==> TotalNum(h) > 0 && Threshold(s.sumAll, NUM_WORKING_SETS - 1) <= TotalCum(h)
    ensures ok ==> forall k :: 0 <= k < NUM_WORKING_SETS ==>
                     IsWorkingSet(s.histogram[..], Threshold(s.sumAll, k), ws[k])
  {
    hide IndexOf, HistogramOk, IsWorkingSet, NumFrom, CumFrom;
    var w := CumValues(s.sumAll);
    ghost var h, thresholds := s.histogram[..], w[..];
    var wsIx: nat, cum: nat, count: nat := 0, 0, 0;
    var i := HISTOGRAM_SIZE;
    WholeHistogram(h);
    while i > 0 && wsIx < NUM_WORKING_SETS
      invariant 0 <= i <= HISTOGRAM_SIZE && wsIx <= NUM_WORKING_SETS
      invariant w[..] == thresholds && s.histogram[..] == h
      invariant Filled(h, w[..], ws[..], wsIx)
      invariant wsIx < NUM_WORKING_SETS ==>
                  cum == CumFrom(h, i) && count == NumFrom(h, i) && Pending(w[..], wsIx, cum, count)
    {
      i := i - 1;
      var bucket := s.histogram[i];
      OneBucketDown(h, i);
      if cum + bucket.cumValue < w[wsIx] {
        cum := cum + bucket.cumValue;
        count := count + bucket.num;
        continue;
      }
      wsIx, count := ScanBucket(ws, w, h, i, bucket, wsIx, cum, count);
      cum := cum + bucket.cumValue;
    }
    ok := wsIx == NUM_WORKING_SETS;
    assert forall k :: 0 <= k < NUM_WORKING_SETS ==> thresholds[k] == Threshold(s.sumAll, k);
    if ok {
      assert IsWorkingSet(h, thresholds[127], ws[..][127]);
      LastReached(h, thresholds[127], ws[127]);
    } else {
      assert thresholds[wsIx] <= thresholds[127];
    }
  }

  method CumValues(sumAll: nat) returns (w: array<nat>)
    ensures fresh(w) && w.Length == NUM_WORKING_SETS && Ascending(w[..])
    ensures forall k :: 0 <= k < w.Length ==> w[k] == Threshold(sumAll, k)
  {
    w := new nat[NUM_WORKING_SETS];
    var increment := sumAll / NUM_WORKING_SETS;
    var cum := increment;
    for k := 0 to NUM_WORKING_SETS
      invariant cum == (k + 1) * increment
      invariant forall j :: 0 <= j < k ==> w[j] == (j + 1) * increment
    {
      w[k] := cum;
      cum := cum + increment;
    }
    w[NUM_WORKING_SETS - 1] := sumAll - sumAll / 1024;
    forall j, k | 0 <= j <= k < w.Length
      ensures w[j] <= w[k]
    {
      ThresholdsOrdered(sumAll, j, k);
    }
  }

  lemma WholeHistogram(h: seq<Bucket>)
    ensures NumFrom(h, |h|) == 0 && CumFrom(h, |h|) == 0
    ensures NumFrom(h, 0) == TotalNum(h) && CumFrom(h, 0) == TotalCum(h)
  {
  }

  lemma OneBucketDown(h: seq<Bucket>, i: nat)
    requires i < |h|
    ensures NumFrom(h, i) == NumFrom(h, i + 1) + h[i].num && CumFrom(h, i) == CumFrom(h, i + 1) + h[i].cumValue
  {
  }

  lemma LastReached(h: seq<Bucket>, w: nat, e: WorkingSet)
    requires HistogramOk(h) && IsWorkingSet(h, w, e)
    ensures TotalNum(h) > 0 && w <= TotalCum(h)
  {
    hide IndexOf;
    BucketFacts(h);
    EstimateMonotone(h, |h|, e.numCounters, e.numCounters);
  }
}
