/** What the working sets say about the counters themselves, of which only the histogram is known. */
module WorkingSetMeaning {
  import opened Powers
  import opened HistoIndex
  import opened Histogram
  import opened MergeOrder
  import opened ProgramSummary
  import opened WorkingSets

  /** Counters a bucket may stand for, in any order. */
  ghost predicate Fills(b: Bucket, group: seq<Count>) {
    |group| == b.num && Sum(group) == b.cumValue && forall v :: v in group ==> b.minValue <= v
  }

  ghost predicate Consistent(h: seq<Bucket>, groups: seq<seq<Count>>) {
    |groups| == |h| && forall i :: 0 <= i < |h| ==> Fills(h[i], groups[i])
  }

  /** The counters of the first n buckets, hottest bucket first. */
  function Flat(groups: seq<seq<Count>>, n: nat): seq<Count>
    requires n <= |groups|
  {
    if n == 0 then [] else groups[n - 1] + Flat(groups, n - 1)
  }

  lemma {:induction false} FlatLength(h: seq<Bucket>, groups: seq<seq<Count>>, n: nat)
    requires Consistent(h, groups) && n <= |h|
    ensures |Flat(groups, n)| == NumBelow(h, n) && Sum(Flat(groups, n)) == CumBelow(h, n)
  {
    if n > 0 {
      FlatLength(h, groups, n - 1);
      assert Fills(h[n - 1], groups[n - 1]);
      SumSplit(groups[n - 1], Flat(groups, n - 1));
    }
  }

  /**
   Whatever counters the histogram stands for, the sum of the c hottest, taking the counters of the
   bucket that is cut in any order, is at least the estimate.
   */
  lemma {:induction false} EstimateSound(h: seq<Bucket>, groups: seq<seq<Count>>, n: nat, c: nat)
    requires Consistent(h, groups) && n <= |h| && c <= NumBelow(h, n)
    ensures c <= |Flat(groups, n)|
    ensures Estimate(h, n, c) <= Sum(Flat(groups, n)[..c])
  {
    hide Estimate, Consistent, Sum, EmptyHaveNoSum;
    FlatLength(h, groups, n);
    if n > 0 {
      GroupFills(h, groups, n - 1);
      var b, group, rest := h[n - 1], groups[n - 1], Flat(groups, n - 1);
      FlatLength(h, groups, n - 1);
      FirstOfConcat(group, rest, c);
      if c >= b.num {
        EstimateSound(h, groups, n - 1, c - b.num);
        EstimateBelow(h, n, c);
        SumSplit(group, rest[..c - b.num]);
      } else {
        EstimateWithin(h, n, c);
        SumAtLeast(group[..c], b.minValue);
      }
    } else {
      EstimateOfNothing(h);
    }
  }

  lemma GroupFills(h: seq<Bucket>, groups: seq<seq<Count>>, i: nat)
    requires Consistent(h, groups) && i < |h|
    ensures |groups| == |h|
    ensures |groups[i]| == h[i].num && Sum(groups[i]) == h[i].cumValue
    ensures forall v :: v in groups[i] ==> h[i].minValue <= v
  {
    assert Fills(h[i], groups[i]);
  }

  lemma FirstOfConcat(a: seq<Count>, b: seq<Count>, c: nat)
    requires c <= |a| + |b|
    ensures (a + b)[..c] == if c >= |a| then a + b[..c - |a|] else a[..c]
    ensures c < |a| ==> |a[..c]| == c && forall v :: v in a[..c] ==> v in a
  {
  }

  lemma EstimateWithin(h: seq<Bucket>, n: nat, c: nat)
    requires 0 < n <= |h| && c < h[n - 1].num
    ensures Estimate(h, n, c) == c * h[n - 1].minValue
  {
  }

  lemma EstimateOfNothing(h: seq<Bucket>)
    ensures forall c :: Estimate(h, 0, c) == 0
  {
  }

  /** No counter among the first ones is below the least value of the bucket of the last of them. */
  lemma {:induction false} HotCountersAtLeast(h: seq<Bucket>, groups: seq<seq<Count>>, n: nat, c: nat)
    requires HistogramOk(h) && Consistent(h, groups) && n <= |h| && 0 < c <= NumBelow(h, n)
    ensures c <= |Flat(groups, n)|
    ensures forall v :: v in Flat(groups, n)[..c] ==> h[BucketOfRank(h, n, c - 1)].minValue <= v
  {
    hide IndexOf, HistogramOk, Consistent, Sum, BucketOfRank;
    FlatLength(h, groups, n);
    GroupFills(h, groups, n - 1);
    var b, group, rest := h[n - 1], groups[n - 1], Flat(groups, n - 1);
    FlatLength(h, groups, n - 1);
    FirstOfConcat(group, rest, c);
    if c > b.num {
      HotCountersAtLeast(h, groups, n - 1, c - b.num);
      var i := BucketOfRank(h, n - 1, c - b.num - 1);
      RankBelow(h, n, c - 1);
      if b.num > 0 {
        LeastOfLower(h, i, n - 1);
      }
      InConcat(group, rest[..c - b.num], h[i].minValue);
    } else {
      RankWithin(h, n, c - 1);
      assert c == b.num ==> group + rest[..0] == group;
    }
  }

  lemma RankBelow(h: seq<Bucket>, n: nat, rank: nat)
    requires 0 < n <= |h| && h[n - 1].num <= rank < NumBelow(h, n)
    ensures BucketOfRank(h, n, rank) == BucketOfRank(h, n - 1, rank - h[n - 1].num)
  {
  }

  lemma RankWithin(h: seq<Bucket>, n: nat, rank: nat)
    requires 0 < n <= |h| && rank < h[n - 1].num && rank < NumBelow(h, n)
    ensures BucketOfRank(h, n, rank) == n - 1
  {
  }

  lemma InConcat(a: seq<Count>, b: seq<Count>, least: nat)
    requires (forall v :: v in a ==> least <= v) && (forall v :: v in b ==> least <= v)
    ensures forall v :: v in a + b ==> least <= v
  {
  }

  lemma LeastOfLower(h: seq<Bucket>, i: nat, j: nat)
    requires HistogramOk(h) && i <= j < |h| && h[i].num > 0 && h[j].num > 0
    ensures h[i].minValue <= h[j].minValue
  {
    hide IndexOf;
    assert BucketOk(h[i], i) && BucketOk(h[j], j);
    if h[j].minValue < h[i].minValue {
      IndexMonotone(h[j].minValue, h[i].minValue);
    }
  }

  /**
   A working set is sound for every list of counters the histogram may stand for: as many of the hottest
   counters as it says add up to the threshold, and none of them is below its least counter.
   */
  lemma WorkingSetSound(h: seq<Bucket>, groups: seq<seq<Count>>, w: nat, e: WorkingSet)
    requires HistogramOk(h) && Consistent(h, groups) && IsWorkingSet(h, w, e)
    ensures var hottest := Flat(groups, |h|);
            && e.numCounters <= |hottest|
            && w <= Sum(hottest[..e.numCounters])
            && forall v :: v in hottest[..e.numCounters] ==> e.minCounter <= v
  {
    EstimateSound(h, groups, |h|, e.numCounters);
    HotCountersAtLeast(h, groups, |h|, e.numCounters);
  }

  /**
   What entry k of the working sets of a summary says about the counters: the hottest ones, as many as it
   says, make up (k + 1)/128 of the whole execution count, or 1023/1024 for the last entry, but for the
   truncated remainder of one 128th per step.
   */
  lemma WorkingSetCovers(h: seq<Bucket>, groups: seq<seq<Count>>, sumAll: nat, k: nat, e: WorkingSet)
    requires HistogramOk(h) && Consistent(h, groups) && k < 128
    requires IsWorkingSet(h, Threshold(sumAll, k), e)
    ensures e.numCounters <= |Flat(groups, |h|)|
    ensures var sum := Sum(Flat(groups, |h|)[..e.numCounters]);
            if k < 127 then (k + 1) * sumAll < 128 * sum + 128 * (k + 1) else 1023 * sumAll <= 1024 * sum
  {
    hide HistogramOk, Consistent, IsWorkingSet, Threshold;
    WorkingSetSound(h, groups, Threshold(sumAll, k), e);
    ThresholdIsPart(sumAll, k);
  }

  lemma {:induction false} RankRange(h: seq<Bucket>, n: nat, rank: nat)
    requires n <= |h| && rank < NumBelow(h, n)
    ensures var i := BucketOfRank(h, n, rank);
            NumBelow(h, n) - NumBelow(h, i + 1) <= rank < NumBelow(h, n) - NumBelow(h, i)
  {
    if rank >= h[n - 1].num {
      RankRange(h, n - 1, rank - h[n - 1].num);
    }
  }

  /**
   The least counter of a working set is the least value of the bucket in which the last of its counters
   lies: the buckets above hold fewer counters, and together with that bucket they hold enough.
   */
  lemma MinCounterLies(h: seq<Bucket>, w: nat, e: WorkingSet)
    requires HistogramOk(h) && IsWorkingSet(h, w, e)
    ensures e.minCounter < TWO_64
    ensures var i := IndexOf(e.minCounter);
            && i < |h| && h[i].num > 0 && h[i].minValue == e.minCounter
            && NumFrom(h, i + 1) < e.numCounters <= NumFrom(h, i)
  {
    hide IndexOf, Estimate;
    var i := BucketOfRank(h, |h|, e.numCounters - 1);
    RankRange(h, |h|, e.numCounters - 1);
    assert BucketOk(h[i], i);
  }

  lemma {:induction false} RankMonotone(h: seq<Bucket>, n: nat, r: nat, s: nat)
    requires n <= |h| && r <= s < NumBelow(h, n)
    ensures BucketOfRank(h, n, s) <= BucketOfRank(h, n, r)
  {
    if r >= h[n - 1].num {
      RankMonotone(h, n - 1, r - h[n - 1].num, s - h[n - 1].num);
    }
  }

  /** Larger thresholds need at least as many counters, down to a least counter that is no larger. */
  lemma WorkingSetsOrdered(h: seq<Bucket>, v: nat, d: WorkingSet, w: nat, e: WorkingSet)
    requires HistogramOk(h) && v <= w && IsWorkingSet(h, v, d) && IsWorkingSet(h, w, e)
    ensures d.numCounters <= e.numCounters && e.minCounter <= d.minCounter
  {
    hide IndexOf, HistogramOk;
    BucketFacts(h);
    if e.numCounters < d.numCounters {
      EstimateMonotone(h, |h|, e.numCounters, d.numCounters - 1);
    } else {
      RankMonotone(h, |h|, d.numCounters - 1, e.numCounters - 1);
      LeastOfLower(h, BucketOfRank(h, |h|, e.numCounters - 1), BucketOfRank(h, |h|, d.numCounters - 1));
    }
  }

  /** The histogram of a single run stands for the counters it was computed from. */
  lemma TallyConsistent(vals: seq<Count>, top: nat)
    ensures Consistent(Tally(vals, top), seq(HISTOGRAM_SIZE, i requires 0 <= i < HISTOGRAM_SIZE => Members(vals, i)))
  {
    hide IndexOf, Members;
    forall i | 0 <= i < HISTOGRAM_SIZE
      ensures Fills(Tally(vals, top)[i], Members(vals, i))
    {
      assert Tally(vals, top)[i] == TallyBucket(vals, top, i);
    }
  }

  // ---------- every histogram stands for some counters ----------

  /** As many copies of the least value as there are counters, less one, and a last counter for the rest of the sum. */
  function Copies(v: Count, n: nat): (r: seq<Count>)
    ensures |r| == n && forall u :: u in r ==> u == v
  {
    if n == 0 then [] else Copies(v, n - 1) + [v]
  }

  lemma {:induction false} SumOfCopies(v: Count, n: nat)
    ensures Sum(Copies(v, n)) == n * v
  {
    if n > 0 {
      SumOfCopies(v, n - 1);
      assert Copies(v, n)[..n - 1] == Copies(v, n - 1);
      NextProduct(n - 1, v);
    }
  }

  /** All but the last counter of a bucket have its least value. */
  ghost predicate LeastFirst(b: Bucket, group: seq<Count>) {
    |group| == b.num && forall j :: 0 <= j < |group| - 1 ==> group[j] == b.minValue
  }

  lemma BucketFilled(b: Bucket, i: nat) returns (group: seq<Count>)
    requires BucketOk(b, i) && b.cumValue < TWO_63
    ensures Fills(b, group) && LeastFirst(b, group)
  {
    hide IndexOf;
    if b.num == 0 {
      group := [];
    } else {
      var n, v := b.num - 1, b.minValue;
      NextProduct(n, v);
      MulMonotone(1, b.num, v);
      MulMonotone(0, n, v);
      var rest: Count := b.cumValue - n * v;
      group := Copies(v, n) + [rest];
      CopiesFill(b, v, rest);
    }
  }

  lemma CopiesFill(b: Bucket, v: Count, rest: Count)
    requires b.num > 0 && v == b.minValue <= rest && rest == b.cumValue - (b.num - 1) * v
    ensures var group := Copies(v, b.num - 1) + [rest]; Fills(b, group) && LeastFirst(b, group)
  {
    hide Sum, Copies;
    SumOfCopies(v, b.num - 1);
    AppendToFolds(Copies(v, b.num - 1), rest, 0);
    var copies := Copies(v, b.num - 1);
    forall j | 0 <= j < |copies|
      ensures (copies + [rest])[j] == v
    {
      assert copies[j] in copies;
    }
  }

  /** So there are counters for every well-formed histogram whose sum is in range, for stored and merged ones too. */
  lemma {:induction false} CountersExist(h: seq<Bucket>, n: nat) returns (groups: seq<seq<Count>>)
    requires HistogramOk(h) && TotalCum(h) < TWO_63 && n <= |h|
    ensures |groups| == n && forall i :: 0 <= i < n ==> Fills(h[i], groups[i]) && LeastFirst(h[i], groups[i])
    ensures n == |h| ==> Consistent(h, groups)
  {
    hide IndexOf, BucketOk, Fills, LeastFirst;
    groups := [];
    if n > 0 {
      groups := CountersExist(h, n - 1);
      BucketWithinTotals(h, n - 1, |h|);
      var group := BucketFilled(h[n - 1], n - 1);
      groups := groups + [group];
    }
  }

  // ---------- the estimate cannot be improved ----------

  /** The counters suffice: the first c of them, hottest bucket first, reach w. */
  ghost predicate Suffice(groups: seq<seq<Count>>, n: nat, c: nat, w: nat) {
    n <= |groups| && c <= |Flat(groups, n)| && w <= Sum(Flat(groups, n)[..c])
  }

  lemma {:induction false} SumOfLeast(group: seq<Count>, b: Bucket, c: nat)
    requires LeastFirst(b, group) && c < b.num
    ensures Sum(group[..c]) == c * b.minValue
  {
    if c > 0 {
      SumOfLeast(group, b, c - 1);
      assert group[..c][..c - 1] == group[..c - 1];
      NextProduct(c - 1, b.minValue);
    }
  }

  lemma {:induction false} EstimateAttained(h: seq<Bucket>, groups: seq<seq<Count>>, n: nat, c: nat)
    requires Consistent(h, groups) && n <= |h| && c <= NumBelow(h, n)
    requires forall i :: 0 <= i < |h| ==> LeastFirst(h[i], groups[i])
    ensures c <= |Flat(groups, n)|
    ensures Estimate(h, n, c) == Sum(Flat(groups, n)[..c])
  {
    hide Estimate, Consistent, Sum, LeastFirst;
    FlatLength(h, groups, n);
    if n > 0 {
      GroupFills(h, groups, n - 1);
      var b, group, rest := h[n - 1], groups[n - 1], Flat(groups, n - 1);
      FlatLength(h, groups, n - 1);
      FirstOfConcat(group, rest, c);
      if c >= b.num {
        EstimateAttained(h, groups, n - 1, c - b.num);
        EstimateBelow(h, n, c);
        SumSplit(group, rest[..c - b.num]);
      } else {
        EstimateWithin(h, n, c);
        SumOfLeast(group, b, c);
      }
    } else {
      EstimateOfNothing(h);
      NoSum();
    }
  }

  /**
   The number of counters in a working set is exactly right: as many of the hottest counters reach the
   threshold for every list the histogram may stand for, and fewer do not for some such list.
   */
  lemma WorkingSetExact(h: seq<Bucket>, w: nat, e: WorkingSet, c: nat)
    requires HistogramOk(h) && TotalCum(h) < TWO_63 && IsWorkingSet(h, w, e) && 1 <= c <= TotalNum(h)
    ensures e.numCounters <= c <==> forall groups :: Consistent(h, groups) ==> Suffice(groups, |h|, c, w)
  {
    hide IndexOf, HistogramOk, Estimate, Consistent, BucketOfRank, Sum, Flat, LeastFirst;
    BucketFacts(h);
    if e.numCounters <= c {
      EstimateMonotone(h, |h|, e.numCounters, c);
      forall groups | Consistent(h, groups)
        ensures Suffice(groups, |h|, c, w)
      {
        SizeOfGroups(h, groups);
        EstimateSound(h, groups, |h|, c);
      }
    } else {
      EstimateMonotone(h, |h|, c, e.numCounters - 1);
      var groups := CountersExist(h, |h|);
      EstimateAttained(h, groups, |h|, c);
      assert !Suffice(groups, |h|, c, w);
    }
  }

  lemma SizeOfGroups(h: seq<Bucket>, groups: seq<seq<Count>>)
    requires Consistent(h, groups)
    ensures |groups| == |h|
  {
  }
}
