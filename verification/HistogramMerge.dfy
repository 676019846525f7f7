/** Merging one histogram into another, in place, and what the merge preserves. */
module HistogramMerge {
  import opened Powers
  import opened HistoIndex
  import opened Histogram
  import opened MatchUp

  /** Two groups of counters in one bucket. */
  function Join(b: Bucket, p: Bucket): Bucket {
    if b.num == 0 then p
    else Bucket(b.num + p.num, if p.minValue < b.minValue then p.minValue else b.minValue, b.cumValue + p.cumValue)
  }

  function DepositInto(h: seq<Bucket>, p: Bucket): (r: seq<Bucket>)
    requires |h| == HISTOGRAM_SIZE && p.minValue < TWO_64
    ensures |r| == |h|
  {
    var i := IndexOf(p.minValue);
    h[i := Join(h[i], p)]
  }

  ghost predicate MinsFit(ps: seq<Bucket>) {
    forall p :: p in ps ==> p.minValue < TWO_64
  }

  function NoBuckets(): (h: seq<Bucket>)
    ensures |h| == HISTOGRAM_SIZE && forall i :: 0 <= i < |h| ==> h[i] == EMPTY
  {
    seq(HISTOGRAM_SIZE, i => EMPTY)
  }

  /** The histogram of a list of pieces: each goes to the bucket of its least value. */
  function Deposit(ps: seq<Bucket>): (h: seq<Bucket>)
    requires MinsFit(ps)
    ensures |h| == HISTOGRAM_SIZE
  {
    if ps == [] then NoBuckets()
    else
      assert forall p :: p in ps[..|ps| - 1] ==> p in ps;
      DepositInto(Deposit(ps[..|ps| - 1]), ps[|ps| - 1])
  }

  /** Sums that found no partner go to the last, that is the coldest, piece. */
  function AddToLast(ps: seq<Bucket>, extra: nat): (r: seq<Bucket>)
    ensures |r| == |ps|
    ensures forall i :: 0 <= i < |ps| ==> r[i].minValue == ps[i].minValue && r[i].num == ps[i].num
  {
    if ps == [] then []
    else
      var last := ps[|ps| - 1];
      ps[..|ps| - 1] + [last.(cumValue := last.cumValue + extra)]
  }

  /** The sums and products of the merge stay inside 64-bit arithmetic. */
  ghost predicate Fits(h: seq<Bucket>) {
    forall i :: 0 <= i < |h| && h[i].num > 0 ==> h[i].num * h[i].cumValue < TWO_63
  }

  lemma PieceMinFits(p: Bucket)
    requires PieceOk(p)
    ensures p.minValue <= p.cumValue < TWO_63
  {
    MulMonotone(1, p.num, p.cumValue);
    MulMonotone(1, p.num, p.minValue);
  }

  lemma {:induction false} HottestOk(h: seq<Bucket>, n: nat)
    requires HistogramOk(h) && Fits(h) && n <= |h|
    ensures PiecesOk(Hottest(h, n))
    ensures MinsBelow(Hottest(h, n), n)
  {
    hide IndexOf;
    if n > 0 {
      HottestOk(h, n - 1);
      var b := h[n - 1];
      assert BucketOk(b, n - 1);
      if b.num > 0 {
        PieceMinFits(b);
      }
    }
  }

  lemma {:induction false} HottestDescending(h: seq<Bucket>, n: nat)
    requires HistogramOk(h) && Fits(h) && n <= |h|
    ensures Descending(Hottest(h, n))
  {
    hide IndexOf;
    if n > 0 {
      HottestDescending(h, n - 1);
      HottestOk(h, n - 1);
      var b := h[n - 1];
      if b.num > 0 {
        assert BucketOk(b, n - 1);
        BelowMeansAtMost(Hottest(h, n - 1), n - 1, b.minValue);
        PrependDescending(b, Hottest(h, n - 1));
      }
    }
  }

  /** All least values belong to the first n buckets. */
  ghost predicate MinsBelow(ps: seq<Bucket>, n: nat) {
    forall p :: p in ps ==> p.minValue < TWO_63 && IndexOf(p.minValue) < n
  }

  lemma BelowMeansAtMost(ps: seq<Bucket>, n: nat, v: nat)
    requires MinsBelow(ps, n) && v < TWO_64 && n <= IndexOf(v)
    ensures AtMost(ps, v)
  {
    hide IndexOf;
    forall p | p in ps
      ensures p.minValue <= v
    {
      if v < p.minValue {
        IndexMonotone(v, p.minValue);
      }
    }
  }

  lemma {:induction false} HottestTotals(h: seq<Bucket>, n: nat)
    requires n <= |h|
    requires forall i :: 0 <= i < |h| && h[i].num == 0 ==> h[i].cumValue == 0
    ensures SumNum(Hottest(h, n)) == NumBelow(h, n)
    ensures SumCum(Hottest(h, n)) == CumBelow(h, n)
  {
    if n > 0 {
      HottestTotals(h, n - 1);
      var rest := Hottest(h, n - 1);
      assert ([h[n - 1]] + rest)[1..] == rest && [] + rest == rest;
    }
  }

  // ---------- what depositing pieces yields ----------

  lemma JoinOk(b: Bucket, p: Bucket, i: nat)
    requires BucketOk(b, i)
    requires p.num > 0 && p.num * p.minValue <= p.cumValue && p.minValue < TWO_64 && IndexOf(p.minValue) == i
    ensures BucketOk(Join(b, p), i)
  {
    hide IndexOf;
    if b.num > 0 {
      var least := Join(b, p).minValue;
      MulMonotone(least, b.minValue, b.num);
      MulMonotone(least, p.minValue, p.num);
      assert (b.num + p.num) * least == b.num * least + p.num * least;
    }
  }

  ghost predicate Holding(ps: seq<Bucket>) {
    forall p :: p in ps ==> p.num > 0 && p.num * p.minValue <= p.cumValue
  }

  lemma {:induction false} SumsOfAppend(ps: seq<Bucket>, p: Bucket)
    ensures SumNum(ps + [p]) == SumNum(ps) + p.num
    ensures SumCum(ps + [p]) == SumCum(ps) + p.cumValue
  {
    if ps == [] {
      assert SumNum([p]) == p.num && SumCum([p]) == p.cumValue;
      assert ps + [p] == [p];
    } else {
      SumsOfAppend(ps[1..], p);
      assert (ps + [p])[1..] == ps[1..] + [p];
    }
  }

  lemma {:induction false} DepositOk(ps: seq<Bucket>)
    requires MinsFit(ps) && Holding(ps)
    ensures HistogramOk(Deposit(ps))
    ensures TotalNum(Deposit(ps)) == SumNum(ps) && TotalCum(Deposit(ps)) == SumCum(ps)
    ensures Normalise(Deposit(ps)) == Deposit(ps)
  {
    hide IndexOf;
    if ps == [] {
      ZeroTotals(Deposit(ps), |Deposit(ps)|);
    } else {
      hide Join;
      var init, p := ps[..|ps| - 1], ps[|ps| - 1];
      assert ps == init + [p];
      assert forall q :: q in init ==> q in ps;
      assert p in ps;
      DepositOk(init);
      DepositStep(Deposit(init), p);
      SumsOfAppend(init, p);
    }
  }

  lemma DepositStep(h: seq<Bucket>, p: Bucket)
    requires HistogramOk(h) && Normalise(h) == h
    requires p.minValue < TWO_64 && p.num > 0 && p.num * p.minValue <= p.cumValue
    ensures var r := DepositInto(h, p);
            && HistogramOk(r) && Normalise(r) == r
            && TotalNum(r) == TotalNum(h) + p.num && TotalCum(r) == TotalCum(h) + p.cumValue
  {
    hide IndexOf, BucketOk;
    var i := IndexOf(p.minValue);
    var r := DepositInto(h, p);
    JoinOk(h[i], p, i);
    TotalsAfterUpdate(h, i, r[i], |h|);
    assert BucketOk(h[i], i);
    assert h[i] == NormalBucket(h[i]);
    assert forall j :: 0 <= j < |h| && j != i ==> r[j] == h[j] == NormalBucket(h[j]);
    JoinTotals(h[i], p, i);
  }

  lemma JoinTotals(b: Bucket, p: Bucket, i: nat)
    requires BucketOk(b, i)
    ensures Join(b, p).num == b.num + p.num && Join(b, p).cumValue == b.cumValue + p.cumValue
  {
    hide IndexOf;
  }

  // ---------- the merged histogram ----------

  function Prepend(done: seq<Bucket>, m: Matching): Matching {
    Matching(done + m.pieces, m.leftover)
  }

  lemma MatchedPiecesFit(ts: seq<Bucket>, ss: seq<Bucket>)
    requires PiecesOk(ts) && PiecesOk(ss) && Descending(ts) && Descending(ss)
    ensures MinsFit(Match(ts, ss).pieces) && Holding(Match(ts, ss).pieces)
    ensures Descending(Match(ts, ss).pieces)
  {
    forall p | p in ts || p in ss
      ensures p.minValue <= TWO_63 - 1
    {
      PieceMinFits(p);
    }
    MatchDescending(ts, ss, TWO_63 - 1, TWO_63 - 1);
    MatchedPiecesHold(ts, ss);
  }

  ghost predicate Mergeable(h: seq<Bucket>) {
    HistogramOk(h) && Fits(h)
  }

  function HottestFirst(h: seq<Bucket>): (ps: seq<Bucket>)
    requires Mergeable(h)
    ensures PiecesOk(ps) && Descending(ps)
    ensures SumNum(ps) == TotalNum(h) && SumCum(ps) == TotalCum(h)
  {
    HottestOk(h, |h|);
    HottestDescending(h, |h|);
    assert forall i :: 0 <= i < |h| ==> BucketOk(h[i], i);
    HottestTotals(h, |h|);
    Hottest(h, |h|)
  }

  /** The pieces of the merge of s into t, unpaired sums of s included. */
  function MergedPieces(t: seq<Bucket>, s: seq<Bucket>): (ps: seq<Bucket>)
    requires Mergeable(t) && Mergeable(s)
    ensures MinsFit(ps) && Holding(ps) && Descending(ps)
  {
    var m := Match(HottestFirst(t), HottestFirst(s));
    MatchedPiecesFit(HottestFirst(t), HottestFirst(s));
    AddToLastKeeps(m.pieces, m.leftover);
    AddToLast(m.pieces, m.leftover)
  }

  lemma AddToLastKeeps(ps: seq<Bucket>, extra: nat)
    requires MinsFit(ps) && Holding(ps) && Descending(ps)
    ensures var r := AddToLast(ps, extra); MinsFit(r) && Holding(r) && Descending(r)
  {
    if ps != [] {
      var init, last := ps[..|ps| - 1], ps[|ps| - 1];
      assert last in ps && forall p :: p in init ==> p in ps;
    }
  }

  lemma AddToLastTotals(ps: seq<Bucket>, extra: nat)
    ensures var r := AddToLast(ps, extra);
            SumNum(r) == SumNum(ps) && SumCum(r) == SumCum(ps) + (if ps == [] then 0 else extra)
  {
    if ps != [] {
      var init, last := ps[..|ps| - 1], ps[|ps| - 1];
      assert ps == init + [last];
      SumsOfAppend(init, last);
      SumsOfAppend(init, last.(cumValue := last.cumValue + extra));
    }
  }

  function Merged(t: seq<Bucket>, s: seq<Bucket>): (h: seq<Bucket>)
    requires Mergeable(t) && Mergeable(s)
    ensures |h| == HISTOGRAM_SIZE
  {
    Deposit(MergedPieces(t, s))
  }

  /** The merge runs to its end, rather than into a failing assertion, exactly for these histograms. */
  predicate MergeDefined(t: seq<Bucket>, s: seq<Bucket>)
    requires t != []
  {
    TotalNum(t) > 0 && (TotalNum(s) > 0 || t[0].num > 0)
  }

  /**
   A merge keeps the number of target counters and adds up the sums exactly, although every share is
   truncated, whether the source has fewer, equally many or more counters; and it keeps every bucket
   well formed.
   */
  lemma MergedConserves(t: seq<Bucket>, s: seq<Bucket>)
    requires Mergeable(t) && Mergeable(s) && TotalNum(t) > 0
    ensures HistogramOk(Merged(t, s)) && Normalise(Merged(t, s)) == Merged(t, s)
    ensures TotalNum(Merged(t, s)) == TotalNum(t)
    ensures TotalCum(Merged(t, s)) == TotalCum(t) + TotalCum(s)
  {
    var ts, ss := HottestFirst(t), HottestFirst(s);
    var m := Match(ts, ss);
    MatchConserves(ts, ss);
    MatchedPiecesFit(ts, ss);
    AddToLastTotals(m.pieces, m.leftover);
    DepositOk(MergedPieces(t, s));
  }
}
