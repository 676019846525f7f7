/** Where a merge puts each counter: the order of the counters, hottest first, is what is merged. */
module MergeOrder {
  import opened Powers
  import opened HistoIndex
  import opened Histogram
  import opened MatchUp
  import opened HistogramMerge

  /** Bucket of the counter of the given rank, counting from the hottest of the first n buckets. */
  function BucketOfRank(h: seq<Bucket>, n: nat, rank: nat): (i: nat)
    requires n <= |h| && rank < NumBelow(h, n)
    ensures i < n && h[i].num > 0
  {
    if rank < h[n - 1].num then n - 1 else BucketOfRank(h, n - 1, rank - h[n - 1].num)
  }

  ghost predicate BucketsFrom(h: seq<Bucket>, b: nat) {
    forall i :: 0 <= i < |h| && h[i].num > 0 ==> b <= i
  }

  lemma {:induction false} NothingBelow(h: seq<Bucket>, b: nat)
    requires BucketsFrom(h, b) && b <= |h|
    ensures NumBelow(h, b) == 0
  {
    NothingBelowUpTo(h, b, b);
  }

  lemma {:induction false} NothingBelowUpTo(h: seq<Bucket>, b: nat, n: nat)
    requires BucketsFrom(h, b) && n <= b <= |h|
    ensures NumBelow(h, n) == 0
  {
    if n > 0 {
      NothingBelowUpTo(h, b, n - 1);
    }
  }

  /** Counters added to the lowest bucket in use rank after all others. */
  lemma {:induction false} RankAfterAdding(h: seq<Bucket>, b: nat, more: Bucket, n: nat, rank: nat)
    requires b < n <= |h| && BucketsFrom(h, b) && h[b].num <= more.num
    requires rank < NumBelow(h, n) + more.num - h[b].num
    ensures NumBelow(h[b := more], n) == NumBelow(h, n) + more.num - h[b].num
    ensures BucketOfRank(h[b := more], n, rank) == if rank < NumBelow(h, n) then BucketOfRank(h, n, rank) else b
  {
    TotalsAfterUpdate(h, b, more, n);
    if n - 1 == b {
      NothingBelow(h, b);
    } else if rank >= h[n - 1].num {
      RankAfterAdding(h, b, more, n - 1, rank - h[n - 1].num);
    }
  }

  lemma {:induction false} DepositFrom(ps: seq<Bucket>, b: nat)
    requires MinsFit(ps) && forall p :: p in ps ==> b <= IndexOf(p.minValue)
    ensures BucketsFrom(Deposit(ps), b)
  {
    hide IndexOf;
    if ps != [] {
      var init, p := ps[..|ps| - 1], ps[|ps| - 1];
      assert p in ps && forall q :: q in init ==> q in ps;
      DepositFrom(init, b);
    }
  }

  lemma {:induction false} MinAtRankAppend(ps: seq<Bucket>, p: Bucket, rank: nat)
    requires rank < SumNum(ps) + p.num
    ensures MinAtRank(ps + [p], rank) == if rank < SumNum(ps) then MinAtRank(ps, rank) else p.minValue
  {
    if ps == [] {
      assert ps + [p] == [p];
    } else {
      assert (ps + [p])[1..] == ps[1..] + [p];
      if rank >= ps[0].num {
        MinAtRankAppend(ps[1..], p, rank - ps[0].num);
      }
    }
  }

  lemma LastIsColdest(init: seq<Bucket>, p: Bucket)
    requires MinsFit(init + [p]) && Descending(init + [p])
    ensures MinsFit(init) && Descending(init) && p.minValue < TWO_64
    ensures BucketsFrom(Deposit(init), IndexOf(p.minValue))
  {
    hide IndexOf;
    var ps := init + [p];
    assert p in ps && forall q :: q in init ==> q in ps;
    assert forall i :: 0 <= i < |init| ==> init[i] == ps[i];
    forall q | q in init
      ensures IndexOf(p.minValue) <= IndexOf(q.minValue)
    {
      var k :| 0 <= k < |init| && init[k] == q;
      assert ps[|init|].minValue <= ps[k].minValue;
      IndexMonotone(p.minValue, q.minValue);
    }
    DepositFrom(init, IndexOf(p.minValue));
  }

  lemma {:induction false} DepositByRank(ps: seq<Bucket>, rank: nat)
    requires MinsFit(ps) && Holding(ps) && Descending(ps) && rank < SumNum(ps)
    ensures TotalNum(Deposit(ps)) == SumNum(ps)
    ensures MinAtRank(ps, rank) < TWO_64
    ensures BucketOfRank(Deposit(ps), |Deposit(ps)|, rank) == IndexOf(MinAtRank(ps, rank))
  {
    hide IndexOf, Descending;
    DepositOk(ps);
    var init, p := ps[..|ps| - 1], ps[|ps| - 1];
    assert ps == init + [p];
    LastIsColdest(init, p);
    assert p in ps && forall q :: q in init ==> q in ps;
    DepositOk(init);
    SumsOfAppend(init, p);
    MinAtRankAppend(init, p, rank);
    if rank < SumNum(init) {
      DepositByRank(init, rank);
    }
    var h, b := Deposit(init), IndexOf(p.minValue);
    assert BucketOk(h[b], b);
    RankAfterAdding(h, b, Join(h[b], p), |h|, rank);
  }

  lemma {:induction false} SameRanks(ps: seq<Bucket>, qs: seq<Bucket>, rank: nat)
    requires |ps| == |qs| && forall i :: 0 <= i < |ps| ==> ps[i].num == qs[i].num && ps[i].minValue == qs[i].minValue
    ensures MinAtRank(ps, rank) == MinAtRank(qs, rank) && SumNum(ps) == SumNum(qs)
  {
    if ps != [] {
      SameRanks(ps[1..], qs[1..], if rank < ps[0].num then 0 else rank - ps[0].num);
    }
  }

  lemma PiecesByRank(t: seq<Bucket>, s: seq<Bucket>, rank: nat)
    requires Mergeable(t) && Mergeable(s) && rank < TotalNum(t)
    ensures SumNum(MergedPieces(t, s)) == TotalNum(t)
    ensures MinAtRank(MergedPieces(t, s), rank) == MinAtRank(HottestFirst(t), rank) + MinAtRank(HottestFirst(s), rank)
  {
    hide HottestFirst, Mergeable, Match, AddToLast;
    var m := Match(HottestFirst(t), HottestFirst(s));
    MatchConserves(HottestFirst(t), HottestFirst(s));
    MatchByRank(HottestFirst(t), HottestFirst(s), rank);
    SameRanks(MergedPieces(t, s), m.pieces, rank);
  }

  /**
   The counter of each rank in the merged histogram lies in the bucket of the sum of the least values
   that the target and the source give for that rank. So it never falls below its target bucket.
   */
  lemma MergedByRank(t: seq<Bucket>, s: seq<Bucket>, rank: nat)
    requires Mergeable(t) && Mergeable(s) && rank < TotalNum(t)
    ensures TotalNum(Merged(t, s)) == TotalNum(t)
    ensures var least := MinAtRank(HottestFirst(t), rank) + MinAtRank(HottestFirst(s), rank);
            && least < TWO_64
            && BucketOfRank(Merged(t, s), |Merged(t, s)|, rank) == IndexOf(least)
            && IndexOf(MinAtRank(HottestFirst(t), rank)) <= IndexOf(least)
  {
    hide IndexOf, HottestFirst, MergedPieces, Mergeable, Deposit, MinAtRank;
    PiecesByRank(t, s, rank);
    DepositByRank(MergedPieces(t, s), rank);
    IndexMonotone(MinAtRank(HottestFirst(t), rank), MinAtRank(MergedPieces(t, s), rank));
  }

  /** The piece that takes the sums left without a partner is in the lowest non-empty bucket. */
  lemma LeftoverGoesToColdest(t: seq<Bucket>, s: seq<Bucket>)
    requires Mergeable(t) && Mergeable(s) && TotalNum(t) > 0
    ensures var ps := MergedPieces(t, s);
            && ps != [] && ps[|ps| - 1].minValue < TWO_64
            && BucketsFrom(Merged(t, s), IndexOf(ps[|ps| - 1].minValue))
            && Merged(t, s)[IndexOf(ps[|ps| - 1].minValue)].num > 0
  {
    hide IndexOf, Descending;
    MergedConserves(t, s);
    DepositOk(MergedPieces(t, s));
    var ps := MergedPieces(t, s);
    var init, p := ps[..|ps| - 1], ps[|ps| - 1];
    assert ps == init + [p];
    assert p in ps;
    LastIsColdest(init, p);
  }
}
