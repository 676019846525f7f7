/** How much of the execution count a merge puts into the buckets, from the two histograms alone. */
module MergedSums {
  import opened Powers
  import opened HistoIndex
  import opened Histogram
  import opened MatchUp
  import opened HistogramMerge
  import opened MergeOrder
  import opened MergeInPlace
  import opened WorkingSets

  /** The part of the whole sum that the r hottest counters stand for; the bucket that is cut gives a proportional part. */
  function Part(ps: seq<Bucket>, r: nat): nat {
    if ps == [] then 0
    else if r < ps[0].num then r * ps[0].cumValue / ps[0].num
    else ps[0].cumValue + Part(ps[1..], r - ps[0].num)
  }

  /** The same, but each counter of the bucket that is cut stands for the truncated mean of the bucket. */
  function MeanPart(ps: seq<Bucket>, r: nat): nat {
    if ps == [] then 0
    else if r < ps[0].num then r * (ps[0].cumValue / ps[0].num)
    else ps[0].cumValue + MeanPart(ps[1..], r - ps[0].num)
  }

  // ---------- taking counters away from the first piece ----------

  /** The parts of a cut bucket with n counters of sum c: first m counters of share s, then more of what is left. */
  lemma SharesInTurn(n: nat, c: nat, m: nat, s: nat, r: nat)
    requires 0 < m <= r < n && s <= c && n * s <= m * c
    ensures s + (r - m) * (c - s) / (n - m) <= r * c / n
  {
    var rest := (r - m) * (c - s);
    Truncated(rest, n - m);
    SharesInTurnScaled(n, c, m, s, r, rest / (n - m));
    DivAtLeast(r * c, n, s + rest / (n - m));
  }

  lemma SharesInTurnScaled(n: nat, c: nat, m: nat, s: nat, r: nat, k: nat)
    requires 0 < m <= r < n && s <= c && n * s <= m * c
    requires (n - m) * k <= (r - m) * (c - s)
    ensures n * (s + k) <= r * c
  {
    Spread(n - m, n, s, k);
    MulMonotone((n - m) * k, (r - m) * (c - s), n);
    Regroup(n, c, m, s, r);
    MulMonotone(n * s, m * c, n - r);
    Collect(n, c, m, r);
    MulCancel(n - m, n * (s + k), r * c);
  }

  lemma Spread(d: nat, n: nat, s: nat, k: nat)
    ensures d * (n * (s + k)) == d * (n * s) + n * (d * k)
  {
    assert n * (s + k) == n * s + n * k;
    assert d * (n * s + n * k) == d * (n * s) + d * (n * k);
    Rotate(d, n, k);
  }

  lemma Regroup(n: nat, c: nat, m: nat, s: nat, r: nat)
    requires m <= r < n && s <= c
    ensures (n - m) * (n * s) + n * ((r - m) * (c - s)) == (n - r) * (n * s) + n * ((r - m) * c)
  {
    assert (r - m) * (c - s) == (r - m) * c - (r - m) * s;
    assert n * ((r - m) * s) == (r - m) * (n * s);
    assert (n - m) * (n * s) == (n - r) * (n * s) + (r - m) * (n * s);
  }

  lemma Collect(n: nat, c: nat, m: nat, r: nat)
    requires m <= r < n
    ensures (n - r) * (m * c) + n * ((r - m) * c) == (n - m) * (r * c)
  {
    var a, b, d := n * (m * c), r * (m * c), n * (r * c);
    assert (n - r) * (m * c) == a - b;
    assert (r - m) * c == r * c - m * c;
    assert n * ((r - m) * c) == d - a;
    assert (n - m) * (r * c) == d - m * (r * c);
    Rotate(m, r, c);
  }

  /** No counter left over stands for less than the truncated mean of the whole bucket. */
  lemma MeansInTurn(n: nat, c: nat, m: nat, s: nat, r: nat)
    requires 0 < m <= r < n && s <= c && n * s <= m * c < n * s + n
    ensures r * (c / n) <= s + (r - m) * ((c - s) / (n - m))
  {
    Truncated(c, n);
    MeanKept(n, c, m, s, c / n);
    TakenAndLeft(m, s, r, c / n, (c - s) / (n - m));
  }

  lemma MeanKept(n: nat, c: nat, m: nat, s: nat, q: nat)
    requires 0 < m < n && s <= c && n * s <= m * c < n * s + n && n * q <= c
    ensures m * q <= s && q <= (c - s) / (n - m)
  {
    ScaledShare(m, n, q, c);
    QuotientIs(m * c, n, s);
    RestShare(m, n, q, c, s);
    DivAtLeast(c - s, n - m, q);
  }

  lemma TakenAndLeft(m: nat, s: nat, r: nat, q: nat, rest: nat)
    requires m <= r && m * q <= s && q <= rest
    ensures r * q <= s + (r - m) * rest
  {
    MulMonotone(q, rest, r - m);
    assert r * q == m * q + (r - m) * q;
  }

  lemma QuotientIs(a: nat, n: nat, q: nat)
    requires n > 0 && n * q <= a < n * q + n
    ensures a / n == q
  {
    DivAtLeast(a, n, q);
    Truncated(a, n);
    if q + 1 <= a / n {
      MulMonotone(q + 1, a / n, n);
    }
  }

  /** The counters taken and those left after them stand for no more than the whole part, and no less than the means. */
  lemma PartAfterDrop(ps: seq<Bucket>, m: nat, r: nat)
    requires PiecesOk(ps) && ps != [] && 0 < m <= ps[0].num && m <= r
    ensures PieceOk(ps[0])
    ensures Share(ps[0], m) + Part(Drop(ps, m), r - m) <= Part(ps, r)
    ensures MeanPart(ps, r) <= Share(ps[0], m) + MeanPart(Drop(ps, m), r - m)
  {
    hide Share, PieceOk, PiecesOk, SumNum, SumCum, Covers;
    var p, d := ps[0], Drop(ps, m);
    FirstPieceOk(ps);
    var s := Share(p, m);
    if m < p.num {
      assert d[0] == Bucket(p.num - m, p.minValue, p.cumValue - s) && d[1..] == ps[1..];
      if r < p.num {
        SharesInTurn(p.num, p.cumValue, m, s, r);
        MeansInTurn(p.num, p.cumValue, m, s, r);
      }
    }
  }

  lemma FirstPieceOk(ps: seq<Bucket>)
    requires PiecesOk(ps) && ps != []
    ensures PieceOk(ps[0])
  {
  }

  // ---------- the hottest pieces of a matching ----------

  lemma {:induction false} PartOfWholePieces(ps: seq<Bucket>, k: nat)
    requires PiecesOk(ps) && k <= |ps|
    ensures Part(ps, SumNum(ps[..k])) == SumCum(ps[..k]) == MeanPart(ps, SumNum(ps[..k]))
  {
    if ps != [] {
      FirstPieceOk(ps);
      if k > 0 {
        assert ps[..k][1..] == ps[1..][..k - 1];
        PartOfWholePieces(ps[1..], k - 1);
      }
    }
  }

  lemma NoPart(ps: seq<Bucket>)
    requires PiecesOk(ps)
    ensures Part(ps, 0) == 0 == MeanPart(ps, 0)
  {
    if ps != [] {
      FirstPieceOk(ps);
    }
  }

  /** The sum of the k hottest merged pieces, up to truncation, is what both sides give for as many counters. */
  ghost predicate SumsUp(sum: nat, ts: seq<Bucket>, ss: seq<Bucket>, r: nat) {
    MeanPart(ts, r) + MeanPart(ss, r) <= sum <= Part(ts, r) + Part(ss, r)
  }

  lemma {:induction false} MatchedSums(ts: seq<Bucket>, ss: seq<Bucket>, k: nat)
    requires PiecesOk(ts) && PiecesOk(ss) && k <= |Match(ts, ss).pieces|
    ensures var hot := Match(ts, ss).pieces[..k]; SumsUp(SumCum(hot), ts, ss, SumNum(hot))
    decreases SumNum(ts)
  {
    hide Share, PieceOk, PiecesOk, Drop, Part, MeanPart;
    var pieces := Match(ts, ss).pieces;
    if k == 0 {
      NoPart(ts);
      NoPart(ss);
    } else if ss == [] {
      NothingToPart(SumNum(pieces[..k]));
      PartOfWholePieces(ts, k);
    } else {
      var m := GroupSize(ts, ss);
      var rest := Match(Drop(ts, m), Drop(ss, m)).pieces;
      assert pieces[..k] == [Joined(ts[0], ss[0], m)] + rest[..k - 1];
      assert pieces[..k][1..] == rest[..k - 1];
      MatchedSums(Drop(ts, m), Drop(ss, m), k - 1);
      PartAfterDrop(ts, m, SumNum(pieces[..k]));
      PartAfterDrop(ss, m, SumNum(pieces[..k]));
    }
  }

  lemma NothingToPart(r: nat)
    ensures Part([], r) == 0 == MeanPart([], r)
  {
  }

  // ---------- from pieces to buckets ----------

  /** How many pieces, from the hottest, lie in bucket i or above. */
  function HotPieces(ps: seq<Bucket>, i: nat): (k: nat)
    requires MinsFit(ps)
    ensures k <= |ps|
  {
    if ps == [] then 0
    else
      assert ps[|ps| - 1] in ps && forall p :: p in ps[..|ps| - 1] ==> p in ps;
      if i <= IndexOf(ps[|ps| - 1].minValue) then |ps| else HotPieces(ps[..|ps| - 1], i)
  }

  lemma AllHot(init: seq<Bucket>, p: Bucket, i: nat)
    requires MinsFit(init + [p]) && Descending(init + [p]) && i <= IndexOf(p.minValue)
    ensures MinsFit(init) && HotPieces(init, i) == |init|
  {
    hide IndexOf;
    var ps := init + [p];
    assert forall q :: q in init ==> q in ps;
    if init != [] {
      var q := init[|init| - 1];
      assert q == ps[|init| - 1] && p == ps[|init|];
      assert q in ps && p in ps;
      IndexMonotone(p.minValue, q.minValue);
    }
  }

  lemma SumsFromAfterUpdate(h: seq<Bucket>, k: nat, b: Bucket, i: nat)
    requires k < |h| && i <= |h|
    ensures NumFrom(h[k := b], i) == NumFrom(h, i) + (if i <= k then b.num - h[k].num else 0)
    ensures CumFrom(h[k := b], i) == CumFrom(h, i) + (if i <= k then b.cumValue - h[k].cumValue else 0)
  {
    TotalsAfterUpdate(h, k, b, i);
    TotalsAfterUpdate(h, k, b, |h|);
  }

  /** The buckets from i upwards hold the pieces whose least values belong there, which are the hottest ones. */
  lemma {:induction false} DepositedSums(ps: seq<Bucket>, i: nat)
    requires MinsFit(ps) && Holding(ps) && Descending(ps) && i <= HISTOGRAM_SIZE
    ensures var hot := ps[..HotPieces(ps, i)];
            NumFrom(Deposit(ps), i) == SumNum(hot) && CumFrom(Deposit(ps), i) == SumCum(hot)
  {
    hide IndexOf, Descending, Holding, Deposit, NumFrom, CumFrom, SumNum, SumCum;
    if ps == [] {
      NoSumsFrom(i);
      assert ps[..HotPieces(ps, i)] == [];
    } else {
      var init, p := ps[..|ps| - 1], ps[|ps| - 1];
      assert ps == init + [p];
      InitOk(init, p);
      DepositedNext(init, p, i);
      DepositedSums(init, i);
      if i <= IndexOf(p.minValue) {
        AllHot(init, p, i);
        assert init[..|init|] == init && ps[..|ps|] == ps;
        SumsOfAppend(init, p);
      } else {
        assert ps[..HotPieces(init, i)] == init[..HotPieces(init, i)];
      }
    }
  }

  lemma InitOk(init: seq<Bucket>, p: Bucket)
    requires MinsFit(init + [p]) && Holding(init + [p]) && Descending(init + [p])
    ensures MinsFit(init) && Holding(init) && Descending(init)
    ensures p.minValue < TWO_64 && p.num > 0 && p.num * p.minValue <= p.cumValue
  {
    hide IndexOf;
    LastIsColdest(init, p);
    assert p in init + [p] && forall q :: q in init ==> q in init + [p];
  }

  /** One more piece adds to the buckets from i upwards if it belongs there. */
  lemma DepositedNext(init: seq<Bucket>, p: Bucket, i: nat)
    requires MinsFit(init) && Holding(init) && MinsFit(init + [p]) && p.minValue < TWO_64
    requires i <= HISTOGRAM_SIZE
    ensures var h, h' := Deposit(init), Deposit(init + [p]);
            && NumFrom(h', i) == NumFrom(h, i) + (if i <= IndexOf(p.minValue) then p.num else 0)
            && CumFrom(h', i) == CumFrom(h, i) + (if i <= IndexOf(p.minValue) then p.cumValue else 0)
  {
    hide IndexOf, BucketOk, Join, NumFrom, CumFrom, MinsFit, Holding;
    DepositOk(init);
    var h, b := Deposit(init), IndexOf(p.minValue);
    assert (init + [p])[..|init|] == init;
    assert BucketOk(h[b], b);
    JoinTotals(h[b], p, b);
    SumsFromAfterUpdate(h, b, Join(h[b], p), i);
  }

  lemma NoSumsFrom(i: nat)
    requires i <= HISTOGRAM_SIZE
    ensures NumFrom(Deposit([]), i) == 0 == SumNum([]) && CumFrom(Deposit([]), i) == 0 == SumCum([])
  {
    ZeroTotals(Deposit([]), i);
    ZeroTotals(Deposit([]), HISTOGRAM_SIZE);
  }

  /** Sums without a partner reach the last piece only, so they are not among the hotter ones. */
  lemma MergedPiecesSums(t: seq<Bucket>, s: seq<Bucket>, k: nat)
    requires Mergeable(t) && Mergeable(s) && k < |MergedPieces(t, s)|
    ensures var hot := MergedPieces(t, s)[..k];
            SumsUp(SumCum(hot), HottestFirst(t), HottestFirst(s), SumNum(hot))
  {
    hide HottestFirst, Mergeable, Match, SumsUp;
    var m := Match(HottestFirst(t), HottestFirst(s));
    MatchedSums(HottestFirst(t), HottestFirst(s), k);
    assert MergedPieces(t, s)[..k] == m.pieces[..k];
  }

  // ---------- stated from the histograms ----------

  /** The part of a histogram's sum that its r hottest counters stand for; the bucket that is cut gives a proportional part. */
  function HotPart(h: seq<Bucket>, n: nat, r: nat): nat
    requires n <= |h|
  {
    if n == 0 then 0
    else if r < h[n - 1].num then r * h[n - 1].cumValue / h[n - 1].num
    else h[n - 1].cumValue + HotPart(h, n - 1, r - h[n - 1].num)
  }

  /** The same with the truncated mean for each counter of the bucket that is cut. */
  function HotMeans(h: seq<Bucket>, n: nat, r: nat): nat
    requires n <= |h|
  {
    if n == 0 then 0
    else if r < h[n - 1].num then r * (h[n - 1].cumValue / h[n - 1].num)
    else h[n - 1].cumValue + HotMeans(h, n - 1, r - h[n - 1].num)
  }

  lemma {:induction false} HotPartOfPieces(h: seq<Bucket>, n: nat, r: nat)
    requires n <= |h| && EmptyHaveNoSum(h)
    ensures HotPart(h, n, r) == Part(Hottest(h, n), r) && HotMeans(h, n, r) == MeanPart(Hottest(h, n), r)
  {
    hide Part, MeanPart, Hottest;
    if n == 0 {
      NothingToPart(r);
      NoneHot(h);
    } else {
      PartWithBucket(h, n, r);
      if h[n - 1].num <= r {
        HotPartOfPieces(h, n - 1, r - h[n - 1].num);
      }
    }
  }

  lemma NoneHot(h: seq<Bucket>)
    ensures Hottest(h, 0) == []
  {
  }

  lemma PartWithBucket(h: seq<Bucket>, n: nat, r: nat)
    requires 0 < n <= |h| && EmptyHaveNoSum(h)
    ensures var b, ps, rest := h[n - 1], Hottest(h, n), Hottest(h, n - 1);
            && Part(ps, r) == (if r < b.num then r * b.cumValue / b.num else b.cumValue + Part(rest, r - b.num))
            && MeanPart(ps, r) == (if r < b.num then r * (b.cumValue / b.num) else b.cumValue + MeanPart(rest, r - b.num))
  {
    var b, rest := h[n - 1], Hottest(h, n - 1);
    assert [] + rest == rest && ([b] + rest)[1..] == rest;
  }

  /**
   The execution count that a merge gives to the buckets from i upwards, with the r counters they hold:
   it is what the r hottest counters of the target and the r hottest of the source stand for, where a
   bucket that is cut gives no more than its proportional part, and no less than its truncated mean for
   each counter. For all counters together it is the exact sum of both.
   */
  lemma MergedHotSums(t: seq<Bucket>, s: seq<Bucket>, i: nat)
    requires Mergeable(t) && Mergeable(s) && TotalNum(t) > 0 && i <= HISTOGRAM_SIZE
    ensures var r, cum := NumFrom(Merged(t, s), i), CumFrom(Merged(t, s), i);
            && r <= TotalNum(t)
            && (r < TotalNum(t) ==>
                  HotMeans(t, |t|, r) + HotMeans(s, |s|, r) <= cum <= HotPart(t, |t|, r) + HotPart(s, |s|, r))
            && (r == TotalNum(t) ==> cum == TotalCum(t) + TotalCum(s))
  {
    hide IndexOf, Mergeable, HottestFirst, MergedPieces, HistogramOk, NumFrom, CumFrom, Deposit, Part, MeanPart;
    MergedConserves(t, s);
    var ps := MergedPieces(t, s);
    DepositOk(ps);
    DepositedSums(ps, i);
    var k := HotPieces(ps, i);
    SumOfFirst(ps, k);
    if k < |ps| {
      MergedPiecesSums(t, s, k);
      PartsOf(t, SumNum(ps[..k]));
      PartsOf(s, SumNum(ps[..k]));
    } else {
      assert ps[..k] == ps;
    }
  }

  lemma PartsOf(h: seq<Bucket>, r: nat)
    requires Mergeable(h)
    ensures Part(HottestFirst(h), r) == HotPart(h, |h|, r) && MeanPart(HottestFirst(h), r) == HotMeans(h, |h|, r)
  {
    hide IndexOf, Hottest;
    BucketFacts(h);
    HotPartOfPieces(h, |h|, r);
  }

  lemma SumOfFirst(ps: seq<Bucket>, k: nat)
    requires Holding(ps) && k <= |ps|
    ensures SumNum(ps[..k]) <= SumNum(ps)
    ensures k < |ps| ==> SumNum(ps[..k]) < SumNum(ps)
  {
    SumsOfConcat(ps[..k], ps[k..]);
    assert ps == ps[..k] + ps[k..];
    if k < |ps| {
      assert ps[k] in ps;
    }
  }

  lemma {:induction false} SumsOfConcat(a: seq<Bucket>, b: seq<Bucket>)
    ensures SumNum(a + b) == SumNum(a) + SumNum(b)
  {
    if a == [] {
      assert a + b == b;
    } else {
      assert (a + b)[1..] == a[1..] + b;
      SumsOfConcat(a[1..], b);
    }
  }

  // ---------- the least values ----------

  lemma LeastAfterJoin(b: Bucket, p: Bucket)
    requires b.num > 0 ==> p.minValue <= b.minValue
    ensures Join(b, p).minValue == p.minValue
  {
  }

  /** The least value of a bucket is that of the coldest piece in it. */
  lemma {:induction false} DepositedLeast(ps: seq<Bucket>, i: nat)
    requires MinsFit(ps) && Holding(ps) && Descending(ps) && i < HISTOGRAM_SIZE && Deposit(ps)[i].num > 0
    ensures var k := HotPieces(ps, i); k > 0 && Deposit(ps)[i].minValue == ps[k - 1].minValue
  {
    hide IndexOf, Join, Deposit, MinsFit, Holding, Descending;
    NothingHeld(ps, i);
    var init, p := ps[..|ps| - 1], ps[|ps| - 1];
    assert ps == init + [p];
    InitOk(init, p);
    ColdestPiece(init, p, i);
    if i == IndexOf(p.minValue) {
      if Deposit(init)[i].num > 0 {
        DepositedLeast(init, i);
      }
      LeastAfterJoin(Deposit(init)[i], p);
    } else {
      DepositedLeast(init, i);
    }
  }

  lemma NothingHeld(ps: seq<Bucket>, i: nat)
    requires MinsFit(ps) && i < HISTOGRAM_SIZE && Deposit(ps)[i].num > 0
    ensures ps != []
  {
  }

  /** The last piece goes to the lowest bucket in use, and no least value is smaller than its own. */
  lemma ColdestPiece(init: seq<Bucket>, p: Bucket, i: nat)
    requires MinsFit(init + [p]) && MinsFit(init) && Descending(init + [p]) && p.minValue < TWO_64 && i < HISTOGRAM_SIZE
    ensures var h, b := Deposit(init), IndexOf(p.minValue);
            && Deposit(init + [p])[i] == (if i == b then Join(h[i], p) else h[i])
            && (h[i].num > 0 ==> b <= i)
    ensures forall j :: 0 <= j < |init| ==> p.minValue <= init[j].minValue
  {
    hide IndexOf, Join, Descending, MinsFit, Deposit;
    LastIsColdest(init, p);
    DepositAppend(init, p);
    LastIsLeast(init, p);
  }

  lemma LastIsLeast(init: seq<Bucket>, p: Bucket)
    requires Descending(init + [p])
    ensures forall j :: 0 <= j < |init| ==> p.minValue <= init[j].minValue
  {
    forall j | 0 <= j < |init|
      ensures p.minValue <= init[j].minValue
    {
      assert (init + [p])[|init|].minValue <= (init + [p])[j].minValue;
    }
  }

  lemma {:induction false} RankOfPiece(ps: seq<Bucket>, k: nat)
    requires Holding(ps) && 0 < k <= |ps|
    ensures 0 < SumNum(ps[..k]) <= SumNum(ps)
    ensures MinAtRank(ps, SumNum(ps[..k]) - 1) == ps[k - 1].minValue
  {
    hide Holding;
    FirstHolds(ps);
    assert ps[..k][0] == ps[0];
    if k == 1 {
      assert ps[..1][1..] == [];
    } else {
      assert ps[..k][1..] == ps[1..][..k - 1];
      RankOfPiece(ps[1..], k - 1);
    }
  }

  lemma FirstHolds(ps: seq<Bucket>)
    requires Holding(ps) && ps != []
    ensures ps[0].num > 0 && Holding(ps[1..])
  {
  }

  /**
   The least value of a merged bucket is the sum of the least values that the target and the source give
   for the rank of the coldest counter in it.
   */
  lemma MergedLeast(t: seq<Bucket>, s: seq<Bucket>, i: nat)
    requires Mergeable(t) && Mergeable(s) && i < HISTOGRAM_SIZE && Merged(t, s)[i].num > 0
    ensures 0 < NumFrom(Merged(t, s), i) <= TotalNum(t)
    ensures var rank := NumFrom(Merged(t, s), i) - 1;
            Merged(t, s)[i].minValue == MinAtRank(HottestFirst(t), rank) + MinAtRank(HottestFirst(s), rank)
  {
    hide IndexOf, Mergeable, HottestFirst, MergedPieces, NumFrom, CumFrom, Deposit, MinAtRank;
    var ps := MergedPieces(t, s);
    DepositedSums(ps, i);
    DepositedLeast(ps, i);
    RankOfPiece(ps, HotPieces(ps, i));
    SameTotal(t, s);
    PiecesByRank(t, s, NumFrom(Merged(t, s), i) - 1);
  }

  lemma SameTotal(t: seq<Bucket>, s: seq<Bucket>)
    requires Mergeable(t) && Mergeable(s)
    ensures SumNum(MergedPieces(t, s)) == TotalNum(t)
  {
    hide Mergeable, HottestFirst, Match, AddToLast;
    var m := Match(HottestFirst(t), HottestFirst(s));
    MatchConserves(HottestFirst(t), HottestFirst(s));
    SameRanks(MergedPieces(t, s), m.pieces, 0);
  }
}
