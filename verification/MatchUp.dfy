/**
 What merging two histograms means. Both are listed hottest bucket first; counters are paired off in
 that order, and each bucket gives its counters equal (truncated) shares of its sum.
 */
module MatchUp {
  import opened Powers
  import opened Histogram

  function SumNum(ps: seq<Bucket>): nat {
    if ps == [] then 0 else ps[0].num + SumNum(ps[1..])
  }

  function SumCum(ps: seq<Bucket>): nat {
    if ps == [] then 0 else ps[0].cumValue + SumCum(ps[1..])
  }

  /** Pieces are never empty, fit 64-bit arithmetic and hold at least their least value each. */
  ghost predicate PieceOk(p: Bucket) {
    p.num > 0 && p.num * p.minValue <= p.cumValue && p.num * p.cumValue < TWO_63
  }

  ghost predicate PiecesOk(ps: seq<Bucket>) {
    forall p :: p in ps ==> PieceOk(p)
  }

  /** The non-empty ones of the first n buckets, hottest first. */
  function Hottest(h: seq<Bucket>, n: nat): seq<Bucket>
    requires n <= |h|
  {
    if n == 0 then [] else (if h[n - 1].num > 0 then [h[n - 1]] else []) + Hottest(h, n - 1)
  }

  /** The share covers the m counters it stands for, and what is left of the sum covers the others. */
  predicate Covers(b: Bucket, m: nat, s: nat) {
    m * b.minValue <= s && (b.num - m) * b.minValue <= b.cumValue - s
  }

  /** The share is to the sum as the m counters are to all, up to truncation. */
  predicate Proportional(b: Bucket, m: nat, s: nat) {
    b.num * s <= m * b.cumValue < b.num * s + b.num
  }

  /** The part of a bucket's sum that m of its counters stand for, computed in 64-bit arithmetic. */
  function Share(b: Bucket, m: nat): (s: nat)
    requires PieceOk(b) && 0 < m <= b.num
    ensures s <= b.cumValue && (m == b.num ==> s == b.cumValue)
    ensures Proportional(b, m, s) && Covers(b, m, s)
  {
    if m < b.num then
      ShareBounds(b, m);
      var product: Count := m * b.cumValue;
      product / b.num
    else b.cumValue
  }

  lemma ShareBounds(b: Bucket, m: nat)
    requires PieceOk(b) && 0 < m < b.num
    ensures m * b.cumValue <= b.num * b.cumValue
    ensures var s := m * b.cumValue / b.num;
            && m * b.minValue <= s <= b.cumValue
            && (b.num - m) * b.minValue <= b.cumValue - s
            && Proportional(b, m, s)
  {
    var n, c, l := b.num, b.cumValue, b.minValue;
    var s := m * c / n;
    Truncated(m * c, n);
    MulMonotone(m, n, c);
    DivBounds(m * c, n, m * l, c);
    ScaledShare(m, n, l, c);
    RestShare(m, n, l, c, s);
  }

  lemma ScaledShare(m: nat, n: nat, l: nat, c: nat)
    requires n > 0 && n * l <= c
    ensures n * (m * l) <= m * c
    ensures m * l <= m * c / n
  {
    MulMonotone(n * l, c, m);
    Rotate(m, n, l);
    DivAtLeast(m * c, n, m * l);
  }

  lemma Truncated(a: nat, n: nat)
    requires n > 0
    ensures n * (a / n) <= a < n * (a / n) + n
  {
  }

  lemma DivAtLeast(a: nat, n: nat, q: nat)
    requires n > 0 && n * q <= a
    ensures q <= a / n
  {
    if a / n < q {
      MulMonotone(a / n + 1, q, n);
    }
  }

  lemma DivBounds(a: nat, n: nat, lo: nat, hi: nat)
    requires n > 0 && a <= n * hi
    ensures a / n <= hi
    ensures n * (a / n) <= a
  {
    if hi < a / n {
      MulMonotone(hi + 1, a / n, n);
    }
  }

  /** What is left over after truncation still covers the counters that are left. */
  lemma RestShare(m: nat, n: nat, l: nat, c: nat, s: nat)
    requires 0 < m < n && n * l <= c && n * s <= m * c
    ensures (n - m) * l <= c - s
  {
    var k := n - m;
    MulMonotone(n * l, c, k);
    Rotate(k, n, l);
    assert k * c == n * c - m * c;
    assert n * (c - s) == n * c - n * s;
    MulCancel(n, k * l, c - s);
  }

  lemma Rotate(a: nat, b: nat, c: nat)
    ensures a * (b * c) == b * (a * c)
  {
  }

  lemma MulCancel(n: nat, a: int, b: int)
    requires n > 0 && n * a <= n * b
    ensures a <= b
  {
    if b < a {
      MulMonotone(b + 1, a, n);
    }
  }

  // ---------- pairing off the counters ----------

  /** What remains of a list of pieces when m counters of the first one are taken away. */
  function Drop(ps: seq<Bucket>, m: nat): (r: seq<Bucket>)
    requires PiecesOk(ps) && ps != [] && 0 < m <= ps[0].num
    ensures SumNum(r) == SumNum(ps) - m
    ensures SumCum(r) == SumCum(ps) - Share(ps[0], m)
  {
    var p := ps[0];
    if m < p.num then [Bucket(p.num - m, p.minValue, p.cumValue - Share(p, m))] + ps[1..] else ps[1..]
  }

  lemma DropOk(ps: seq<Bucket>, m: nat)
    requires PiecesOk(ps) && ps != [] && 0 < m <= ps[0].num
    ensures PiecesOk(Drop(ps, m))
  {
    var p := ps[0];
    if m < p.num {
      var s := Share(p, m);
      MulMonotone(p.num - m, p.num, p.cumValue - s);
      MulMonotone(p.cumValue - s, p.cumValue, p.num);
    }
  }

  /** The first entries of both lists are matched up counter by counter until one is used up. */
  function GroupSize(ts: seq<Bucket>, ss: seq<Bucket>): (m: nat)
    requires PiecesOk(ts) && PiecesOk(ss) && ts != [] && ss != []
    ensures 0 < m <= ts[0].num && m <= ss[0].num && (m == ts[0].num || m == ss[0].num)
    ensures PieceOk(ts[0]) && PieceOk(ss[0])
    ensures PiecesOk(Drop(ts, m)) && PiecesOk(Drop(ss, m))
  {
    assert ts[0] in ts && ss[0] in ss;
    var m := if ss[0].num < ts[0].num then ss[0].num else ts[0].num;
    DropOk(ts, m);
    DropOk(ss, m);
    m
  }

  /** m target counters joined with m source counters. */
  function Joined(t: Bucket, s: Bucket, m: nat): (p: Bucket)
    requires PieceOk(t) && PieceOk(s) && 0 < m <= t.num && m <= s.num
    ensures p.num * p.minValue <= p.cumValue
  {
    assert m * (t.minValue + s.minValue) == m * t.minValue + m * s.minValue;
    Bucket(m, t.minValue + s.minValue, Share(s, m) + Share(t, m))
  }

  datatype Matching = Matching(pieces: seq<Bucket>, leftover: nat)

  /**
   Pairs target counters with source counters, hottest with hottest. Target counters without a partner
   are kept; the sum of source counters without a partner is left over.
   */
  function Match(ts: seq<Bucket>, ss: seq<Bucket>): Matching
    requires PiecesOk(ts) && PiecesOk(ss)
    decreases SumNum(ts)
  {
    if ts == [] then Matching([], SumCum(ss))
    else if ss == [] then Matching(ts, 0)
    else
      var m := GroupSize(ts, ss);
      var rest := Match(Drop(ts, m), Drop(ss, m));
      Matching([Joined(ts[0], ss[0], m)] + rest.pieces, rest.leftover)
  }

  lemma {:induction false} MatchConserves(ts: seq<Bucket>, ss: seq<Bucket>)
    requires PiecesOk(ts) && PiecesOk(ss)
    ensures SumNum(Match(ts, ss).pieces) == SumNum(ts)
    ensures SumCum(Match(ts, ss).pieces) + Match(ts, ss).leftover == SumCum(ts) + SumCum(ss)
    decreases SumNum(ts)
  {
    if ts != [] && ss != [] {
      var m := GroupSize(ts, ss);
      MatchConserves(Drop(ts, m), Drop(ss, m));
    }
  }

  /** Pieces of a matching are non-empty and hold at least their least value each. */
  lemma {:induction false} MatchedPiecesHold(ts: seq<Bucket>, ss: seq<Bucket>)
    requires PiecesOk(ts) && PiecesOk(ss)
    ensures forall p :: p in Match(ts, ss).pieces ==> p.num > 0 && p.num * p.minValue <= p.cumValue
    decreases SumNum(ts)
  {
    if ts != [] && ss != [] {
      var m := GroupSize(ts, ss);
      MatchedPiecesHold(Drop(ts, m), Drop(ss, m));
    }
  }

  /** Lower bound of the counter of the given rank, counting from the hottest; 0 beyond the last. */
  function MinAtRank(ps: seq<Bucket>, rank: nat): nat {
    if ps == [] then 0
    else if rank < ps[0].num then ps[0].minValue
    else MinAtRank(ps[1..], rank - ps[0].num)
  }

  lemma RankAfterDrop(ps: seq<Bucket>, m: nat, rank: nat)
    requires PiecesOk(ps) && ps != [] && 0 < m <= ps[0].num <= m + SumNum(ps)
    requires m <= rank
    ensures MinAtRank(Drop(ps, m), rank - m) == MinAtRank(ps, rank)
  {
    var d := Drop(ps, m);
    if m < ps[0].num {
      assert d[0].minValue == ps[0].minValue && d[1..] == ps[1..];
    }
  }

  /** Counters of equal rank are joined, so their lower bounds add up. */
  lemma {:induction false} MatchByRank(ts: seq<Bucket>, ss: seq<Bucket>, rank: nat)
    requires PiecesOk(ts) && PiecesOk(ss) && rank < SumNum(ts)
    ensures MinAtRank(Match(ts, ss).pieces, rank) == MinAtRank(ts, rank) + MinAtRank(ss, rank)
    decreases SumNum(ts)
  {
    hide Share, Covers, Proportional, PieceOk, PiecesOk, Drop, SumCum;
    if ts != [] && ss != [] {
      var m := GroupSize(ts, ss);
      if m <= rank {
        MatchByRank(Drop(ts, m), Drop(ss, m), rank - m);
        RankAfterDrop(ts, m, rank);
        RankAfterDrop(ss, m, rank);
        assert Match(ts, ss).pieces[1..] == Match(Drop(ts, m), Drop(ss, m)).pieces;
      }
    }
  }

  /** Hottest first: lower bounds never increase along the list. */
  ghost predicate Descending(ps: seq<Bucket>) {
    forall i, j :: 0 <= i < j < |ps| ==> ps[j].minValue <= ps[i].minValue
  }

  ghost predicate AtMost(ps: seq<Bucket>, bound: nat) {
    forall p :: p in ps ==> p.minValue <= bound
  }

  lemma DropDescending(ps: seq<Bucket>, m: nat, bound: nat)
    requires PiecesOk(ps) && ps != [] && 0 < m <= ps[0].num
    requires Descending(ps) && AtMost(ps, bound)
    ensures Descending(Drop(ps, m)) && AtMost(Drop(ps, m), ps[0].minValue) && ps[0].minValue <= bound
  {
    hide Share, Drop, PieceOk, PiecesOk, SumNum, SumCum;
    DropShifts(ps, m);
    ShiftedDescending(Drop(ps, m), ps);
    assert ps[0] in ps;
  }

  /** One list has the least values of another's last pieces. */
  ghost predicate Shifted(rs: seq<Bucket>, ps: seq<Bucket>) {
    |rs| <= |ps| && forall i :: 0 <= i < |rs| ==> rs[i].minValue == ps[i + (|ps| - |rs|)].minValue
  }

  lemma DropShifts(ps: seq<Bucket>, m: nat)
    requires PiecesOk(ps) && ps != [] && 0 < m <= ps[0].num
    ensures Shifted(Drop(ps, m), ps)
  {
    hide Share, PieceOk, SumNum, SumCum, Covers, Proportional, Shifted;
    var p := ps[0];
    if m < p.num {
      FirstReplaced(ps, Bucket(p.num - m, p.minValue, p.cumValue - Share(p, m)));
    } else {
      FirstRemoved(ps);
    }
  }

  lemma FirstReplaced(ps: seq<Bucket>, p: Bucket)
    requires ps != [] && p.minValue == ps[0].minValue
    ensures Shifted([p] + ps[1..], ps)
  {
  }

  lemma FirstRemoved(ps: seq<Bucket>)
    requires ps != []
    ensures Shifted(ps[1..], ps)
  {
  }

  lemma ShiftedDescending(rs: seq<Bucket>, ps: seq<Bucket>)
    requires Shifted(rs, ps) && Descending(ps) && ps != []
    ensures Descending(rs) && AtMost(rs, ps[0].minValue)
  {
    var k := |ps| - |rs|;
    forall p | p in rs
      ensures p.minValue <= ps[0].minValue
    {
      var i :| 0 <= i < |rs| && rs[i] == p;
      assert k + i == 0 || ps[k + i].minValue <= ps[0].minValue;
    }
    forall i, j | 0 <= i < j < |rs|
      ensures rs[j].minValue <= rs[i].minValue
    {
      assert ps[k + j].minValue <= ps[k + i].minValue;
    }
  }

  lemma PrependDescending(p: Bucket, ps: seq<Bucket>)
    requires Descending(ps) && AtMost(ps, p.minValue)
    ensures Descending([p] + ps)
    ensures forall bound :: p.minValue <= bound ==> AtMost([p] + ps, bound)
  {
  }

  lemma {:induction false} MatchDescending(ts: seq<Bucket>, ss: seq<Bucket>, tBound: nat, sBound: nat)
    requires PiecesOk(ts) && PiecesOk(ss) && Descending(ts) && Descending(ss)
    requires AtMost(ts, tBound) && AtMost(ss, sBound)
    ensures Descending(Match(ts, ss).pieces)
    ensures AtMost(Match(ts, ss).pieces, tBound + sBound)
    decreases SumNum(ts)
  {
    if ts != [] && ss != [] {
      var m := GroupSize(ts, ss);
      DropDescending(ts, m, tBound);
      DropDescending(ss, m, sBound);
      MatchDescending(Drop(ts, m), Drop(ss, m), ts[0].minValue, ss[0].minValue);
      PrependDescending(Joined(ts[0], ss[0], m), Match(Drop(ts, m), Drop(ss, m)).pieces);
    }
  }
}
