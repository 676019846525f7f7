/** The two-pointer walk that merges one histogram array into another. */
module MergeInPlace {
  import opened Powers
  import opened HistoIndex
  import opened Histogram
  import opened MatchUp
  import opened HistogramMerge

  /** Target counters still to be merged: num of bucket i and all lower buckets. */
  function TargetRest(t: seq<Bucket>, i: nat, num: nat, cum: nat): seq<Bucket>
    requires i < |t|
  {
    (if num > 0 then [Bucket(num, t[i].minValue, cum)] else []) + Hottest(t, i)
  }

  /** Source counters still to be merged; bucket i is untouched when num is 0. */
  function SourceRest(s: seq<Bucket>, i: int, num: nat, cum: nat): seq<Bucket>
    requires -1 <= i < |s| && (num > 0 ==> 0 <= i)
  {
    if num > 0 then [Bucket(num, s[i].minValue, cum)] + Hottest(s, i) else Hottest(s, i + 1)
  }

  /** The pieces merged so far, and the lists that remain, make up the whole matching. */
  ghost predicate Progress(all: Matching, done: seq<Bucket>, ts: seq<Bucket>, ss: seq<Bucket>) {
    PiecesOk(ts) && PiecesOk(ss) && all == Prepend(done, Match(ts, ss))
  }

  /** The scratch histogram holds the merged pieces, and cold is the bucket of the last of them. */
  ghost predicate Scratch(tmp: seq<Bucket>, done: seq<Bucket>, cold: int) {
    && MinsFit(done)
    && tmp == Deposit(done)
    && 0 <= cold < |tmp|
    && (if done == [] then cold == 0
        else cold == IndexOf(done[|done| - 1].minValue) && tmp[cold].num > 0)
  }

  lemma ProgressStep(all: Matching, done: seq<Bucket>, ts: seq<Bucket>, ss: seq<Bucket>)
    requires Progress(all, done, ts, ss) && ts != [] && ss != []
    ensures var m := GroupSize(ts, ss);
            Progress(all, done + [Joined(ts[0], ss[0], m)], Drop(ts, m), Drop(ss, m))
  {
    var m := GroupSize(ts, ss);
    var rest := Match(Drop(ts, m), Drop(ss, m));
    var p := Joined(ts[0], ss[0], m);
    assert done + ([p] + rest.pieces) == (done + [p]) + rest.pieces;
  }

  lemma DepositAppend(done: seq<Bucket>, p: Bucket)
    requires MinsFit(done) && p.minValue < TWO_64
    ensures MinsFit(done + [p])
    ensures Deposit(done + [p]) == DepositInto(Deposit(done), p)
  {
    assert (done + [p])[..|done|] == done;
  }

  /** A bucket after a group of counters is added; a least value of 0 counts as not yet set. */
  function Accumulated(b: Bucket, p: Bucket): Bucket {
    Bucket(b.num + p.num,
           if b.minValue == 0 || p.minValue < b.minValue then p.minValue else b.minValue,
           b.cumValue + p.cumValue)
  }

  method Accumulate(tmp: array<Bucket>, i: nat, num: nat, minValue: nat, cum: nat)
    requires i < tmp.Length
    modifies tmp
    ensures tmp[..] == old(tmp[..])[i := Accumulated(old(tmp[i]), Bucket(num, minValue, cum))]
  {
    tmp[i] := tmp[i].(num := tmp[i].num + num);
    tmp[i] := tmp[i].(cumValue := tmp[i].cumValue + cum);
    if tmp[i].minValue == 0 || minValue < tmp[i].minValue {
      tmp[i] := tmp[i].(minValue := minValue);
    }
  }

  /** Taking 0 for "not yet set" is right, since only the lowest bucket can have 0 as its least value. */
  lemma AccumulatedIsJoin(b: Bucket, p: Bucket, i: nat)
    requires p.minValue < TWO_64 && i == IndexOf(p.minValue)
    requires BucketOk(b, i) && NormalBucket(b) == b
    ensures Accumulated(b, p) == Join(b, p)
  {
    hide IndexOf;
    if b.num > 0 && b.minValue == 0 {
      IndexOfZero(p.minValue);
    }
  }

  /** The lowest bucket holds the counters that are zero, and no others. */
  lemma IndexOfZero(v: nat)
    requires v < TWO_64
    ensures IndexOf(v) == IndexOf(0) ==> v == 0
  {
    SmallValues(0);
    IndexIffInterval(v, 0);
  }

  /** Finds the next non-empty source bucket at or below i. */
  method SkipEmpty(src: array<Bucket>, i: int) returns (j: int)
    requires -1 <= i < src.Length
    ensures -1 <= j <= i
    ensures j >= 0 ==> src[j].num > 0
    ensures Hottest(src[..], j + 1) == Hottest(src[..], i + 1)
  {
    j := i;
    while j >= 0 && src[j].num == 0
      invariant -1 <= j <= i
      invariant Hottest(src[..], j + 1) == Hottest(src[..], i + 1)
    {
      assert [] + Hottest(src[..], j) == Hottest(src[..], j);
      j := j - 1;
    }
  }

  ghost predicate EmptyBelow(tmp: seq<Bucket>, n: int) {
    n <= |tmp| && forall i :: 0 <= i < n ==> tmp[i] == EMPTY
  }

  ghost predicate Normal(h: seq<Bucket>) {
    HistogramOk(h) && Normalise(h) == h
  }

  /** Target counters without a partner keep their buckets. */
  method CopyRest(tmp: array<Bucket>, tgt: array<Bucket>, i: nat, num: nat, cum: nat, ghost done: seq<Bucket>)
    requires tmp != tgt && i < tgt.Length == tmp.Length == HISTOGRAM_SIZE
    requires Mergeable(tgt[..]) && tgt[i].num > 0
    requires num > 0 && Normal(tmp[..]) && EmptyBelow(tmp[..], i)
    requires MinsFit(done) && tmp[..] == Deposit(done)
    modifies tmp
    ensures MinsFit(done + TargetRest(tgt[..], i, num, cum))
    ensures Normalise(tmp[..]) == Deposit(done + TargetRest(tgt[..], i, num, cum))
    ensures forall k :: 0 <= k < tmp.Length && old(tmp[k].num) > 0 ==> tmp[k].num > 0
    ensures i > 0 ==> tmp[0].num == tgt[0].num
  {
    hide IndexOf, Deposit, DepositInto, Normalise, MinsFit, Fits;
    ghost var first := Bucket(num, tgt[i].minValue, cum);
    FirstCopied(tmp[..], tgt[..], i, first, done);
    Accumulate(tmp, i, num, tgt[i].minValue, cum);
    CopyLower(tmp, tgt, i, done + [first]);
    assert done + [first] + Hottest(tgt[..], i) == done + ([first] + Hottest(tgt[..], i));
  }

  lemma FirstCopied(h: seq<Bucket>, t: seq<Bucket>, i: nat, p: Bucket, done: seq<Bucket>)
    requires i < |t| && HistogramOk(t) && t[i].num > 0
    requires Normal(h) && MinsFit(done) && h == Deposit(done)
    requires p.num > 0 && p.minValue == t[i].minValue
    ensures MinsFit(done + [p])
    ensures Normalise(h[i := Accumulated(h[i], p)]) == Deposit(done + [p])
  {
    hide IndexOf;
    assert BucketOk(t[i], i) && BucketOk(h[i], i) && NormalBucket(h[i]) == h[i];
    AccumulatedIsJoin(h[i], p, i);
    DepositAppend(done, p);
    AccumulatedNormal(h[i := Join(h[i], p)], h, i, p);
  }

  lemma AccumulatedNormal(h': seq<Bucket>, h: seq<Bucket>, i: nat, p: Bucket)
    requires |h| == HISTOGRAM_SIZE && Normalise(h) == h
    requires p.num > 0 && p.minValue < TWO_64 && i == IndexOf(p.minValue)
    requires h' == h[i := Join(h[i], p)]
    ensures Normalise(h') == h' == DepositInto(h, p)
  {
    hide IndexOf;
    assert forall j :: 0 <= j < |h| ==> NormalBucket(h[j]) == h[j];
  }

  method CopyLower(tmp: array<Bucket>, tgt: array<Bucket>, i: nat, ghost done: seq<Bucket>)
    requires tmp != tgt && i < tgt.Length == tmp.Length == HISTOGRAM_SIZE
    requires Mergeable(tgt[..])
    requires EmptyBelow(tmp[..], i)
    requires MinsFit(done) && Normalise(tmp[..]) == Deposit(done)
    modifies tmp
    ensures MinsFit(done + Hottest(tgt[..], i))
    ensures Normalise(tmp[..]) == Deposit(done + Hottest(tgt[..], i))
    ensures forall k :: 0 <= k < tmp.Length && old(tmp[k].num) > 0 ==> tmp[k].num > 0
    ensures i > 0 ==> tmp[0].num == tgt[0].num
  {
    hide Normalise, Deposit, Mergeable, Accumulated, MinsFit, Counted;
    var j := i;
    ghost var copied := done;
    assert copied + Hottest(tgt[..], j) == done + Hottest(tgt[..], i);
    while j > 0
      invariant 0 <= j <= i
      invariant EmptyBelow(tmp[..], j)
      invariant MinsFit(copied) && Normalise(tmp[..]) == Deposit(copied)
      invariant copied + Hottest(tgt[..], j) == done + Hottest(tgt[..], i)
      invariant forall k :: 0 <= k < tmp.Length && old(tmp[k].num) > 0 ==> tmp[k].num > 0
      invariant j == 0 && i > 0 ==> tmp[0].num == tgt[0].num
    {
      j := j - 1;
      ghost var before := tmp[..];
      Accumulate(tmp, j, tgt[j].num, tgt[j].minValue, tgt[j].cumValue);
      CopyLowerStep(before, tgt[..], j, copied);
      copied := copied + Counted(tgt[j]);
    }
    assert copied + [] == copied;
  }

  function Counted(b: Bucket): seq<Bucket> {
    if b.num > 0 then [b] else []
  }

  lemma CopyLowerStep(h: seq<Bucket>, t: seq<Bucket>, j: nat, copied: seq<Bucket>)
    requires Mergeable(t) && j < |h| == |t| && h[j] == EMPTY
    requires MinsFit(copied) && Normalise(h) == Deposit(copied)
    ensures Accumulated(h[j], t[j]) == t[j]
    ensures var copied' := copied + Counted(t[j]);
            && MinsFit(copied') && Normalise(h[j := t[j]]) == Deposit(copied')
            && copied' + Hottest(t, j) == copied + Hottest(t, j + 1)
  {
    hide IndexOf, Normalise, Deposit, DepositInto, Fits;
    assert BucketOk(t[j], j);
    CopyStep(h, j, t[j]);
    if t[j].num > 0 {
      DepositAppend(copied, t[j]);
      assert copied + ([t[j]] + Hottest(t, j)) == copied + [t[j]] + Hottest(t, j);
    } else {
      assert copied + [] == copied && [] + Hottest(t, j) == Hottest(t, j);
    }
  }

  lemma CopyStep(h: seq<Bucket>, j: nat, b: Bucket)
    requires j < |h| == HISTOGRAM_SIZE && h[j] == EMPTY && BucketOk(b, j)
    ensures Normalise(h[j := b]) == if b.num > 0 then DepositInto(Normalise(h), b) else Normalise(h)
  {
    hide IndexOf;
  }

  /** Merges as many counters as the current target and source buckets both have left. */
  method MergeGroup(tmp: array<Bucket>, t: Bucket, s: Bucket) returns (num: nat, tgtShare: nat, srcShare: nat, cold: int)
    requires tmp.Length == HISTOGRAM_SIZE && Normal(tmp[..])
    requires PieceOk(t) && PieceOk(s)
    modifies tmp
    ensures num == if s.num < t.num then s.num else t.num
    ensures tgtShare == Share(t, num) && srcShare == Share(s, num)
    ensures t.minValue + s.minValue < TWO_64 && cold == IndexOf(t.minValue + s.minValue)
    ensures tmp[..] == DepositInto(old(tmp[..]), Joined(t, s, num))
    ensures Normal(tmp[..]) && tmp[cold].num > 0
  {
    hide IndexOf;
    num := t.num;
    if s.num < num {
      num := s.num;
    }
    PieceMinFits(t);
    PieceMinFits(s);
    var mergeMin := t.minValue + s.minValue;
    srcShare := Share(s, num);
    tgtShare := Share(t, num);
    cold := IndexOf(mergeMin);
    assert BucketOk(tmp[cold], cold) && NormalBucket(tmp[cold]) == tmp[cold];
    DepositStep(tmp[..], Joined(t, s, num));
    AccumulatedIsJoin(tmp[cold], Joined(t, s, num), cold);
    Accumulate(tmp, cold, num, mergeMin, srcShare + tgtShare);
  }

  /** State of the walk between two groups; ts lists the target counters not yet merged. */
  ghost predicate Walk(all: Matching, done: seq<Bucket>, ts: seq<Bucket>, tmp: seq<Bucket>, cold: int,
                       s: seq<Bucket>, srcI: int, srcNum: nat, srcCum: nat)
  {
    && -1 <= srcI < |s|
    && (if srcNum > 0 then 0 <= srcI else srcCum == 0)
    && Progress(all, done, ts, SourceRest(s, srcI, srcNum, srcCum))
    && (if done == [] then SourceRest(s, srcI, srcNum, srcCum) == Hottest(s, |s|) else Hottest(s, |s|) != [])
    && |tmp| == HISTOGRAM_SIZE && Normal(tmp) && Scratch(tmp, done, cold)
  }

  /** Skipping empty source buckets, and loading the next one, leaves the walk where it is. */
  lemma WalkLoad(all: Matching, done: seq<Bucket>, ts: seq<Bucket>, tmp: seq<Bucket>, cold: int,
                 s: seq<Bucket>, i: int, j: int)
    requires Walk(all, done, ts, tmp, cold, s, i, 0, 0)
    requires -1 <= j <= i && Hottest(s, j + 1) == Hottest(s, i + 1) && (j >= 0 ==> s[j].num > 0)
    ensures j >= 0 ==> Walk(all, done, ts, tmp, cold, s, j, s[j].num, s[j].cumValue)
    ensures j == -1 ==> Progress(all, done, ts, []) && (done == [] <==> Hottest(s, |s|) == [])
  {
    hide Progress, Normal, Scratch;
    if j >= 0 {
      assert Bucket(s[j].num, s[j].minValue, s[j].cumValue) == s[j];
    }
  }

  lemma RestAfterGroup(t: seq<Bucket>, i: nat, tNum: nat, tCum: nat, s: seq<Bucket>, j: nat, sNum: nat, sCum: nat)
    requires i < |t| && j < |s| && tNum > 0 && sNum > 0
    requires PiecesOk(TargetRest(t, i, tNum, tCum)) && PiecesOk(SourceRest(s, j, sNum, sCum))
    ensures var ts, ss := TargetRest(t, i, tNum, tCum), SourceRest(s, j, sNum, sCum);
            var m := GroupSize(ts, ss);
            && m == (if sNum < tNum then sNum else tNum)
            && ts[0] == Bucket(tNum, t[i].minValue, tCum) && ss[0] == Bucket(sNum, s[j].minValue, sCum)
            && Drop(ts, m) == TargetRest(t, i, tNum - m, tCum - Share(ts[0], m))
            && Drop(ss, m) == SourceRest(s, if sNum == m then j - 1 else j, sNum - m, sCum - Share(ss[0], m))
  {
    hide Drop, Share, TargetRest, SourceRest, PiecesOk, PieceOk, SumNum, SumCum;
    var m := if sNum < tNum then sNum else tNum;
    TargetAfterGroup(t, i, tNum, tCum, m);
    SourceAfterGroup(s, j, sNum, sCum, m);
  }

  lemma TargetAfterGroup(t: seq<Bucket>, i: nat, num: nat, cum: nat, m: nat)
    requires i < |t| && 0 < m <= num && PiecesOk(TargetRest(t, i, num, cum))
    ensures var p, ts := Bucket(num, t[i].minValue, cum), TargetRest(t, i, num, cum);
            && PieceOk(p) && ts != [] && ts[0] == p
            && Drop(ts, m) == TargetRest(t, i, num - m, cum - Share(p, m))
  {
    hide Drop, Share, TargetRest, Hottest, PiecesOk, PieceOk, SumNum, SumCum;
    var p := Bucket(num, t[i].minValue, cum);
    RestParts(t, i, num, cum);
    DropFirst(p, Hottest(t, i), m);
    if m < num {
      RestParts(t, i, num - m, cum - Share(p, m));
    } else {
      NothingLeft(t, i, cum - Share(p, m));
    }
  }

  lemma RestParts(h: seq<Bucket>, i: nat, num: nat, cum: nat)
    requires i < |h| && num > 0
    ensures TargetRest(h, i, num, cum) == SourceRest(h, i, num, cum) == [Bucket(num, h[i].minValue, cum)] + Hottest(h, i)
  {
    hide Hottest;
  }

  lemma NothingLeft(h: seq<Bucket>, i: nat, cum: nat)
    requires i < |h|
    ensures TargetRest(h, i, 0, cum) == SourceRest(h, i - 1, 0, cum) == [] + Hottest(h, i)
  {
    hide Hottest;
    assert [] + Hottest(h, i) == Hottest(h, i);
  }

  lemma SourceAfterGroup(s: seq<Bucket>, j: nat, num: nat, cum: nat, m: nat)
    requires j < |s| && 0 < m <= num && PiecesOk(SourceRest(s, j, num, cum))
    ensures var p, ss := Bucket(num, s[j].minValue, cum), SourceRest(s, j, num, cum);
            && PieceOk(p) && ss != [] && ss[0] == p
            && Drop(ss, m) == SourceRest(s, if num == m then j - 1 else j, num - m, cum - Share(p, m))
  {
    hide Drop, Share, SourceRest, Hottest, PiecesOk, PieceOk, SumNum, SumCum;
    var p := Bucket(num, s[j].minValue, cum);
    RestParts(s, j, num, cum);
    DropFirst(p, Hottest(s, j), m);
    if m < num {
      RestParts(s, j, num - m, cum - Share(p, m));
    } else {
      NothingLeft(s, j, cum - Share(p, m));
    }
  }

  /** Taking counters from the first piece shrinks it or uses it up. */
  lemma DropFirst(p: Bucket, rest: seq<Bucket>, m: nat)
    requires PiecesOk([p] + rest) && 0 < m <= p.num
    ensures PieceOk(p) && ([p] + rest)[0] == p
    ensures Drop([p] + rest, m) ==
            (if m < p.num then [Bucket(p.num - m, p.minValue, p.cumValue - Share(p, m))] else []) + rest
  {
    hide Share, PiecesOk, PieceOk, SumNum, SumCum;
    FirstOk(p, rest);
    assert ([p] + rest)[1..] == rest;
    if m == p.num {
      assert [] + rest == rest;
    }
  }

  lemma FirstOk(p: Bucket, rest: seq<Bucket>)
    requires PiecesOk([p] + rest)
    ensures PieceOk(p)
  {
    hide PieceOk;
    assert p in [p] + rest;
  }

  lemma WalkGroup(all: Matching, done: seq<Bucket>, tmp: seq<Bucket>, cold: int, tmp': seq<Bucket>,
                  t: seq<Bucket>, i: nat, tNum: nat, tCum: nat, s: seq<Bucket>, j: int, sNum: nat, sCum: nat)
    requires i < |t| && tNum > 0 && sNum > 0
    requires Walk(all, done, TargetRest(t, i, tNum, tCum), tmp, cold, s, j, sNum, sCum)
    ensures PieceOk(Bucket(tNum, t[i].minValue, tCum)) && PieceOk(Bucket(sNum, s[j].minValue, sCum))
    ensures var tb, sb := Bucket(tNum, t[i].minValue, tCum), Bucket(sNum, s[j].minValue, sCum);
            var m := if sNum < tNum then sNum else tNum;
            var p := Joined(tb, sb, m);
            p.minValue < TWO_64 && Normal(tmp') && tmp' == DepositInto(tmp, p) && tmp'[IndexOf(p.minValue)].num > 0 ==>
            Walk(all, done + [p], TargetRest(t, i, tNum - m, tCum - Share(tb, m)), tmp', IndexOf(p.minValue),
                 s, if sNum == m then j - 1 else j, sNum - m, sCum - Share(sb, m))
  {
    hide IndexOf, Normal, DepositInto, Deposit, Progress, Joined, Share, Drop, GroupSize, TargetRest, SourceRest, PieceOk;
    GroupProgress(all, done, t, i, tNum, tCum, s, j, sNum, sCum);
    var tb, sb := Bucket(tNum, t[i].minValue, tCum), Bucket(sNum, s[j].minValue, sCum);
    var p := Joined(tb, sb, if sNum < tNum then sNum else tNum);
    if p.minValue < TWO_64 {
      DepositAppend(done, p);
      assert (done + [p])[|done|] == p;
    }
    SourceRestAny(s, j, sNum, sCum);
  }

  lemma SourceRestAny(s: seq<Bucket>, j: nat, num: nat, cum: nat)
    requires j < |s| && num > 0
    ensures SourceRest(s, j, num, cum) != []
  {
  }

  lemma GroupProgress(all: Matching, done: seq<Bucket>,
                      t: seq<Bucket>, i: nat, tNum: nat, tCum: nat, s: seq<Bucket>, j: nat, sNum: nat, sCum: nat)
    requires i < |t| && j < |s| && tNum > 0 && sNum > 0
    requires Progress(all, done, TargetRest(t, i, tNum, tCum), SourceRest(s, j, sNum, sCum))
    ensures PieceOk(Bucket(tNum, t[i].minValue, tCum)) && PieceOk(Bucket(sNum, s[j].minValue, sCum))
    ensures var tb, sb := Bucket(tNum, t[i].minValue, tCum), Bucket(sNum, s[j].minValue, sCum);
            var m := if sNum < tNum then sNum else tNum;
            Progress(all, done + [Joined(tb, sb, m)], TargetRest(t, i, tNum - m, tCum - Share(tb, m)),
                     SourceRest(s, if sNum == m then j - 1 else j, sNum - m, sCum - Share(sb, m)))
  {
    hide TargetRest, SourceRest, Drop, Share, Joined, Match, Prepend, GroupSize, PieceOk;
    var ts, ss := TargetRest(t, i, tNum, tCum), SourceRest(s, j, sNum, sCum);
    RestAfterGroup(t, i, tNum, tCum, s, j, sNum, sCum);
    ProgressStep(all, done, ts, ss);
  }

  /** A group never lands below the target bucket it comes from. */
  lemma GroupLandsAtOrAbove(t: seq<Bucket>, i: nat, least: nat)
    requires HistogramOk(t) && i < |t| && t[i].num > 0 && t[i].minValue <= least < TWO_64
    ensures i <= IndexOf(least)
  {
    hide IndexOf;
    assert BucketOk(t[i], i);
    IndexMonotone(t[i].minValue, least);
  }

  /** The walk has run out of source counters and copied what was left of the target. */
  ghost predicate Exhausted(all: Matching, done: seq<Bucket>, tmp: seq<Bucket>, cold: int,
                            t: seq<Bucket>, s: seq<Bucket>)
  {
    && MinsFit(all.pieces) && all.leftover == 0
    && |tmp| == |t| == HISTOGRAM_SIZE && Normalise(tmp) == Deposit(all.pieces)
    && 0 <= cold < |tmp|
    && (if done == [] then cold == 0 && Hottest(s, |s|) == [] && (tmp[0].num > 0 <==> t[0].num > 0)
        else Hottest(s, |s|) != [] && tmp[cold].num > 0)
  }

  /** Merges one group of counters and takes it off what remains. */
  method MergeNext(tmp: array<Bucket>, tgt: array<Bucket>, src: array<Bucket>, tgtI: nat, tgtNum0: nat, tgtCum0: nat,
                   srcI0: int, srcNum0: nat, srcCum0: nat, ghost cold0: int, ghost all: Matching, ghost done0: seq<Bucket>)
    returns (tgtNum: nat, tgtCum: nat, srcI: int, srcNum: nat, srcCum: nat, cold: int, ghost done: seq<Bucket>)
    requires tmp != tgt && tmp != src
    requires tgtI < tgt.Length == src.Length == tmp.Length == HISTOGRAM_SIZE
    requires HistogramOk(tgt[..]) && tgt[tgtI].num > 0
    requires tgtNum0 > 0 && srcNum0 > 0
    requires Walk(all, done0, TargetRest(tgt[..], tgtI, tgtNum0, tgtCum0), tmp[..], cold0, src[..], srcI0, srcNum0, srcCum0)
    requires EmptyBelow(tmp[..], tgtI)
    modifies tmp
    ensures tgtNum < tgtNum0
    ensures Walk(all, done, TargetRest(tgt[..], tgtI, tgtNum, tgtCum), tmp[..], cold, src[..], srcI, srcNum, srcCum)
    ensures EmptyBelow(tmp[..], tgtI)
  {
    hide IndexOf, Progress, Normal, Deposit, Scratch, Share, TargetRest, SourceRest, PieceOk, HistogramOk;
    tgtNum, tgtCum, srcI, srcNum, srcCum := tgtNum0, tgtCum0, srcI0, srcNum0, srcCum0;
    var t, s := Bucket(tgtNum, tgt[tgtI].minValue, tgtCum), Bucket(srcNum, src[srcI].minValue, srcCum);
    GroupProgress(all, done0, tgt[..], tgtI, tgtNum, tgtCum, src[..], srcI, srcNum, srcCum);
    ghost var before := tmp[..];
    var num, tgtShare, srcShare;
    num, tgtShare, srcShare, cold := MergeGroup(tmp, t, s);
    WalkGroup(all, done0, before, cold0, tmp[..], tgt[..], tgtI, tgtNum, tgtCum, src[..], srcI, srcNum, srcCum);
    GroupLandsAtOrAbove(tgt[..], tgtI, t.minValue + s.minValue);
    done := done0 + [Joined(t, s, num)];
    srcCum := srcCum - srcShare;
    tgtCum := tgtCum - tgtShare;
    srcNum := srcNum - num;
    tgtNum := tgtNum - num;
    if srcNum == 0 {
      srcI := srcI - 1;
    }
  }

  /** Merges all counters of one target bucket. */
  method MergeBucket(tmp: array<Bucket>, tgt: array<Bucket>, src: array<Bucket>, tgtI: nat,
                     srcI0: int, srcNum0: nat, srcCum0: nat, cold0: int,
                     ghost all: Matching, ghost done0: seq<Bucket>)
    returns (srcI: int, srcNum: nat, srcCum: nat, cold: int, srcDone: bool, ghost done: seq<Bucket>)
    requires tmp != tgt && tmp != src
    requires tgtI < tgt.Length == src.Length == tmp.Length == HISTOGRAM_SIZE
    requires Mergeable(tgt[..]) && Mergeable(src[..])
    requires Walk(all, done0, Hottest(tgt[..], tgtI + 1), tmp[..], cold0, src[..], srcI0, srcNum0, srcCum0)
    requires EmptyBelow(tmp[..], tgtI + 1)
    modifies tmp
    ensures !srcDone ==> Walk(all, done, Hottest(tgt[..], tgtI), tmp[..], cold, src[..], srcI, srcNum, srcCum)
    ensures !srcDone ==> EmptyBelow(tmp[..], tgtI)
    ensures srcDone ==> srcI == -1 && srcNum == 0 && srcCum == 0 && Exhausted(all, done, tmp[..], cold, tgt[..], src[..])
    ensures srcDone ==> tgt[tgtI].num > 0
  {
    hide IndexOf, Walk, Exhausted, Hottest, TargetRest, Progress, Normal, Scratch, HistogramOk, Fits;
    srcI, srcNum, srcCum, cold, done, srcDone := srcI0, srcNum0, srcCum0, cold0, done0, false;
    var tgtNum, tgtCum := tgt[tgtI].num, tgt[tgtI].cumValue;
    TargetRestAll(tgt[..], tgtI, 0);
    while tgtNum > 0
      invariant tgtNum > 0 ==> tgt[tgtI].num > 0
      invariant Walk(all, done, TargetRest(tgt[..], tgtI, tgtNum, tgtCum), tmp[..], cold, src[..], srcI, srcNum, srcCum)
      invariant EmptyBelow(tmp[..], tgtI) && !srcDone
      decreases tgtNum
    {
      WalkBounds(all, done, TargetRest(tgt[..], tgtI, tgtNum, tgtCum), tmp[..], cold, src[..], srcI, srcNum, srcCum);
      if srcNum == 0 {
        var next := SkipEmpty(src, srcI);
        WalkLoad(all, done, TargetRest(tgt[..], tgtI, tgtNum, tgtCum), tmp[..], cold, src[..], srcI, next);
        srcI := next;
        if srcI < 0 {
          FinishWalk(tmp, tgt, src, tgtI, tgtNum, tgtCum, cold, all, done);
          srcDone := true;
          return;
        }
        srcNum, srcCum := src[srcI].num, src[srcI].cumValue;
      }
      tgtNum, tgtCum, srcI, srcNum, srcCum, cold, done :=
        MergeNext(tmp, tgt, src, tgtI, tgtNum, tgtCum, srcI, srcNum, srcCum, cold, all, done);
    }
    TargetRestAll(tgt[..], tgtI, tgtCum);
  }

  lemma TargetRestAll(t: seq<Bucket>, i: nat, cum: nat)
    requires i < |t|
    ensures TargetRest(t, i, t[i].num, t[i].cumValue) == Hottest(t, i + 1)
    ensures TargetRest(t, i, 0, cum) == Hottest(t, i)
  {
    assert Bucket(t[i].num, t[i].minValue, t[i].cumValue) == t[i];
    assert [] + Hottest(t, i) == Hottest(t, i);
  }

  lemma WalkBounds(all: Matching, done: seq<Bucket>, ts: seq<Bucket>, tmp: seq<Bucket>, cold: int,
                   s: seq<Bucket>, srcI: int, srcNum: nat, srcCum: nat)
    requires Walk(all, done, ts, tmp, cold, s, srcI, srcNum, srcCum)
    ensures -1 <= srcI < |s|
    ensures if srcNum > 0 then 0 <= srcI else srcCum == 0
    ensures Normal(tmp) && Scratch(tmp, done, cold)
  {
  }

  method FinishWalk(tmp: array<Bucket>, tgt: array<Bucket>, src: array<Bucket>, tgtI: nat, tgtNum: nat, tgtCum: nat,
                    cold: int, ghost all: Matching, ghost done: seq<Bucket>)
    requires tmp != tgt && tmp != src
    requires tgtI < tgt.Length == src.Length == tmp.Length == HISTOGRAM_SIZE
    requires Mergeable(tgt[..]) && tgt[tgtI].num > 0 && tgtNum > 0
    requires Progress(all, done, TargetRest(tgt[..], tgtI, tgtNum, tgtCum), [])
    requires done == [] <==> Hottest(src[..], src.Length) == []
    requires Normal(tmp[..]) && Scratch(tmp[..], done, cold) && EmptyBelow(tmp[..], tgtI)
    modifies tmp
    ensures Exhausted(all, done, tmp[..], cold, tgt[..], src[..])
  {
    hide IndexOf;
    CopyRest(tmp, tgt, tgtI, tgtNum, tgtCum, done);
  }

  /** Adds up the sums of the source counters that found no partner. */
  method SumUnmatched(src: array<Bucket>, srcI0: int, srcNum: nat, srcCum0: nat) returns (srcCum: nat)
    requires src.Length == HISTOGRAM_SIZE && HistogramOk(src[..])
    requires -1 <= srcI0 < src.Length && (if srcNum > 0 then 0 <= srcI0 else srcCum0 == 0)
    ensures srcCum == SumCum(SourceRest(src[..], srcI0, srcNum, srcCum0))
  {
    hide SourceRest, SumCum, HistogramOk;
    var srcI := srcI0;
    srcCum := srcCum0;
    if srcNum > 0 {
      srcI := srcI - 1;
    }
    SumOfFirst(src[..], srcI0, srcNum, srcCum0);
    while srcI >= 0
      invariant -1 <= srcI < src.Length
      invariant srcCum + CumBelow(src[..], srcI + 1) == SumCum(SourceRest(src[..], srcI0, srcNum, srcCum0))
    {
      srcCum := srcCum + src[srcI].cumValue;
      srcI := srcI - 1;
    }
  }

  lemma SumOfFirst(s: seq<Bucket>, i: int, num: nat, cum: nat)
    requires HistogramOk(s)
    requires -1 <= i < |s| && (if num > 0 then 0 <= i else cum == 0)
    ensures SumCum(SourceRest(s, i, num, cum)) == cum + CumBelow(s, if num > 0 then i else i + 1)
  {
    hide IndexOf;
    assert forall k :: 0 <= k < |s| ==> BucketOk(s[k], k);
    HottestTotals(s, if num > 0 then i else i + 1);
    if num > 0 {
      assert SourceRest(s, i, num, cum)[1..] == Hottest(s, i);
    }
  }

  lemma DepositWithExtra(init: seq<Bucket>, last: Bucket, extra: nat)
    requires MinsFit(init + [last])
    ensures last.minValue < TWO_64 && MinsFit(AddToLast(init + [last], extra))
    ensures var i := IndexOf(last.minValue); var h := Deposit(init + [last]);
            Deposit(AddToLast(init + [last], extra)) == h[i := h[i].(cumValue := h[i].cumValue + extra)]
  {
    hide IndexOf, Deposit, DepositInto;
    assert last in init + [last];
    assert MinsFit(init);
    AddToLastOf(init, last, extra);
    hide AddToLast, MinsFit;
    DepositAppend(init, last);
    DepositAppend(init, last.(cumValue := last.cumValue + extra));
    DepositIntoExtra(Deposit(init), last, extra);
  }

  lemma AddToLastOf(init: seq<Bucket>, last: Bucket, extra: nat)
    ensures AddToLast(init + [last], extra) == init + [last.(cumValue := last.cumValue + extra)]
  {
    assert (init + [last])[..|init|] == init;
  }

  lemma DepositIntoExtra(h: seq<Bucket>, p: Bucket, extra: nat)
    requires |h| == HISTOGRAM_SIZE && p.minValue < TWO_64
    ensures var i := IndexOf(p.minValue); var r := DepositInto(h, p);
            DepositInto(h, p.(cumValue := p.cumValue + extra)) == r[i := r[i].(cumValue := r[i].cumValue + extra)]
  {
    hide IndexOf;
  }

  ghost predicate MatchingOf(all: Matching, t: seq<Bucket>, s: seq<Bucket>) {
    Mergeable(t) && Mergeable(s) && all == Match(HottestFirst(t), HottestFirst(s))
  }

  /** The target was used up first: what remains of the source goes to the coldest merged bucket. */
  lemma WalkEnd(all: Matching, done: seq<Bucket>, tmp: seq<Bucket>, cold: int, t: seq<Bucket>, s: seq<Bucket>,
                srcI: int, srcNum: nat, srcCum: nat)
    requires MatchingOf(all, t, s)
    requires Walk(all, done, [], tmp, cold, s, srcI, srcNum, srcCum)
    ensures tmp[cold].num > 0 <==> MergeDefined(t, s)
    ensures tmp[cold].num > 0 ==>
            var extra := SumCum(SourceRest(s, srcI, srcNum, srcCum));
            Normalise(tmp[cold := tmp[cold].(cumValue := tmp[cold].cumValue + extra)]) == Merged(t, s)
  {
    hide IndexOf, Deposit, HottestFirst, SourceRest, Mergeable, Normalise, Merged, SumNum, SumCum, Normal, MergedPieces;
    assert done + [] == done;
    SameAsHottest(t);
    SameAsHottest(s);
    DoneCounts(all, done, t, s);
    if done == [] {
      NothingDeposited();
    } else {
      WalkEndMerged(all, tmp, cold, t, s);
    }
  }

  lemma DoneCounts(all: Matching, done: seq<Bucket>, t: seq<Bucket>, s: seq<Bucket>)
    requires MatchingOf(all, t, s) && done == all.pieces
    ensures done == [] <==> TotalNum(t) == 0
  {
    hide HottestFirst, Mergeable, Match;
    MatchConserves(HottestFirst(t), HottestFirst(s));
    MatchedPiecesFit(HottestFirst(t), HottestFirst(s));
    if done != [] {
      PositiveSum(done);
    }
  }

  lemma WalkEndMerged(all: Matching, tmp: seq<Bucket>, cold: int, t: seq<Bucket>, s: seq<Bucket>)
    requires MatchingOf(all, t, s) && all.pieces != []
    requires |tmp| == HISTOGRAM_SIZE && Scratch(tmp, all.pieces, cold)
    ensures Normalise(tmp[cold := tmp[cold].(cumValue := tmp[cold].cumValue + all.leftover)]) == Merged(t, s)
  {
    hide IndexOf, Deposit, HottestFirst, Mergeable, Normalise, AddToLast, MinsFit, Match;
    var done := all.pieces;
    var init, last := done[..|done| - 1], done[|done| - 1];
    assert done == init + [last];
    DepositWithExtra(init, last, all.leftover);
    DepositOk(MergedPieces(t, s));
  }

  lemma SameAsHottest(s: seq<Bucket>)
    requires Mergeable(s)
    ensures HottestFirst(s) == Hottest(s, |s|)
    ensures TotalNum(s) > 0 <==> Hottest(s, |s|) != []
  {
    var ps := HottestFirst(s);
    if ps != [] {
      assert PieceOk(ps[0]);
    }
  }

  lemma NothingDeposited()
    ensures Deposit([]) == NoBuckets()
  {
  }

  lemma PositiveSum(ps: seq<Bucket>)
    requires Holding(ps) && ps != []
    ensures SumNum(ps) > 0
  {
    assert ps[0] in ps;
  }

  /** The source was used up first, or at the same time with target buckets left. */
  lemma ExhaustedEnd(all: Matching, done: seq<Bucket>, tmp: seq<Bucket>, cold: int, t: seq<Bucket>, s: seq<Bucket>)
    requires MatchingOf(all, t, s) && TotalNum(t) > 0
    requires Exhausted(all, done, tmp, cold, t, s)
    ensures tmp[cold].num > 0 <==> MergeDefined(t, s)
    ensures Normalise(tmp) == Merged(t, s)
  {
    hide IndexOf, Deposit, HottestFirst, Normalise;
    SameAsHottest(s);
    assert AddToLast(all.pieces, 0) == all.pieces;
  }

  /** Both ways the walk can end, with extra the sum of the source counters left without a partner. */
  lemma EndOfWalk(all: Matching, done: seq<Bucket>, tmp: seq<Bucket>, cold: int, t: seq<Bucket>, s: seq<Bucket>,
                  srcDone: bool, srcI: int, srcNum: nat, srcCum: nat)
    requires MatchingOf(all, t, s)
    requires if srcDone then
               TotalNum(t) > 0 && srcI == -1 && srcNum == 0 && srcCum == 0 && Exhausted(all, done, tmp, cold, t, s)
             else Walk(all, done, [], tmp, cold, s, srcI, srcNum, srcCum)
    ensures 0 <= cold < |tmp|
    ensures HistogramOk(s) && -1 <= srcI < |s| && (if srcNum > 0 then 0 <= srcI else srcCum == 0)
    ensures tmp[cold].num > 0 <==> MergeDefined(t, s)
    ensures tmp[cold].num > 0 ==>
            var extra := SumCum(SourceRest(s, srcI, srcNum, srcCum));
            Normalise(tmp[cold := tmp[cold].(cumValue := tmp[cold].cumValue + extra)]) == Merged(t, s)
  {
    hide Normalise, Merged, Deposit, HottestFirst, Match, MergeDefined;
    if srcDone {
      ExhaustedEnd(all, done, tmp, cold, t, s);
      assert SourceRest(s, -1, 0, 0) == [];
      assert tmp[cold := tmp[cold].(cumValue := tmp[cold].cumValue + 0)] == tmp;
    } else {
      WalkEnd(all, done, tmp, cold, t, s, srcI, srcNum, srcCum);
    }
  }

  /** The assignment that copies the scratch histogram back. */
  method CopyBack(tgt: array<Bucket>, tmp: array<Bucket>)
    requires tgt != tmp && tgt.Length == tmp.Length
    modifies tgt
    ensures tgt[..] == tmp[..]
  {
    forall i | 0 <= i < tgt.Length {
      tgt[i] := tmp[i];
    }
  }

  /**
   Merges histogram src into tgt in place. The result is false where the last assertion of the walk
   fails, which leaves the target as it was.
   */
  method Merge(tgt: array<Bucket>, src: array<Bucket>) returns (ok: bool)
    requires tgt != src && tgt.Length == src.Length == HISTOGRAM_SIZE
    requires Mergeable(tgt[..]) && Mergeable(src[..])
    modifies tgt
    ensures ok <==> MergeDefined(old(tgt[..]), src[..])
    ensures ok ==> Normalise(tgt[..]) == Merged(old(tgt[..]), src[..])
    ensures !ok ==> tgt[..] == old(tgt[..])
  {
    hide IndexOf, Walk, Exhausted, Normalise, Merged, Mergeable, MergeDefined, SourceRest, HottestFirst, Match, SumCum;
    hide HistogramOk, EmptyBelow;
    var tmp := new Bucket[HISTOGRAM_SIZE](_ => EMPTY);
    ghost var t0 := tgt[..];
    ghost var all := Match(HottestFirst(t0), HottestFirst(src[..]));
    ghost var done := [];
    var srcDone, srcNum, srcCum, cold := false, 0, 0, 0;
    var srcI, tgtI: int := HISTOGRAM_SIZE - 1, HISTOGRAM_SIZE - 1;
    WalkStart(all, t0, src[..], tmp[..]);
    while tgtI >= 0 && !srcDone
      invariant -1 <= tgtI < tgt.Length || srcDone
      invariant tgt[..] == t0
      invariant !srcDone ==> Walk(all, done, Hottest(t0, tgtI + 1), tmp[..], cold, src[..], srcI, srcNum, srcCum)
      invariant !srcDone ==> EmptyBelow(tmp[..], tgtI + 1)
      invariant srcDone ==> srcI == -1 && srcNum == 0 && srcCum == 0 && Exhausted(all, done, tmp[..], cold, t0, src[..])
      invariant srcDone ==> TotalNum(t0) > 0 && tgtI < 0
    {
      srcI, srcNum, srcCum, cold, srcDone, done := MergeBucket(tmp, tgt, src, tgtI, srcI, srcNum, srcCum, cold, all, done);
      if srcDone {
        // The copy has gone through all lower target buckets.
        BucketWithinTotals(t0, tgtI, |t0|);
        tgtI := -1;
      }
      tgtI := tgtI - 1;
    }
    assert tgtI < 0;
    EndOfWalk(all, done, tmp[..], cold, t0, src[..], srcDone, srcI, srcNum, srcCum);
    srcCum := SumUnmatched(src, srcI, srcNum, srcCum);
    ok := tmp[cold].num > 0;
    if ok {
      tmp[cold] := tmp[cold].(cumValue := tmp[cold].cumValue + srcCum);
      CopyBack(tgt, tmp);
    }
  }

  lemma WalkStart(all: Matching, t: seq<Bucket>, s: seq<Bucket>, tmp: seq<Bucket>)
    requires MatchingOf(all, t, s)
    requires |tmp| == HISTOGRAM_SIZE && forall i :: 0 <= i < |tmp| ==> tmp[i] == EMPTY
    ensures Walk(all, [], Hottest(t, |t|), tmp, 0, s, |s| - 1, 0, 0)
    ensures EmptyBelow(tmp, |tmp|)
  {
    hide IndexOf, HottestFirst, Match, Mergeable, Normal, Deposit;
    SameAsHottest(t);
    SameAsHottest(s);
    NothingDeposited();
    AllEmpty(tmp);
    assert [] + Match(HottestFirst(t), HottestFirst(s)).pieces == Match(HottestFirst(t), HottestFirst(s)).pieces;
  }

  lemma AllEmpty(tmp: seq<Bucket>)
    requires |tmp| == HISTOGRAM_SIZE && forall i :: 0 <= i < |tmp| ==> tmp[i] == EMPTY
    ensures Normal(tmp) && tmp == NoBuckets()
  {
    hide IndexOf;
  }
}
