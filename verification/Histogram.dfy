/** Histograms of counter values: totals, well-formedness, and the tally of a list of counters. */
module Histogram {
  import opened Powers
  import opened HistoIndex

  /** One bucket: how many counters it holds, the least of them, and their sum. */
  datatype Bucket = Bucket(num: nat, minValue: nat, cumValue: nat)

  const EMPTY := Bucket(0, 0, 0)

  function NumBelow(h: seq<Bucket>, n: nat): nat
    requires n <= |h|
  {
    if n == 0 then 0 else NumBelow(h, n - 1) + h[n - 1].num
  }

  function CumBelow(h: seq<Bucket>, n: nat): nat
    requires n <= |h|
  {
    if n == 0 then 0 else CumBelow(h, n - 1) + h[n - 1].cumValue
  }

  function TotalNum(h: seq<Bucket>): nat { NumBelow(h, |h|) }

  function TotalCum(h: seq<Bucket>): nat { CumBelow(h, |h|) }

  /** An empty bucket carries no sum; any other lies where its least value belongs. */
  predicate BucketOk(b: Bucket, i: nat) {
    if b.num == 0 then b.cumValue == 0
    else b.minValue < TWO_64 && IndexOf(b.minValue) == i && b.num * b.minValue <= b.cumValue
  }

  ghost predicate HistogramOk(h: seq<Bucket>) {
    && |h| == HISTOGRAM_SIZE
    && forall i :: 0 <= i < |h| ==> BucketOk(h[i], i)
  }

  /** What survives writing and reading back: the least value of an empty bucket does not. */
  function NormalBucket(b: Bucket): Bucket {
    if b.num == 0 then EMPTY else b
  }

  function Normalise(h: seq<Bucket>): (r: seq<Bucket>)
    ensures |r| == |h| && forall i :: 0 <= i < |h| ==> r[i] == NormalBucket(h[i])
  {
    seq(|h|, i requires 0 <= i < |h| => NormalBucket(h[i]))
  }

  lemma {:induction false} TotalsAfterUpdate(h: seq<Bucket>, k: nat, b: Bucket, n: nat)
    requires k < |h| && n <= |h|
    ensures NumBelow(h[k := b], n) == NumBelow(h, n) + (if k < n then b.num - h[k].num else 0)
    ensures CumBelow(h[k := b], n) == CumBelow(h, n) + (if k < n then b.cumValue - h[k].cumValue else 0)
  {
    if n > 0 {
      TotalsAfterUpdate(h, k, b, n - 1);
    }
  }

  lemma {:induction false} TotalsNormalise(h: seq<Bucket>, n: nat)
    requires n <= |h|
    requires forall i :: 0 <= i < |h| && h[i].num == 0 ==> h[i].cumValue == 0
    ensures NumBelow(Normalise(h), n) == NumBelow(h, n)
    ensures CumBelow(Normalise(h), n) == CumBelow(h, n)
  {
    if n > 0 {
      TotalsNormalise(h, n - 1);
    }
  }

  lemma NormaliseKeeps(h: seq<Bucket>)
    requires HistogramOk(h)
    ensures HistogramOk(Normalise(h))
    ensures TotalNum(Normalise(h)) == TotalNum(h) && TotalCum(Normalise(h)) == TotalCum(h)
    ensures Normalise(Normalise(h)) == Normalise(h)
  {
    TotalsNormalise(h, |h|);
  }

  lemma {:induction false} BucketWithinTotals(h: seq<Bucket>, i: nat, n: nat)
    requires i < n <= |h|
    ensures h[i].num <= NumBelow(h, n) && h[i].cumValue <= CumBelow(h, n)
  {
    if i < n - 1 {
      BucketWithinTotals(h, i, n - 1);
    }
  }

  lemma {:induction false} ZeroTotals(h: seq<Bucket>, n: nat)
    requires n <= |h| && forall i :: 0 <= i < n ==> h[i].num == 0 && h[i].cumValue == 0
    ensures NumBelow(h, n) == 0 && CumBelow(h, n) == 0
  {
    if n > 0 {
      ZeroTotals(h, n - 1);
    }
  }

  // ---------- the tally of a list of counters ----------

  function Sum(vals: seq<Count>): nat {
    if vals == [] then 0 else Sum(vals[..|vals| - 1]) + vals[|vals| - 1]
  }

  function Max(vals: seq<Count>): (m: nat)
    ensures forall v :: v in vals ==> v <= m
    ensures m == 0 || m in vals
  {
    if vals == [] then 0
    else
      var m := Max(vals[..|vals| - 1]);
      var v := vals[|vals| - 1];
      assert vals == vals[..|vals| - 1] + [v];
      if m < v then v else m
  }

  /** The counters that belong to bucket i, in order. */
  function Members(vals: seq<Count>, i: nat): (r: seq<Count>)
    ensures forall v :: v in r <==> v in vals && IndexOf(v) == i
  {
    if vals == [] then []
    else
      var v := vals[|vals| - 1];
      assert vals == vals[..|vals| - 1] + [v];
      Members(vals[..|vals| - 1], i) + (if IndexOf(v) == i then [v] else [])
  }

  /** The least of the counters, or top when there are none or all are larger. */
  function LeastOr(vals: seq<Count>, top: nat): (m: nat)
    ensures forall v :: v in vals ==> m <= v
    ensures m <= top && (m == top || m in vals)
  {
    if vals == [] then top
    else
      var m := LeastOr(vals[..|vals| - 1], top);
      var v := vals[|vals| - 1];
      assert vals == vals[..|vals| - 1] + [v];
      if v < m then v else m
  }

  /** The bucket that holds exactly these counters. */
  function BucketOf(members: seq<Count>, top: nat): Bucket {
    Bucket(|members|, LeastOr(members, top), Sum(members))
  }

  function TallyBucket(vals: seq<Count>, top: nat, i: nat): Bucket {
    BucketOf(Members(vals, i), top)
  }

  /** The histogram of a list of counters none of which exceeds top. */
  function Tally(vals: seq<Count>, top: nat): (h: seq<Bucket>)
    ensures |h| == HISTOGRAM_SIZE
    ensures forall i :: 0 <= i < |h| ==> h[i] == TallyBucket(vals, top, i)
  {
    seq(HISTOGRAM_SIZE, i requires 0 <= i < HISTOGRAM_SIZE => TallyBucket(vals, top, i))
  }

  /** Effect of one insertion on the bucket the value belongs to. */
  function InsertIntoBucket(b: Bucket, v: Count): Bucket {
    Bucket(b.num + 1, if v < b.minValue then v else b.minValue, b.cumValue + v)
  }

  /** The histogram with one more counter. */
  function Inserted(h: seq<Bucket>, v: Count): seq<Bucket>
    requires |h| == HISTOGRAM_SIZE
  {
    var i := IndexOf(v);
    h[i := InsertIntoBucket(h[i], v)]
  }

  /** Inserts one counter into the histogram in place. */
  method Insert(histogram: array<Bucket>, value: Count)
    requires histogram.Length == HISTOGRAM_SIZE
    modifies histogram
    ensures histogram[..] == Inserted(old(histogram[..]), value)
  {
    var i := IndexOf(value);
    histogram[i] := histogram[i].(num := histogram[i].num + 1);
    histogram[i] := histogram[i].(cumValue := histogram[i].cumValue + value);
    if value < histogram[i].minValue {
      histogram[i] := histogram[i].(minValue := value);
    }
  }

  lemma AppendToMembers(vals: seq<Count>, v: Count, i: nat)
    ensures Members(vals + [v], i) == Members(vals, i) + (if IndexOf(v) == i then [v] else [])
  {
    assert (vals + [v])[..|vals|] == vals;
  }

  lemma AppendToFolds(vals: seq<Count>, v: Count, top: nat)
    ensures Sum(vals + [v]) == Sum(vals) + v
    ensures Max(vals + [v]) == if Max(vals) < v then v else Max(vals)
    ensures LeastOr(vals + [v], top) == if v < LeastOr(vals, top) then v else LeastOr(vals, top)
  {
    assert (vals + [v])[..|vals|] == vals;
  }

  lemma TallyBucketInsert(vals: seq<Count>, v: Count, top: nat, i: nat)
    ensures TallyBucket(vals + [v], top, i) ==
            if i == IndexOf(v) then InsertIntoBucket(TallyBucket(vals, top, i), v) else TallyBucket(vals, top, i)
  {
    hide IndexOf, Members, BucketOf, InsertIntoBucket;
    AppendToMembers(vals, v, i);
    BucketInsert(Members(vals, i), v, top);
  }

  lemma BucketInsert(members: seq<Count>, v: Count, top: nat)
    ensures BucketOf(members + [v], top) == InsertIntoBucket(BucketOf(members, top), v)
    ensures BucketOf(members + [], top) == BucketOf(members, top)
  {
    hide LeastOr, Sum, Max;
    AppendToFolds(members, v, top);
    assert members + [] == members;
  }

  /** Inserting one more counter yields the tally of the longer list. */
  lemma TallyInsert(vals: seq<Count>, v: Count, top: nat)
    ensures Tally(vals + [v], top) == Inserted(Tally(vals, top), v)
  {
    hide IndexOf, TallyBucket, InsertIntoBucket;
    forall i | 0 <= i < HISTOGRAM_SIZE
      ensures TallyBucket(vals + [v], top, i) ==
              if i == IndexOf(v) then InsertIntoBucket(TallyBucket(vals, top, i), v) else TallyBucket(vals, top, i)
    {
      TallyBucketInsert(vals, v, top, i);
    }
  }

  lemma {:induction false} TallyTotals(vals: seq<Count>, top: nat)
    ensures TotalNum(Tally(vals, top)) == |vals| && TotalCum(Tally(vals, top)) == Sum(vals)
  {
    if vals == [] {
      ZeroTotals(Tally(vals, top), |Tally(vals, top)|);
    } else {
      hide IndexOf, TallyBucket;
      var init, v := vals[..|vals| - 1], vals[|vals| - 1];
      assert vals == init + [v];
      TallyInsert(init, v, top);
      TallyTotals(init, top);
      var i, h := IndexOf(v), Tally(init, top);
      TotalsAfterUpdate(h, i, InsertIntoBucket(h[i], v), |h|);
    }
  }

  lemma NextProduct(n: nat, c: nat)
    ensures (n + 1) * c == n * c + c
  {
  }

  lemma {:induction false} SumAtLeast(vals: seq<Count>, least: nat)
    requires forall v :: v in vals ==> least <= v
    ensures |vals| * least <= Sum(vals)
  {
    if vals != [] {
      var init, v := vals[..|vals| - 1], vals[|vals| - 1];
      assert vals == init + [v];
      assert forall u :: u in init ==> u in vals;
      assert v in vals;
      SumAtLeast(init, least);
      NextProduct(|init|, least);
    }
  }

  lemma TallyBucketOk(vals: seq<Count>, top: nat, i: nat)
    requires Max(vals) <= top
    ensures BucketOk(TallyBucket(vals, top, i), i)
  {
    hide IndexOf, BucketOf, BucketOk;
    BucketOfOk(Members(vals, i), top, i);
  }

  lemma BucketOfOk(members: seq<Count>, top: nat, i: nat)
    requires forall v :: v in members ==> v <= top && IndexOf(v) == i
    ensures BucketOk(BucketOf(members, top), i)
  {
    hide IndexOf, Sum;
    var least := LeastOr(members, top);
    if members == [] {
      assert Sum(members) == 0 by { NoSum(); }
    } else {
      assert members[0] in members;
      SumAtLeast(members, least);
    }
  }

  lemma NoSum()
    ensures Sum([]) == 0
  {
  }

  /**
   A computed histogram is well formed, counts every counter once, and its buckets add up to the
   sum of all counters.
   */
  lemma TallyOk(vals: seq<Count>, top: nat)
    requires Max(vals) <= top
    ensures HistogramOk(Tally(vals, top))
    ensures TotalNum(Tally(vals, top)) == |vals| && TotalCum(Tally(vals, top)) == Sum(vals)
  {
    hide IndexOf;
    TallyTotals(vals, top);
    forall i | 0 <= i < HISTOGRAM_SIZE
      ensures BucketOk(TallyBucket(vals, top, i), i)
    {
      TallyBucketOk(vals, top, i);
    }
  }
}
