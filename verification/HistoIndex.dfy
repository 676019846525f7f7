/** The bucket of the log2 histogram that a counter value belongs to. */
module HistoIndex {
  import opened Powers

  /** 63 binary orders of magnitude, each cut into four linear sub-buckets. */
  const HISTOGRAM_SIZE: nat := 252

  /** Bucket of a counter, given as its unsigned 64-bit reading. */
  function IndexOf(v: nat): (i: nat)
    requires v < TWO_64
    ensures i < HISTOGRAM_SIZE
  {
    var r := if v > 0 then FloorLog2(v) else 0;
    if r < 2 then v
    else
      PlaceBelow64(v);
      var prev2bits := v / Pow2(r - 2) % 4;
      (r - 1) * 4 + prev2bits
  }

  /** Least value of bucket i. */
  function BucketLow(i: nat): nat {
    if i < 4 then i else (4 + i % 4) * Pow2(i / 4 - 1)
  }

  /** Number of values in bucket i. */
  function BucketWidth(i: nat): (w: nat)
    ensures w > 0
  {
    if i < 4 then 1 else Pow2(i / 4 - 1)
  }

  lemma PlaceBelow64(v: nat)
    requires 0 < v < TWO_64
    ensures FloorLog2(v) < 64
  {
    Pow2At64();
    Pow2Order(FloorLog2(v), 63);
  }

  /** A value of at least four starts with a set bit and two bits that select the sub-bucket. */
  lemma LeadingBits(v: nat, r: nat, unit: nat, q: nat)
    requires 4 <= v && r == FloorLog2(v) && 2 <= r && unit == Pow2(r - 2) && q == v / unit
    ensures 4 <= q < 8
    ensures q * unit <= v < q * unit + unit
  {
    assert Pow2(r) == 2 * Pow2(r - 1) == 4 * unit;
    QuotientRange(v, unit, 4, 8);
  }

  lemma IndexOfParts(v: nat, r: nat, q: nat)
    requires 4 <= v < TWO_64 && r == FloorLog2(v) && r >= 2 && q == v / Pow2(r - 2) && 4 <= q < 8
    ensures IndexOf(v) == 4 * (r - 1) + (q - 4)
  {
    hide Pow2, FloorLog2;
    assert q % 4 == q - 4;
  }

  lemma IndexInOwnInterval(v: nat)
    requires v < TWO_64
    ensures var i := IndexOf(v);
            BucketLow(i) <= v < BucketLow(i) + BucketWidth(i)
  {
    hide IndexOf, BucketLow, BucketWidth;
    if v < 4 {
      SmallValues(v);
    } else {
      PlaceBelow64(v);
      var r := FloorLog2(v);
      assert Pow2(2) == 4;
      Pow2Order(2, r);
      var unit := Pow2(r - 2);
      var q := v / unit;
      LeadingBits(v, r, unit, q);
      IndexOfParts(v, r, q);
      SubBucketOf(IndexOf(v), r - 2, q - 4);
    }
  }

  /** Bucket i holds exactly the values of its interval, so the buckets tile the counter range. */
  lemma IndexIffInterval(v: nat, i: nat)
    requires v < TWO_64
    ensures IndexOf(v) == i <==> BucketLow(i) <= v < BucketLow(i) + BucketWidth(i)
  {
    hide IndexOf, BucketLow, BucketWidth;
    IndexInOwnInterval(v);
    var j := IndexOf(v);
    if i < j {
      BucketsAdjacent(i);
      LowMonotone(i + 1, j);
    } else if j < i {
      BucketsAdjacent(j);
      LowMonotone(j + 1, i);
    }
  }

  lemma SmallValues(v: nat)
    requires v < 8
    ensures IndexOf(v) == v
    ensures BucketLow(v) == v && BucketWidth(v) == 1
  {
    if v >= 4 {
      FloorLog2Unique(v, 2);
    } else if v >= 2 {
      FloorLog2Unique(v, 1);
    } else if v == 1 {
      FloorLog2Unique(v, 0);
    }
  }

  /** Each bucket starts where the one below it ends. */
  lemma BucketsAdjacent(i: nat)
    ensures BucketLow(i + 1) == BucketLow(i) + BucketWidth(i)
  {
    if i >= 4 {
      AdjacentAt(i / 4 - 1, i % 4, i);
    }
  }

  lemma AdjacentAt(e: nat, sub: nat, i: nat)
    requires sub < 4 && i == 4 * (e + 1) + sub
    ensures BucketLow(i + 1) == BucketLow(i) + BucketWidth(i)
  {
    hide BucketLow, BucketWidth;
    SubBucketOf(i, e, sub);
    var unit := Pow2(e);
    if sub == 3 {
      SubBucketOf(i + 1, e + 1, 0);
      assert Pow2(e + 1) == 2 * unit;
    } else {
      SubBucketOf(i + 1, e, sub + 1);
      assert (4 + (sub + 1)) * unit == (4 + sub) * unit + unit;
    }
  }

  lemma SubBucketOf(i: nat, e: nat, sub: nat)
    requires sub < 4 && i == 4 * (e + 1) + sub
    ensures BucketLow(i) == (4 + sub) * Pow2(e) && BucketWidth(i) == Pow2(e)
  {
    assert i / 4 == e + 1 && i % 4 == sub;
  }

  lemma {:induction false} LowMonotone(i: nat, j: nat)
    requires i <= j
    ensures BucketLow(i) <= BucketLow(j)
    decreases j
  {
    if i < j {
      LowMonotone(i, j - 1);
      BucketsAdjacent(j - 1);
    }
  }

  /** A larger counter never belongs to a lower bucket. */
  lemma IndexMonotone(u: nat, v: nat)
    requires u <= v < TWO_64
    ensures IndexOf(u) <= IndexOf(v)
  {
    hide IndexOf, BucketLow, BucketWidth;
    IndexIffInterval(u, IndexOf(u));
    IndexIffInterval(v, IndexOf(v));
    if IndexOf(v) < IndexOf(u) {
      BucketsAdjacent(IndexOf(v));
      LowMonotone(IndexOf(v) + 1, IndexOf(u));
    }
  }

  /** Two counters of one bucket differ by less than a quarter of the bucket's least value. */
  lemma BucketSpread(u: nat, v: nat)
    requires u <= v < TWO_64
    requires IndexOf(u) == IndexOf(v)
    ensures if u < 8 then u == v else 4 * (v - u) < BucketLow(IndexOf(u))
  {
    hide IndexOf, BucketLow, BucketWidth;
    var i := IndexOf(u);
    IndexIffInterval(u, i);
    IndexIffInterval(v, i);
    if u < 8 {
      SmallValues(u);
    } else {
      SmallValues(7);
      IndexMonotone(7, u);
      IndexIffInterval(u, 7);
      assert i >= 8;
      SubBucketOf(i, i / 4 - 1, i % 4);
      MulMonotone(4, 4 + i % 4, BucketWidth(i));
    }
  }
}
