/** A run of samples, some of them zero, after which the top-N table counts zeros in two places. */
module TopNZeros {
  import opened IcallTopN
  import opened TopNProfiler
  import opened TopNRuns

  /** A run goes on with one more sample. */
  lemma Extended(tables: seq<Table>, values: seq<int>, value: int, t: Table, topN: nat)
    requires IsRun(tables, values, topN) && |t.entries| == 2 * topN && Step(tables[|values|], value, t, topN)
    ensures IsRun(tables + [t], values + [value], topN)
  {
    hide Step;
    var tables', values' := tables + [t], values + [value];
    forall i | 0 <= i < |values'|
      ensures Step(tables'[i], values'[i], tables'[i + 1], topN)
    {
      if i < |values| {
        assert tables'[i] == tables[i] && tables'[i + 1] == tables[i + 1];
      }
    }
  }

  /** A table for one value: two entries. */
  function Pair(evictions: int, a: Entry, b: Entry): Table {
    Table(evictions, [a, b])
  }

  /** A sample of a new value where an entry is empty, the second one before the first. */
  lemma FillStep(evictions: int, a: Entry, b: Entry, value: int)
    requires a.id != value && b.id != value && a.count == 0 && b.count >= 0
    ensures Step(Pair(evictions, a, b), value,
                 if b.count == 0 then Pair(evictions, a, Entry(value, 1)) else Pair(evictions, Entry(value, 1), b), 1)
  {
    var es := [a, b];
    assert Lacks(es, 2, value);
    assert es[0].count == 0;
    LeastOfTwo(a, b);
    assert es[0 := Entry(value, 1)] == [Entry(value, 1), b] && es[1 := Entry(value, 1)] == [a, Entry(value, 1)];
  }

  lemma LeastOfTwo(a: Entry, b: Entry)
    requires a.count >= 0 && b.count >= 0
    ensures LeastUsed([a, b], 2) == if b.count == 0 || b.count < a.count then 1 else 0
  {
    assert LeastUsed([a, b], 1) == 0;
  }

  lemma HitFirst(evictions: int, a: Entry, b: Entry)
    ensures Step(Pair(evictions, a, b), a.id, Pair(evictions, Entry(a.id, a.count + 1), b), 1)
  {
    var es, es' := [a, b], [Entry(a.id, a.count + 1), b];
    assert es[0].id == a.id && es' == es[0 := Entry(a.id, a.count + 1)];
    assert HitEntry(es, a.id, es', 0);
  }

  lemma HitSecond(evictions: int, a: Entry, b: Entry)
    requires a.id != b.id
    ensures Step(Pair(evictions, a, b), b.id, Pair(evictions, a, Entry(b.id, b.count + 1)), 1)
  {
    var es, es' := [a, b], [a, Entry(b.id, b.count + 1)];
    assert es[1].id == b.id && es' == es[1 := Entry(b.id, b.count + 1)];
    assert HitEntry(es, b.id, es', 1);
  }

  /** A sample of a new value where no entry is empty, and what that does to the least frequent one. */
  lemma EvictStep(evictions: int, a: Entry, b: Entry, value: int)
    requires a.id != value && b.id != value && a.count > 0 && b.count > 0 && evictions + 1 < CLEAR_THRESHOLD
    ensures Step(Pair(evictions, a, b), value,
                 if b.count < a.count then Pair(evictions + 1, a, Entry(value, 1))
                 else Pair(evictions + 1, Entry(value, 1), b), 1)
  {
    var es := [a, b];
    assert Lacks(es, 2, value) && !HasEmpty(es, 2);
    LeastOfTwo(a, b);
    assert es[0 := Entry(value, 1)] == [Entry(value, 1), b] && es[1 := Entry(value, 1)] == [a, Entry(value, 1)];
  }

  /** The eviction that is one too many clears the new entry again. */
  lemma ClearStep(a: Entry, b: Entry, value: int)
    requires a.id != value && b.id != value && 0 < a.count <= b.count
    ensures Step(Pair(CLEAR_THRESHOLD - 1, a, b), value, Pair(0, Entry(0, 0), b), 1)
  {
    var es := [a, b];
    assert Lacks(es, 2, value) && !HasEmpty(es, 2);
    LeastOfTwo(a, b);
    var es', after, slots := es[0 := Entry(value, 1)], [Entry(0, 0), b], [0];
    assert !Free(slots, 0) by {
      assert slots[0] == 0;
    }
    assert Free(slots, 1);
    assert Cleared(es', after, slots, 1);
  }

  /** The second entry counts three zeros, and k new values have gone through the first one. */
  lemma {:induction false} ZerosThenOthers(k: nat) returns (tables: seq<Table>, values: seq<int>)
    requires k + 2 <= CLEAR_THRESHOLD
    ensures IsRun(tables, values, 1)
    ensures tables[|values|] == Pair(k + 1, if k == 0 then Entry(2, 2) else Entry(k + 2, 1), Entry(0, 3))
  {
    hide Step;
    if k == 0 {
      tables, values := ThreeZeros();
    } else {
      tables, values := ZerosThenOthers(k - 1);
      var a := if k == 1 then Entry(2, 2) else Entry(k + 1, 1);
      EvictStep(k, a, Entry(0, 3), k + 2);
      var t := Pair(k + 1, Entry(k + 2, 1), Entry(0, 3));
      Extended(tables, values, k + 2, t, 1);
      tables, values := tables + [t], values + [k + 2];
    }
  }

  lemma ThreeZeros() returns (tables: seq<Table>, values: seq<int>)
    ensures IsRun(tables, values, 1)
    ensures tables[|values|] == Pair(1, Entry(2, 2), Entry(0, 3))
  {
    hide Step;
    var none := Entry(0, 0);
    var t1, t2, t3 := Pair(0, none, Entry(1, 1)), Pair(0, Entry(2, 1), Entry(1, 1)), Pair(0, Entry(2, 2), Entry(1, 1));
    var t4, t5, t6 := Pair(1, Entry(2, 2), Entry(0, 1)), Pair(1, Entry(2, 2), Entry(0, 2)), Pair(1, Entry(2, 2), Entry(0, 3));
    FillStep(0, none, none, 1);
    FillStep(0, none, Entry(1, 1), 2);
    HitFirst(0, Entry(2, 1), Entry(1, 1));
    EvictStep(0, Entry(2, 2), Entry(1, 1), 0);
    HitSecond(1, Entry(2, 2), Entry(0, 1));
    HitSecond(1, Entry(2, 2), Entry(0, 2));
    tables, values := [Pair(0, none, none)], [];
    assert tables[0].entries == seq(2, i => none);
    Extended(tables, values, 1, t1, 1);
    tables, values := tables + [t1], values + [1];
    Extended(tables, values, 2, t2, 1);
    tables, values := tables + [t2], values + [2];
    Extended(tables, values, 2, t3, 1);
    tables, values := tables + [t3], values + [2];
    Extended(tables, values, 0, t4, 1);
    tables, values := tables + [t4], values + [0];
    Extended(tables, values, 0, t5, 1);
    tables, values := tables + [t5], values + [0];
    Extended(tables, values, 0, t6, 1);
    tables, values := tables + [t6], values + [0];
  }

  /**
   There is a run from the zeroed table, for one value, after which both entries count zeros: a clearing
   empties the entry before the one that counts them, and the next zero goes there.
   */
  lemma ZerosCountedTwice() returns (tables: seq<Table>, values: seq<int>)
    ensures IsRun(tables, values, 1)
    ensures tables[|values|].entries == [Entry(0, 1), Entry(0, 3)] && !Good(tables[|values|], 1)
  {
    hide Step;
    tables, values := ZerosThenOthers(CLEAR_THRESHOLD - 2);
    var cleared, last := Pair(0, Entry(0, 0), Entry(0, 3)), Pair(0, Entry(0, 1), Entry(0, 3));
    ClearStep(Entry(CLEAR_THRESHOLD, 1), Entry(0, 3), 1);
    Extended(tables, values, 1, cleared, 1);
    tables, values := tables + [cleared], values + [1];
    HitFirst(0, Entry(0, 0), Entry(0, 3));
    Extended(tables, values, 0, last, 1);
    tables, values := tables + [last], values + [0];
    var es := last.entries;
    assert es[0].count > 0 && es[1].count > 0 && es[0].id == es[1].id;
  }
}
