/** What the top-N table says about a whole run of samples. */
module TopNRuns {
  import opened IcallTopN
  import opened TopNProfiler

  /** Counted values differ; an entry that counts nothing holds no value; the clearing is not overdue. */
  ghost predicate Good(t: Table, topN: nat) {
    && |t.entries| == 2 * topN && 0 <= t.evictions < CLEAR_THRESHOLD
    && GoodEntries(t.entries)
  }

  ghost predicate GoodEntries(es: seq<Entry>) {
    && (forall i :: 0 <= i < |es| ==> es[i].count >= 0 && (es[i].count == 0 ==> es[i].id == 0))
    && (forall i, j :: 0 <= i < j < |es| && es[i].count > 0 && es[j].count > 0 ==> es[i].id != es[j].id)
  }

  /** A sample of the value 0 would be counted in an empty entry, although a later entry counts zeros. */
  ghost predicate ZeroClash(es: seq<Entry>, value: int) {
    value == 0 && exists i, j :: 0 <= i < j < |es| && es[i] == Entry(0, 0) && es[j].id == 0 && es[j].count > 0
  }

  // ---------- what gives way ----------

  /** The entry that gives way is never more frequent than another: the last empty one if any is, or else the first of these. */
  lemma {:induction false} LeastUsedIsLeast(es: seq<Entry>, n: nat)
    requires 0 < n <= |es| && forall i :: 0 <= i < n ==> es[i].count >= 0
    ensures forall i :: 0 <= i < n ==> es[LeastUsed(es, n)].count <= es[i].count
    ensures HasEmpty(es, n) <==> es[LeastUsed(es, n)].count == 0
    ensures forall i :: LeastUsed(es, n) < i < n ==> es[i].count > 0
    ensures !HasEmpty(es, n) ==> forall i :: 0 <= i < LeastUsed(es, n) ==> es[LeastUsed(es, n)].count < es[i].count
  {
    if n > 1 {
      LeastUsedIsLeast(es, n - 1);
    }
  }

  /** A new value that finds no empty entry counts as an eviction; the 3000th since the last clearing clears the table. */
  lemma ClearsIff(before: Table, value: int, after: Table, topN: nat)
    requires 1 <= topN && |before.entries| == 2 * topN && 0 <= before.evictions && Step(before, value, after, topN)
    requires Lacks(before.entries, 2 * topN, value) && !HasEmpty(before.entries, 2 * topN)
    ensures after.evictions == if before.evictions < 2999 then before.evictions + 1 else 0
    ensures var es := before.entries; var es' := es[LeastUsed(es, |es|) := Entry(value, 1)];
            if before.evictions < 2999 then after.entries == es' else IsCleared(es', after.entries, topN)
  {
  }

  ghost predicate IsCleared(es: seq<Entry>, after: seq<Entry>, topN: nat) {
    exists slots :: Cleared(es, after, slots, topN)
  }

  /** A clearing takes topN different entries, none of them more frequent than an entry that stays. */
  lemma ClearingKeepsTheFrequent(es: seq<Entry>, after: seq<Entry>, slots: seq<nat>, topN: nat, gone: nat, kept: nat)
    requires Cleared(es, after, slots, topN) && gone < |es| && kept < |es|
    requires !Free(slots, gone) && Free(slots, kept)
    ensures after[gone] == Entry(0, 0) && after[kept] == es[kept] && es[gone].count <= es[kept].count
    ensures |Values(slots)| == topN
  {
    DistinctCount(slots);
    var m :| 0 <= m < |slots| && slots[m] == gone;
  }

  ghost function Values(values: seq<int>): set<int> {
    set v | v in values
  }

  lemma {:induction false} DistinctCount(slots: seq<nat>)
    requires Distinct(slots)
    ensures |Values(slots)| == |slots|
  {
    if slots != [] {
      var n := |slots| - 1;
      var rest := slots[..n];
      DistinctCount(rest);
      assert slots[n] !in Values(rest);
      assert slots == rest + [slots[n]];
      assert Values(slots) == Values(rest) + {slots[n]};
    }
  }

  // ---------- one sample ----------

  lemma HitClashes(es: seq<Entry>, value: int, es': seq<Entry>, i: nat, k: nat)
    requires GoodEntries(es) && HitEntry(es, value, es', i)
    requires k < |es| && k != i && es[k].count > 0 && es[k].id == value
    ensures ZeroClash(es, value)
  {
    assert i < k && es[i] == Entry(0, 0);
  }

  lemma HitKeeps(es: seq<Entry>, value: int, es': seq<Entry>, i: nat)
    requires GoodEntries(es) && HitEntry(es, value, es', i)
    ensures GoodEntries(es') <==> !ZeroClash(es, value)
  {
    if ZeroClash(es, value) {
      var a, b :| 0 <= a < b < |es| && es[a] == Entry(0, 0) && es[b].id == 0 && es[b].count > 0;
      assert i <= a;
      assert es'[i].id == es'[b].id && es'[i].count > 0 && es'[b].count > 0;
    }
    forall k | 0 <= k < |es| && k != i && es[k].count > 0 && es[k].id == value
      ensures ZeroClash(es, value)
    {
      HitClashes(es, value, es', i, k);
    }
  }

  lemma InsertKeeps(es: seq<Entry>, value: int, k: nat)
    requires GoodEntries(es) && Lacks(es, |es|, value) && k < |es|
    ensures GoodEntries(es[k := Entry(value, 1)])
  {
  }

  lemma ClearKeeps(es: seq<Entry>, after: seq<Entry>, slots: seq<nat>, topN: nat)
    requires GoodEntries(es) && Cleared(es, after, slots, topN)
    ensures GoodEntries(after)
  {
  }

  /** One sample keeps the table good exactly when it does not clash with a count of zeros. */
  lemma StepKeepsIff(before: Table, value: int, after: Table, topN: nat)
    requires 1 <= topN && Good(before, topN) && Step(before, value, after, topN)
    ensures Good(after, topN) <==> !ZeroClash(before.entries, value)
  {
    hide GoodEntries, Lacks, HasEmpty, Cleared;
    var es := before.entries;
    if !Lacks(es, |es|, value) {
      var i :| HitEntry(es, value, after.entries, i);
      HitKeeps(es, value, after.entries, i);
    } else {
      NoClash(es, value);
      var k := LeastUsed(es, |es|);
      InsertKeeps(es, value, k);
      var es' := es[k := Entry(value, 1)];
      if !HasEmpty(es, |es|) && before.evictions + 1 >= CLEAR_THRESHOLD {
        var slots :| Cleared(es', after.entries, slots, topN);
        ClearKeeps(es', after.entries, slots, topN);
        SameLength(es', after.entries, slots, topN);
      }
    }
  }

  lemma NoClash(es: seq<Entry>, value: int)
    requires Lacks(es, |es|, value)
    ensures !ZeroClash(es, value)
  {
  }

  lemma SameLength(es: seq<Entry>, after: seq<Entry>, slots: seq<nat>, topN: nat)
    requires Cleared(es, after, slots, topN)
    ensures |after| == |es|
  {
  }

  // ---------- runs ----------

  function Occurrences(values: seq<int>, v: int): (n: nat) {
    if values == [] then 0
    else Occurrences(values[..|values| - 1], v) + if values[|values| - 1] == v then 1 else 0
  }

  lemma {:induction false} OccursIff(values: seq<int>, v: int)
    ensures Occurrences(values, v) > 0 <==> v in values
  {
    if values != [] {
      var n := |values| - 1;
      OccursIff(values[..n], v);
      assert values == values[..n] + [values[n]];
    }
  }

  /** The tables that a run of the samples goes through, starting from an all-zero one. */
  ghost predicate IsRun(tables: seq<Table>, values: seq<int>, topN: nat) {
    && 1 <= topN && |tables| == |values| + 1
    && tables[0] == Table(0, seq(2 * topN, i => Entry(0, 0)))
    && (forall i :: 0 <= i < |tables| ==> |tables[i].entries| == 2 * topN)
    && (forall i :: 0 <= i < |values| ==> Step(tables[i], values[i], tables[i + 1], topN))
  }

  /** No entry counts more than there were samples of its value. */
  ghost predicate NeverOvercounts(es: seq<Entry>, values: seq<int>) {
    forall k :: 0 <= k < |es| ==> es[k].count <= Occurrences(values, es[k].id)
  }

  lemma NextOccurrences(values: seq<int>, n: nat, v: int)
    requires n < |values|
    ensures Occurrences(values[..n + 1], v) == Occurrences(values[..n], v) + if values[n] == v then 1 else 0
  {
    assert values[..n + 1][..n] == values[..n];
  }

  lemma OvercountStep(before: Table, after: Table, values: seq<int>, n: nat, topN: nat)
    requires 1 <= topN && |before.entries| == 2 * topN && n < |values|
    requires Step(before, values[n], after, topN) && NeverOvercounts(before.entries, values[..n])
    ensures NeverOvercounts(after.entries, values[..n + 1])
  {
    hide Lacks, HasEmpty;
    var es, value := before.entries, values[n];
    forall v: int
      ensures Occurrences(values[..n + 1], v) == Occurrences(values[..n], v) + if value == v then 1 else 0
    {
      NextOccurrences(values, n, v);
    }
    if !Lacks(es, |es|, value) {
      var i :| HitEntry(es, value, after.entries, i);
    } else {
      var es' := es[LeastUsed(es, |es|) := Entry(value, 1)];
      if !HasEmpty(es, |es|) && before.evictions + 1 >= CLEAR_THRESHOLD {
        var slots :| Cleared(es', after.entries, slots, topN);
      }
    }
  }

  /** At every point of every run no count exceeds what was sampled; without zeros the table stays good. */
  lemma {:induction false} RunIsSound(tables: seq<Table>, values: seq<int>, topN: nat, n: nat)
    requires IsRun(tables, values, topN) && n <= |values|
    ensures NeverOvercounts(tables[n].entries, values[..n])
    ensures (forall i :: 0 <= i < n ==> values[i] != 0) ==> Good(tables[n], topN)
  {
    hide Step;
    if n > 0 {
      RunIsSound(tables, values, topN, n - 1);
      OvercountStep(tables[n - 1], tables[n], values, n - 1, topN);
      if forall i :: 0 <= i < n ==> values[i] != 0 {
        StepKeepsIff(tables[n - 1], values[n - 1], tables[n], topN);
      }
    }
  }

  // ---------- a run with few values ----------

  /** Every sampled value is counted, and every count is exact. */
  ghost predicate Exact(es: seq<Entry>, values: seq<int>) {
    && (forall k :: 0 <= k < |es| && es[k].count > 0 ==> es[k].count == Occurrences(values, es[k].id))
    && (forall v :: v in values ==> Counted(es, v))
  }

  ghost predicate Counted(es: seq<Entry>, v: int) {
    exists k :: 0 <= k < |es| && es[k].id == v && es[k].count > 0
  }

  lemma {:induction false} FullTable(es: seq<Entry>, n: nat) returns (ids: set<int>)
    requires GoodEntries(es) && n <= |es| && forall k :: 0 <= k < n ==> es[k].count > 0
    ensures |ids| == n && forall v :: v in ids <==> exists k :: 0 <= k < n && es[k].id == v
  {
    ids := {};
    if n > 0 {
      ids := FullTable(es, n - 1);
      assert es[n - 1].id !in ids;
      ids := ids + {es[n - 1].id};
    }
  }

  /** A table without an empty entry has seen as many values as it has entries. */
  lemma RoomForMore(es: seq<Entry>, values: seq<int>, value: int)
    requires GoodEntries(es) && Exact(es, values) && Lacks(es, |es|, value)
    requires |Values(values) + {value}| <= |es|
    ensures HasEmpty(es, |es|)
  {
    if !HasEmpty(es, |es|) {
      var ids := FullTable(es, |es|);
      forall v | v in ids
        ensures v in Values(values)
      {
        var k :| 0 <= k < |es| && es[k].id == v;
        OccursIff(values, v);
      }
      assert ids + {value} <= Values(values) + {value};
      SubsetSize(ids + {value}, Values(values) + {value});
    }
  }

  lemma {:induction false} SubsetSize(a: set<int>, b: set<int>)
    requires a <= b
    ensures |a| <= |b|
  {
    if exists x :: x in a {
      var x :| x in a;
      SubsetSize(a - {x}, b - {x});
    }
  }

  lemma ExactHit(es: seq<Entry>, es': seq<Entry>, values: seq<int>, n: nat, i: nat)
    requires n < |values| && values[n] != 0 && GoodEntries(es) && Exact(es, values[..n]) && HitEntry(es, values[n], es', i)
    ensures Exact(es', values[..n + 1])
  {
    hide Occurrences;
    forall k | 0 <= k < |es'| && es'[k].count > 0
      ensures es'[k].count == Occurrences(values[..n + 1], es'[k].id)
    {
      NextOccurrences(values, n, es'[k].id);
    }
    forall v | v in values[..n + 1]
      ensures Counted(es', v)
    {
      if v == values[n] {
        assert es'[i].id == v;
      } else {
        assert v in values[..n];
        var k :| 0 <= k < |es| && es[k].id == v && es[k].count > 0;
        assert es'[k].id == v;
      }
    }
  }

  lemma NotSampled(es: seq<Entry>, values: seq<int>, value: int)
    requires Exact(es, values) && Lacks(es, |es|, value)
    ensures value !in values
  {
    forall v | v in values
      ensures v != value
    {
      var k :| 0 <= k < |es| && es[k].id == v && es[k].count > 0;
    }
  }

  lemma ExactInsert(es: seq<Entry>, k: nat, values: seq<int>, n: nat)
    requires n < |values| && GoodEntries(es) && Exact(es, values[..n])
    requires Lacks(es, |es|, values[n]) && k < |es| && es[k].count == 0
    ensures Exact(es[k := Entry(values[n], 1)], values[..n + 1])
  {
    hide Occurrences;
    var es' := es[k := Entry(values[n], 1)];
    NotSampled(es, values[..n], values[n]);
    OccursIff(values[..n], values[n]);
    forall i | 0 <= i < |es'| && es'[i].count > 0
      ensures es'[i].count == Occurrences(values[..n + 1], es'[i].id)
    {
      NextOccurrences(values, n, es'[i].id);
    }
    forall v | v in values[..n + 1]
      ensures Counted(es', v)
    {
      if v == values[n] {
        assert es'[k].id == v;
      } else {
        assert v in values[..n];
        var i :| 0 <= i < |es| && es[i].id == v && es[i].count > 0;
        assert es'[i].id == v;
      }
    }
  }

  lemma ExactStep(before: Table, after: Table, values: seq<int>, n: nat, topN: nat)
    requires n < |values| && values[n] != 0 && |Values(values)| <= 2 * topN
    requires 1 <= topN && Good(before, topN) && Exact(before.entries, values[..n])
    requires Step(before, values[n], after, topN)
    ensures Exact(after.entries, values[..n + 1]) && after.evictions == before.evictions
  {
    hide Exact, GoodEntries, Cleared, Lacks, HasEmpty, Occurrences;
    var es, value := before.entries, values[n];
    if !Lacks(es, |es|, value) {
      var i :| HitEntry(es, value, after.entries, i);
      ExactHit(es, after.entries, values, n, i);
    } else {
      SubsetSize(Values(values[..n]) + {value}, Values(values));
      RoomForMore(es, values[..n], value);
      NonNegative(es);
      LeastUsedIsLeast(es, |es|);
      ExactInsert(es, LeastUsed(es, |es|), values, n);
    }
  }

  /** As long as there are no more values than entries, nothing is evicted and every count is exact. */
  lemma {:induction false} FewValuesCountedExactly(tables: seq<Table>, values: seq<int>, topN: nat, n: nat)
    requires IsRun(tables, values, topN) && n <= |values| && 0 !in values && |Values(values)| <= 2 * topN
    ensures Exact(tables[n].entries, values[..n]) && tables[n].evictions == 0
  {
    hide Exact, Good, Values, Step;
    if n == 0 {
      NothingCounted(tables[0].entries, values);
    } else {
      FewValuesCountedExactly(tables, values, topN, n - 1);
      RunIsSound(tables, values, topN, n - 1);
      ExactStep(tables[n - 1], tables[n], values, n - 1, topN);
    }
  }

  lemma NonNegative(es: seq<Entry>)
    requires GoodEntries(es)
    ensures forall i :: 0 <= i < |es| ==> es[i].count >= 0
  {
  }

  lemma NothingCounted(es: seq<Entry>, values: seq<int>)
    requires forall i :: 0 <= i < |es| ==> es[i] == Entry(0, 0)
    ensures Exact(es, values[..0])
  {
  }
}
