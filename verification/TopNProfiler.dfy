/** The profiler that keeps a table of frequent values and clears the less frequent half now and then. */
module TopNProfiler {
  import opened IcallTopN

  const CLEAR_THRESHOLD: nat := 3000

  /** Twice as many entries as values are wanted, and the number of evictions since the last clearing. */
  datatype Table = Table(evictions: int, entries: seq<Entry>)

  function TableOf(a: seq<int>, topN: nat): Table
    requires 1 + 4 * topN <= |a|
  {
    Table(a[0], Entries(a, 1, 2 * topN))
  }

  /** The entry that gives way to a new value: the last empty one, or the first of the least frequent. */
  function LeastUsed(es: seq<Entry>, n: nat): (k: nat)
    requires n <= |es|
    ensures k < n || n == k == 0
  {
    if n == 0 then 0
    else
      var k := LeastUsed(es, n - 1);
      if es[n - 1].count == 0 then n - 1
      else if es[n - 1].count < es[k].count then n - 1
      else k
  }

  predicate HasEmpty(es: seq<Entry>, n: nat)
    requires n <= |es|
  {
    exists i :: 0 <= i < n && es[i].count == 0
  }

  predicate Lacks(es: seq<Entry>, n: nat, value: int)
    requires n <= |es|
  {
    forall i :: 0 <= i < n ==> es[i].id != value
  }

  /** The given slots, topN different ones, are zeroed; no other is less frequent than any of them. */
  ghost predicate Cleared(es: seq<Entry>, after: seq<Entry>, slots: seq<nat>, topN: nat) {
    && |slots| == topN && |after| == |es|
    && Distinct(slots)
    && (forall m :: 0 <= m < |slots| ==> slots[m] < |es|)
    && (forall k :: 0 <= k < |es| ==> after[k] == if Free(slots, k) then es[k] else Entry(0, 0))
    && (forall m, k :: 0 <= m < |slots| && 0 <= k < |es| && Free(slots, k) ==> es[slots[m]].count <= es[k].count)
  }

  ghost predicate Distinct(slots: seq<nat>) {
    forall i, j :: 0 <= i < j < |slots| ==> slots[i] != slots[j]
  }

  predicate Free(slots: seq<nat>, k: nat) {
    forall m :: 0 <= m < |slots| ==> slots[m] != k
  }

  /** One sample, as it changes the table. */
  ghost predicate Step(before: Table, value: int, after: Table, topN: nat)
    requires 1 <= topN && |before.entries| == 2 * topN
  {
    var es := before.entries;
    if !Lacks(es, |es|, value) then
      after.evictions == before.evictions && exists i :: HitEntry(es, value, after.entries, i)
    else
      var es' := es[LeastUsed(es, |es|) := Entry(value, 1)];
      if HasEmpty(es, |es|) then after == Table(before.evictions, es')
      else if before.evictions + 1 < CLEAR_THRESHOLD then after == Table(before.evictions + 1, es')
      else after.evictions == 0 && exists slots :: Cleared(es', after.entries, slots, topN)
  }

  /** The first entry of the value is counted up. */
  ghost predicate HitEntry(es: seq<Entry>, value: int, es': seq<Entry>, i: nat) {
    i < |es| && es[i].id == value && Lacks(es, i, value) && es' == es[i := Entry(value, es[i].count + 1)]
  }

  // ---------- the profiler ----------

  method CountUp(a: array<int>, base: nat, n: nat, k: nat)
    requires base + 2 * n <= a.Length && k < n
    modifies a
    ensures var e := Entries(old(a[..]), base, n);
            Entries(a[..], base, n) == e[k := Entry(e[k].id, e[k].count + 1)]
    ensures Around(a[..], base, n) == Around(old(a[..]), base, n)
  {
    a[base + 2 * k + 1] := a[base + 2 * k + 1] + 1;
  }

  lemma ScanNext(es: seq<Entry>, i: nat, value: int)
    requires i < |es|
    ensures Lacks(es, i + 1, value) <==> Lacks(es, i, value) && es[i].id != value
    ensures HasEmpty(es, i + 1) <==> HasEmpty(es, i) || es[i].count == 0
  {
  }

  /** Looks for the value and counts it up if found; otherwise finds the entry that gives way. */
  method Scan(counters: array<int>, value: int, topN: nat) returns (found: bool, lfu: nat, haveZero: bool)
    requires 1 <= topN && 1 + 4 * topN <= counters.Length
    modifies counters
    ensures Around(counters[..], 1, 2 * topN) == Around(old(counters[..]), 1, 2 * topN)
    ensures var es := Entries(old(counters[..]), 1, 2 * topN); var es' := Entries(counters[..], 1, 2 * topN);
            && (found ==> exists i :: HitEntry(es, value, es', i))
            && (!found ==> es' == es && Lacks(es, |es|, value) && lfu == LeastUsed(es, |es|) && haveZero == HasEmpty(es, |es|))
  {
    hide Entries, Around, Lacks, HasEmpty;
    found, lfu, haveZero := false, 0, false;
    ghost var es := Entries(counters[..], 1, 2 * topN);
    NothingScanned(es, value);
    for i := 0 to 2 * topN
      invariant Entries(counters[..], 1, 2 * topN) == es && !found
      invariant Around(counters[..], 1, 2 * topN) == Around(old(counters[..]), 1, 2 * topN)
      invariant Lacks(es, i, value) && lfu == LeastUsed(es, i) && haveZero == HasEmpty(es, i)
    {
      var entry := GetEntry(counters, 1, 2 * topN, i);
      var least := GetEntry(counters, 1, 2 * topN, lfu);
      ScanNext(es, i, value);
      if entry.id == value {
        CountUp(counters, 1, 2 * topN, i);
        assert HitEntry(es, value, Entries(counters[..], 1, 2 * topN), i);
        found := true;
        return;
      } else if entry.count == 0 {
        lfu := i;
        haveZero := true;
      } else if entry.count < least.count {
        lfu := i;
      }
    }
  }

  lemma NothingScanned(es: seq<Entry>, value: int)
    ensures Lacks(es, 0, value) && !HasEmpty(es, 0)
  {
  }

  /** Slots 0 to topN - 1, and then whatever is less frequent than the most frequent slot so far. */
  method FindBottom(counters: array<int>, topN: nat) returns (slots: array<nat>)
    requires 1 <= topN && 1 + 4 * topN <= counters.Length
    ensures fresh(slots) && slots.Length == topN
    ensures Bottom(Entries(counters[..], 1, 2 * topN), slots[..], 2 * topN)
  {
    hide Entries, Bottom;
    slots := new nat[topN](i => i);
    ghost var es := Entries(counters[..], 1, 2 * topN);
    FirstSlots(es, slots[..]);
    for i := topN to 2 * topN
      invariant slots.Length == topN && Bottom(es, slots[..], i)
    {
      var p := MostFrequent(counters, topN, slots, i);
      var entry := GetEntry(counters, 1, 2 * topN, i);
      BottomSlot(es, slots[..], i, p);
      var top := GetEntry(counters, 1, 2 * topN, slots[p]);
      BottomNext(es, slots[..], i, p);
      if entry.count < top.count {
        slots[p] := i;
      }
    }
  }

  /** Which of the slots is the most frequent one. */
  method MostFrequent(counters: array<int>, topN: nat, slots: array<nat>, ghost n: nat) returns (p: nat)
    requires 1 <= topN && 1 + 4 * topN <= counters.Length && slots.Length == topN && n <= 2 * topN
    requires Bottom(Entries(counters[..], 1, 2 * topN), slots[..], n)
    ensures p < topN && IsTop(Entries(counters[..], 1, 2 * topN), slots[..], p, topN)
  {
    hide Entries, Bottom, IsTop;
    ghost var es := Entries(counters[..], 1, 2 * topN);
    p := 0;
    BottomSlot(es, slots[..], n, 0);
    OneSlot(es, slots[..]);
    for j := 1 to topN
      invariant p < topN && IsTop(es, slots[..], p, j)
    {
      BottomSlot(es, slots[..], n, j);
      BottomSlot(es, slots[..], n, p);
      var entry := GetEntry(counters, 1, 2 * topN, slots[j]);
      var top := GetEntry(counters, 1, 2 * topN, slots[p]);
      NextSlot(es, slots[..], p, j);
      if entry.count > top.count {
        p := j;
      }
    }
  }

  ghost predicate IsTop(es: seq<Entry>, slots: seq<nat>, p: nat, n: nat) {
    && p < n <= |slots| && (forall m :: 0 <= m < |slots| ==> slots[m] < |es|)
    && forall m :: 0 <= m < n ==> es[slots[m]].count <= es[slots[p]].count
  }

  lemma OneSlot(es: seq<Entry>, slots: seq<nat>)
    requires slots != [] && forall m :: 0 <= m < |slots| ==> slots[m] < |es|
    ensures IsTop(es, slots, 0, 1)
  {
  }

  lemma NextSlot(es: seq<Entry>, slots: seq<nat>, p: nat, j: nat)
    requires IsTop(es, slots, p, j) && j < |slots|
    ensures IsTop(es, slots, if es[slots[j]].count > es[slots[p]].count then j else p, j + 1)
  {
  }

  /** The slots are different ones among the first n, and no other of these is less frequent. */
  ghost predicate Bottom(es: seq<Entry>, slots: seq<nat>, n: nat) {
    && n <= |es| && Distinct(slots)
    && (forall m :: 0 <= m < |slots| ==> slots[m] < n)
    && (forall m, k :: 0 <= m < |slots| && 0 <= k < n && Free(slots, k) ==> es[slots[m]].count <= es[k].count)
  }

  lemma FirstSlots(es: seq<Entry>, slots: seq<nat>)
    requires |slots| <= |es| && forall i :: 0 <= i < |slots| ==> slots[i] == i
    ensures Bottom(es, slots, |slots|)
  {
    forall k | 0 <= k < |slots|
      ensures !Free(slots, k)
    {
      assert slots[k] == k;
    }
  }

  lemma BottomSlot(es: seq<Entry>, slots: seq<nat>, n: nat, p: nat)
    requires Bottom(es, slots, n) && p < |slots|
    ensures slots[p] < n <= |es|
    ensures forall m :: 0 <= m < |slots| ==> slots[m] < |es|
  {
  }

  lemma SwapSlot(es: seq<Entry>, slots: seq<nat>, i: nat, p: nat)
    requires Bottom(es, slots, i) && i < |es| && IsTop(es, slots, p, |slots|) && es[i].count < es[slots[p]].count
    ensures Bottom(es, slots[p := i], i + 1)
  {
    var slots' := slots[p := i];
    forall m, k | 0 <= m < |slots'| && 0 <= k < i + 1 && Free(slots', k)
      ensures es[slots'[m]].count <= es[k].count
    {
      assert es[slots'[m]].count <= es[slots[p]].count;
      if k != slots[p] {
        assert slots'[p] == i;
        StillFree(slots, p, i, k);
      }
    }
  }

  lemma StillFree(slots: seq<nat>, p: nat, i: nat, k: nat)
    requires p < |slots| && Free(slots[p := i], k) && k != slots[p]
    ensures Free(slots, k)
  {
    forall m | 0 <= m < |slots|
      ensures slots[m] != k
    {
      if m != p {
        assert slots[p := i][m] == slots[m];
      }
    }
  }

  /** A less frequent entry takes the place of the most frequent slot; any other stays out. */
  lemma BottomNext(es: seq<Entry>, slots: seq<nat>, i: nat, p: nat)
    requires Bottom(es, slots, i) && i < |es| && IsTop(es, slots, p, |slots|)
    ensures Bottom(es, if es[i].count < es[slots[p]].count then slots[p := i] else slots, i + 1)
  {
    if es[i].count < es[slots[p]].count {
      SwapSlot(es, slots, i, p);
    }
  }

  /** Zeroes the slots. */
  method ZeroSlots(counters: array<int>, topN: nat, slots: array<nat>)
    requires 1 <= topN && 1 + 4 * topN <= counters.Length && slots.Length == topN
    requires Bottom(Entries(counters[..], 1, 2 * topN), slots[..], 2 * topN)
    modifies counters
    ensures Cleared(Entries(old(counters[..]), 1, 2 * topN), Entries(counters[..], 1, 2 * topN), slots[..], topN)
    ensures Around(counters[..], 1, 2 * topN) == Around(old(counters[..]), 1, 2 * topN)
  {
    hide Entries, Around, Bottom, Cleared;
    ghost var es, bottom := Entries(counters[..], 1, 2 * topN), slots[..];
    ZeroedNone(es, bottom);
    for m := 0 to topN
      invariant slots[..] == bottom
      invariant Zeroed(es, Entries(counters[..], 1, 2 * topN), bottom, m)
      invariant Around(counters[..], 1, 2 * topN) == Around(old(counters[..]), 1, 2 * topN)
    {
      BottomSlot(es, bottom, 2 * topN, m);
      ZeroedNext(es, Entries(counters[..], 1, 2 * topN), bottom, m);
      SetEntry(counters, 1, 2 * topN, slots[m], Entry(0, 0));
    }
    ZeroedAll(es, Entries(counters[..], 1, 2 * topN), bottom, topN);
  }

  ghost predicate Zeroed(es: seq<Entry>, now: seq<Entry>, slots: seq<nat>, n: nat) {
    && n <= |slots| && |now| == |es|
    && forall k :: 0 <= k < |es| ==> now[k] == if Free(slots[..n], k) then es[k] else Entry(0, 0)
  }

  lemma ZeroedNone(es: seq<Entry>, slots: seq<nat>)
    ensures Zeroed(es, es, slots, 0)
  {
  }

  lemma ZeroedNext(es: seq<Entry>, now: seq<Entry>, slots: seq<nat>, m: nat)
    requires m < |slots| && slots[m] < |es| && Zeroed(es, now, slots, m)
    ensures Zeroed(es, now[slots[m] := Entry(0, 0)], slots, m + 1)
  {
    forall k | 0 <= k < |es|
      ensures Free(slots[..m + 1], k) <==> Free(slots[..m], k) && slots[m] != k
    {
      assert slots[..m + 1] == slots[..m] + [slots[m]];
      if Free(slots[..m + 1], k) {
        assert slots[..m + 1][m] != k;
        assert forall j :: 0 <= j < m ==> slots[..m][j] == slots[..m + 1][j];
      }
    }
  }

  lemma ZeroedAll(es: seq<Entry>, now: seq<Entry>, slots: seq<nat>, topN: nat)
    requires |slots| == topN && Zeroed(es, now, slots, topN) && Bottom(es, slots, |es|)
    ensures Cleared(es, now, slots, topN)
  {
    assert slots[..topN] == slots;
  }

  lemma SameAround(a: seq<int>, b: seq<int>, topN: nat)
    requires 1 + 4 * topN <= |a| && |b| == |a| && Around(a, 1, 2 * topN) == Around(b, 1, 2 * topN)
    ensures a[0] == b[0] && a[1 + 4 * topN..] == b[1 + 4 * topN..]
  {
    assert a[..1][0] == b[..1][0];
  }

  method SetEvictions(counters: array<int>, topN: nat, evictions: int)
    requires 1 + 4 * topN <= counters.Length
    modifies counters
    ensures TableOf(counters[..], topN) == Table(evictions, TableOf(old(counters[..]), topN).entries)
    ensures counters[1 + 4 * topN..] == old(counters[1 + 4 * topN..])
  {
    counters[0] := evictions;
  }

  /** Empties the less frequent half of the table. */
  method ClearBottom(counters: array<int>, topN: nat)
    requires 1 <= topN && 1 + 4 * topN <= counters.Length
    modifies counters
    ensures var t, t' := TableOf(old(counters[..]), topN), TableOf(counters[..], topN);
            t'.evictions == 0 && exists slots :: Cleared(t.entries, t'.entries, slots, topN)
    ensures counters[1 + 4 * topN..] == old(counters[1 + 4 * topN..])
  {
    hide Entries, Around, Bottom, Cleared;
    SetEvictions(counters, topN, 0);
    ghost var was := counters[..];
    var slots := FindBottom(counters, topN);
    ZeroSlots(counters, topN, slots);
    SameAround(was, counters[..], topN);
  }

  /** Takes one sample of a value into the table. */
  method TopNValueProfilerBody(counters: array<int>, value: int, topN: nat)
    requires 1 <= topN && 1 + 4 * topN <= counters.Length
    modifies counters
    ensures Step(TableOf(old(counters[..]), topN), value, TableOf(counters[..], topN), topN)
    ensures counters[1 + 4 * topN..] == old(counters[1 + 4 * topN..])
  {
    hide Entries, Around, Cleared, Lacks, HasEmpty;
    ghost var was := counters[..];
    ghost var es := Entries(was, 1, 2 * topN);
    var found, lfu, haveZero := Scan(counters, value, topN);
    if found {
      FoundNotLacking(es, value, Entries(counters[..], 1, 2 * topN));
    } else {
      SetEntry(counters, 1, 2 * topN, lfu, Entry(value, 1));
    }
    SameAround(was, counters[..], topN);
    if !found && !haveZero {
      var evictions := counters[0] + 1;
      SetEvictions(counters, topN, evictions);
      if evictions >= CLEAR_THRESHOLD {
        ClearBottom(counters, topN);
      }
    }
  }

  lemma FoundNotLacking(es: seq<Entry>, value: int, es': seq<Entry>)
    requires exists i :: HitEntry(es, value, es', i)
    ensures !Lacks(es, |es|, value)
  {
  }
}
