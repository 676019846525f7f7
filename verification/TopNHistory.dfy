/** Top-N tables over all runs: sampled in each run, and merged in any order. */
module TopNHistory {
  import opened IcallTopN
  import opened TopNProfiler
  import opened TopNRuns

  /**
   A table starts zeroed and takes samples. At the end of a run it is sorted and scaled by the sampling period, and then
   the entries of another table, as it was stored, are merged into it.
   */
  datatype History =
    | Fresh
    | Sampled(before: History, v: int, after: Table)
    | Sorted(before: History)
    | Scaled(before: History, period: nat)
    | Merged(into: History, from: History)

  function NoEntries(n: nat): (es: seq<Entry>)
    ensures |es| == n && forall i :: 0 <= i < n ==> es[i] == Entry(0, 0)
  {
    seq(n, i => Entry(0, 0))
  }

  function TableAfter(h: History, topN: nat): Table {
    match h
    case Fresh => Table(0, NoEntries(2 * topN))
    case Sampled(_, _, after) => after
    case Sorted(before) =>
      var t := TableAfter(before, topN);
      Table(t.evictions, Sort(t.entries))
    case Scaled(before, period) =>
      var t := TableAfter(before, topN);
      Table(t.evictions, ScaledTable(t.entries, period))
    case Merged(into, from) =>
      var t := TableAfter(into, topN);
      Table(t.evictions, MergedTable(t.entries, TableAfter(from, topN).entries))
  }

  /** Every sample is a step of the profiler. */
  ghost predicate Valid(h: History, topN: nat) {
    && 1 <= topN && |TableAfter(h, topN).entries| == 2 * topN
    && match h
       case Fresh => true
       case Sampled(before, v, after) => Valid(before, topN) && Step(TableAfter(before, topN), v, after, topN)
       case Sorted(before) => Valid(before, topN)
       case Scaled(before, _) => Valid(before, topN)
       case Merged(into, from) => Valid(into, topN) && Valid(from, topN)
  }

  /** How often a value was sampled. */
  function Occurs(h: History, x: int): nat {
    match h
    case Fresh => 0
    case Sampled(before, v, _) => Occurs(before, x) + if v == x then 1 else 0
    case Sorted(before) => Occurs(before, x)
    case Scaled(before, _) => Occurs(before, x)
    case Merged(into, from) => Occurs(into, x) + Occurs(from, x)
  }

  /** How many calls the samples of a value stand for: each of them as many as its table has been scaled by since. */
  function Calls(h: History, x: int): nat {
    match h
    case Fresh => 0
    case Sampled(before, v, _) => Calls(before, x) + if v == x then 1 else 0
    case Sorted(before) => Calls(before, x)
    case Scaled(before, period) => Calls(before, x) * Factor(period)
    case Merged(into, from) => Calls(into, x) + Calls(from, x)
  }

  lemma {:induction false} CallsOfSamples(h: History, x: int)
    ensures Occurs(h, x) <= Calls(h, x) && (Occurs(h, x) == 0 ==> Calls(h, x) == 0)
  {
    match h
    case Fresh =>
    case Sampled(before, _, _) => CallsOfSamples(before, x);
    case Sorted(before) => CallsOfSamples(before, x);
    case Scaled(before, period) =>
      CallsOfSamples(before, x);
      AtLeastOnce(Calls(before, x), Factor(period));
    case Merged(into, from) =>
      CallsOfSamples(into, x);
      CallsOfSamples(from, x);
  }

  lemma AtLeastOnce(n: nat, f: nat)
    requires f >= 1
    ensures n <= n * f && (n == 0 ==> n * f == 0)
  {
  }

  /** All scalings are by the given period. */
  predicate HasPeriod(h: History, period: nat) {
    match h
    case Fresh => true
    case Sampled(before, _, _) => HasPeriod(before, period)
    case Sorted(before) => HasPeriod(before, period)
    case Scaled(before, p) => p == period && HasPeriod(before, period)
    case Merged(into, from) => HasPeriod(into, period) && HasPeriod(from, period)
  }

  lemma {:induction false} EveryCallSampled(h: History, period: nat, x: int)
    requires HasPeriod(h, period) && period <= 1
    ensures Calls(h, x) == Occurs(h, x)
  {
    match h
    case Fresh =>
    case Sampled(before, _, _) => EveryCallSampled(before, period, x);
    case Sorted(before) => EveryCallSampled(before, period, x);
    case Scaled(before, _) => EveryCallSampled(before, period, x);
    case Merged(into, from) =>
      EveryCallSampled(into, period, x);
      EveryCallSampled(from, period, x);
  }

  // ---------- what entries count together ----------

  ghost predicate NonNegative(es: seq<Entry>) {
    forall e :: e in es ==> e.count >= 0
  }

  /** All entries of a value together count no more than it was sampled. */
  ghost predicate NoMoreThanSampled(es: seq<Entry>, h: History) {
    forall id :: CallsOf(es, id) <= Occurs(h, id)
  }

  lemma {:induction false} CallsOfNonNegative(s: seq<Entry>, id: int)
    requires NonNegative(s)
    ensures CallsOf(s, id) >= 0
    ensures forall e :: e in s && e.id == id ==> e.count <= CallsOf(s, id)
  {
    if s != [] {
      assert s == [s[0]] + s[1..];
      assert forall e :: e in s[1..] ==> e in s;
      CallsOfNonNegative(s[1..], id);
    }
  }

  lemma {:induction false} CallsOfUpdate(s: seq<Entry>, k: nat, e: Entry, id: int)
    requires k < |s|
    ensures CallsOf(s[k := e], id) ==
            CallsOf(s, id) - (if s[k].id == id then s[k].count else 0) + (if e.id == id then e.count else 0)
  {
    if k > 0 {
      CallsOfUpdate(s[1..], k - 1, e, id);
      assert s[k := e][1..] == s[1..][k - 1 := e];
    } else {
      assert s[k := e][1..] == s[1..];
    }
  }

  lemma {:induction false} CallsOfAbsent(s: seq<Entry>, id: int)
    requires forall i :: 0 <= i < |s| ==> s[i].id != id
    ensures CallsOf(s, id) == 0
  {
    if s != [] {
      CallsOfAbsent(s[1..], id);
    }
  }

  /** Emptying entries takes away what they count. */
  lemma {:induction false} CallsOfEmptied(s: seq<Entry>, r: seq<Entry>, id: int)
    requires NonNegative(s) && |r| == |s| && forall k :: 0 <= k < |s| ==> r[k] == s[k] || r[k] == Entry(0, 0)
    ensures CallsOf(r, id) <= CallsOf(s, id) && NonNegative(r)
  {
    if s != [] {
      assert s == [s[0]] + s[1..] && r == [r[0]] + r[1..];
      assert forall e :: e in s[1..] ==> e in s;
      CallsOfEmptied(s[1..], r[1..], id);
    }
  }

  lemma CallsOfFirst(s: seq<Entry>, n: nat, id: int)
    requires NonNegative(s) && n <= |s|
    ensures CallsOf(s[..n], id) <= CallsOf(s, id) && NonNegative(s[..n])
  {
    assert s == s[..n] + s[n..];
    assert forall e :: e in s[n..] ==> e in s;
    CallsOfConcat(s[..n], s[n..], id);
    CallsOfNonNegative(s[n..], id);
  }

  // ---------- samples ----------

  lemma HitCalls(es: seq<Entry>, value: int, es': seq<Entry>, i: nat, id: int)
    requires HitEntry(es, value, es', i) && NonNegative(es)
    ensures CallsOf(es', id) == CallsOf(es, id) + (if id == value then 1 else 0) && NonNegative(es')
  {
    assert es[i] in es;
    CallsOfUpdate(es, i, Entry(value, es[i].count + 1), id);
  }

  lemma InsertCalls(es: seq<Entry>, value: int, k: nat, id: int)
    requires NonNegative(es) && Lacks(es, |es|, value) && k < |es|
    ensures var es' := es[k := Entry(value, 1)];
            NonNegative(es') && CallsOf(es', id) <= CallsOf(es, id) + if id == value then 1 else 0
  {
    assert es[k] in es;
    CallsOfUpdate(es, k, Entry(value, 1), id);
  }

  lemma ClearCalls(es: seq<Entry>, after: seq<Entry>, slots: seq<nat>, topN: nat, id: int)
    requires Cleared(es, after, slots, topN) && NonNegative(es)
    ensures CallsOf(after, id) <= CallsOf(es, id) && NonNegative(after)
  {
    CallsOfEmptied(es, after, id);
  }

  /** A sample adds no more than one to what is counted of its value, and nothing to any other. */
  lemma StepCalls(before: Table, value: int, after: Table, topN: nat, id: int)
    requires 1 <= topN && |before.entries| == 2 * topN && NonNegative(before.entries)
    requires Step(before, value, after, topN)
    ensures NonNegative(after.entries)
    ensures CallsOf(after.entries, id) <= CallsOf(before.entries, id) + if id == value then 1 else 0
  {
    hide NonNegative, CallsOf, Lacks, HasEmpty, Cleared, HitEntry;
    var es := before.entries;
    if !Lacks(es, |es|, value) {
      var i :| HitEntry(es, value, after.entries, i);
      HitCalls(es, value, after.entries, i, id);
    } else {
      var k := LeastUsed(es, |es|);
      InsertCalls(es, value, k, id);
      var es' := es[k := Entry(value, 1)];
      if !HasEmpty(es, |es|) && before.evictions + 1 >= CLEAR_THRESHOLD {
        var slots :| Cleared(es', after.entries, slots, topN);
        ClearCalls(es', after.entries, slots, topN, id);
      }
    }
  }

  // ---------- merges ----------

  lemma {:induction false} CombineNonNegative(s: seq<Entry>, e: Entry)
    requires NonNegative(s) && e.count >= 0
    ensures NonNegative(Combine(s, e))
  {
    if s != [] {
      assert s == [s[0]] + s[1..];
      assert s[0] in s && forall x :: x in s[1..] ==> x in s;
      CombineNonNegative(s[1..], e);
    }
  }

  lemma {:induction false} CombineAllNonNegative(s: seq<Entry>, es: seq<Entry>)
    requires NonNegative(s) && NonNegative(es)
    ensures NonNegative(CombineAll(s, es))
  {
    if es != [] {
      var init, last := es[..|es| - 1], es[|es| - 1];
      assert last in es && forall x :: x in init ==> x in es;
      CombineAllNonNegative(s, init);
      CombineNonNegative(CombineAll(s, init), last);
    }
  }

  lemma SortNonNegative(s: seq<Entry>)
    requires NonNegative(s)
    ensures NonNegative(Sort(s))
  {
    SortCorrect(s);
    forall e | e in Sort(s)
      ensures e.count >= 0
    {
      assert e in multiset(Sort(s));
      assert e in multiset(s);
    }
  }

  /** A merged table counts no more than both tables together. */
  lemma MergeCalls(table: seq<Entry>, read: seq<Entry>, id: int)
    requires NonNegative(table) && NonNegative(read)
    ensures |MergedTable(table, read)| == |table| && NonNegative(MergedTable(table, read))
    ensures CallsOf(MergedTable(table, read), id) <= CallsOf(table, id) + CallsOf(read, id)
  {
    hide NonNegative, CallsOf, CombineAll, Sort;
    CombineAllNonNegative(table, read);
    SortNonNegative(CombineAll(table, read));
    MergeConserves(table, read, id);
    CallsOfFirst(Ranked(table, read), |table|, id);
  }

  /** An entry counts something exactly if it holds a value other than 0, and counted values differ. */
  ghost predicate Clean(es: seq<Entry>) {
    && (forall i :: 0 <= i < |es| ==> es[i].count >= 0 && (es[i].count == 0 <==> es[i].id == 0))
    && (forall i, j :: 0 <= i < j < |es| && es[i].count > 0 && es[j].count > 0 ==> es[i].id != es[j].id)
  }

  /** Among the entries, how many hold a value. */
  function Holding(s: seq<Entry>, id: int): nat {
    if s == [] then 0 else Holding(s[..|s| - 1], id) + if s[|s| - 1].id == id then 1 else 0
  }

  lemma HoldingAppend(s: seq<Entry>, e: Entry, id: int)
    ensures Holding(s + [e], id) == Holding(s, id) + if e.id == id then 1 else 0
  {
    assert (s + [e])[..|s|] == s;
  }

  lemma {:induction false} HoldingInsert(s: seq<Entry>, e: Entry, id: int)
    ensures Holding(InsertEntry(s, e), id) == Holding(s, id) + if e.id == id then 1 else 0
  {
    if s == [] || s[|s| - 1].count >= e.count {
      HoldingAppend(s, e, id);
    } else {
      var init, last := s[..|s| - 1], s[|s| - 1];
      HoldingInsert(init, e, id);
      HoldingAppend(InsertEntry(init, e), last, id);
    }
  }

  lemma {:induction false} HoldingSort(s: seq<Entry>, id: int)
    ensures Holding(Sort(s), id) == Holding(s, id)
  {
    if s != [] {
      HoldingSort(s[..|s| - 1], id);
      HoldingInsert(Sort(s[..|s| - 1]), s[|s| - 1], id);
    }
  }

  lemma {:induction false} HoldingOne(s: seq<Entry>, i: nat)
    requires i < |s|
    ensures Holding(s, s[i].id) >= 1
  {
    if i < |s| - 1 {
      HoldingOne(s[..|s| - 1], i);
    }
  }

  lemma {:induction false} HoldingTwo(s: seq<Entry>, i: nat, j: nat)
    requires i < j < |s| && s[i].id == s[j].id
    ensures Holding(s, s[i].id) >= 2
  {
    if j < |s| - 1 {
      HoldingTwo(s[..|s| - 1], i, j);
    } else {
      HoldingOne(s[..j], i);
    }
  }

  lemma {:induction false} HoldingAtMostOne(s: seq<Entry>, id: int)
    requires Clean(s) && id != 0
    ensures Holding(s, id) <= 1
    ensures Holding(s, id) == 1 ==> exists i :: 0 <= i < |s| && s[i].id == id
  {
    if s != [] {
      var init := s[..|s| - 1];
      HoldingAtMostOne(init, id);
      if Holding(init, id) == 1 {
        var i :| 0 <= i < |init| && init[i].id == id;
        assert s[i].count > 0 && s[i].id == id;
      }
    }
  }

  /** Entries are clean if no value but 0 is held twice. */
  lemma CleanIfHeldOnce(s: seq<Entry>)
    requires forall i :: 0 <= i < |s| ==> s[i].count >= 0 && (s[i].count == 0 <==> s[i].id == 0)
    requires forall id :: id != 0 ==> Holding(s, id) <= 1
    ensures Clean(s)
  {
    forall i, j | 0 <= i < j < |s| && s[i].count > 0 && s[j].count > 0
      ensures s[i].id != s[j].id
    {
      if s[i].id == s[j].id {
        HoldingTwo(s, i, j);
      }
    }
  }

  lemma {:induction false} CombineClean(s: seq<Entry>, e: Entry)
    requires Clean(s) && e.count >= 0 && (e.count == 0 <==> e.id == 0)
    ensures Clean(Combine(s, e))
    ensures forall x :: x in Combine(s, e) ==> x.id == e.id || x in s
  {
    if s != [] {
      CleanRest(s);
      if s[0].id == e.id {
        assert Combine(s, e) == s[0 := Entry(e.id, s[0].count + e.count)];
      } else {
        CombineClean(s[1..], e);
        PrependClean(s, Combine(s[1..], e), e);
      }
    }
  }

  lemma CleanRest(s: seq<Entry>)
    requires Clean(s) && s != []
    ensures Clean(s[1..]) && s == [s[0]] + s[1..]
  {
  }

  lemma PrependClean(s: seq<Entry>, rest: seq<Entry>, e: Entry)
    requires Clean(s) && s != [] && Clean(rest) && s[0].id != e.id
    requires forall x :: x in rest ==> x.id == e.id || x in s[1..]
    ensures Clean([s[0]] + rest)
  {
    forall j | 0 <= j < |rest| && s[0].count > 0 && rest[j].count > 0
      ensures rest[j].id != s[0].id
    {
      assert rest[j] in rest;
      if rest[j].id != e.id {
        var k :| 0 <= k < |s[1..]| && s[1..][k] == rest[j];
        assert s[k + 1] == rest[j];
      }
    }
  }

  lemma {:induction false} CombineAllClean(s: seq<Entry>, es: seq<Entry>)
    requires Clean(s) && Clean(es)
    ensures Clean(CombineAll(s, es))
  {
    if es != [] {
      var init, last := es[..|es| - 1], es[|es| - 1];
      assert Clean(init);
      CombineAllClean(s, init);
      CombineClean(CombineAll(s, init), last);
    }
  }

  lemma SortClean(s: seq<Entry>)
    requires Clean(s)
    ensures Clean(Sort(s))
  {
    var r := Sort(s);
    SortCorrect(s);
    forall i | 0 <= i < |r|
      ensures r[i].count >= 0 && (r[i].count == 0 <==> r[i].id == 0)
    {
      assert r[i] in multiset(r);
      assert r[i] in multiset(s);
      var k :| 0 <= k < |s| && s[k] == r[i];
    }
    forall id | id != 0
      ensures Holding(r, id) <= 1
    {
      HoldingSort(s, id);
      HoldingAtMostOne(s, id);
    }
    CleanIfHeldOnce(r);
  }

  /** Merging clean tables, with any number of empty entries, gives a clean table. */
  lemma MergedClean(table: seq<Entry>, read: seq<Entry>)
    requires Clean(table) && Clean(read)
    ensures Clean(MergedTable(table, read))
  {
    hide Clean, CombineAll, Sort;
    CombineAllClean(table, read);
    SortClean(CombineAll(table, read));
    FirstClean(Ranked(table, read), |table|);
  }

  lemma FirstClean(s: seq<Entry>, n: nat)
    requires Clean(s) && n <= |s|
    ensures Clean(s[..n])
  {
  }

  // ---------- histories ----------

  lemma FreshCounts(topN: nat)
    ensures NonNegative(TableAfter(Fresh, topN).entries) && forall id :: CallsOf(TableAfter(Fresh, topN).entries, id) == 0
    ensures Clean(TableAfter(Fresh, topN).entries)
  {
    var es := TableAfter(Fresh, topN).entries;
    forall id
      ensures CallsOf(es, id) == 0
    {
      ZeroCalls(es, id);
    }
  }

  lemma {:induction false} ZeroCalls(s: seq<Entry>, id: int)
    requires forall i :: 0 <= i < |s| ==> s[i] == Entry(0, 0)
    ensures CallsOf(s, id) == 0
  {
    if s != [] {
      ZeroCalls(s[1..], id);
    }
  }

  // ---------- sorting and scaling ----------

  lemma ScaledNonNegative(es: seq<Entry>, period: nat)
    requires NonNegative(es)
    ensures NonNegative(ScaledTable(es, period))
  {
    var r := ScaledTable(es, period);
    forall e | e in r
      ensures e.count >= 0
    {
      var i :| 0 <= i < |r| && r[i] == e;
      assert es[i] in es;
      ScaledSign(es[i].count, period);
    }
  }

  lemma ScaledSign(n: int, period: nat)
    requires n >= 0
    ensures n * period >= 0 && (period > 0 ==> (n * period == 0 <==> n == 0))
  {
  }

  lemma ScaledClean(es: seq<Entry>, period: nat)
    requires Clean(es)
    ensures Clean(ScaledTable(es, period))
  {
    if period > 1 {
      forall i | 0 <= i < |es|
        ensures es[i].count * period >= 0 && (es[i].count * period == 0 <==> es[i].count == 0)
      {
        ScaledSign(es[i].count, period);
      }
    }
  }

  lemma SortCalls(es: seq<Entry>, id: int)
    requires NonNegative(es)
    ensures NonNegative(Sort(es)) && CallsOf(Sort(es), id) == CallsOf(es, id)
  {
    SortNonNegative(es);
    CallsOfSort(es, id);
  }

  lemma ScaleCalls(es: seq<Entry>, period: nat, id: int, calls: nat)
    requires NonNegative(es) && CallsOf(es, id) <= calls
    ensures NonNegative(ScaledTable(es, period)) && CallsOf(ScaledTable(es, period), id) <= calls * Factor(period)
  {
    hide CallsOf, NonNegative, ScaledTable, Factor;
    ScaledNonNegative(es, period);
    CallsOfScaled(es, period, id);
    ScaledOrder(CallsOf(es, id), calls, Factor(period));
  }

  lemma ScaledOrder(a: int, b: int, f: nat)
    requires a <= b
    ensures a * f <= b * f
  {
  }

  // ---------- all runs ----------

  /** All entries of a value together count no more calls than its samples stand for. */
  ghost predicate NotOvercounted(h: History, topN: nat, id: int) {
    NonNegative(TableAfter(h, topN).entries) && CallsOf(TableAfter(h, topN).entries, id) <= Calls(h, id)
  }

  /** One step of a history, from the table or the tables before it. */
  lemma StepNeverOvercounts(h: History, topN: nat, id: int)
    requires Valid(h, topN)
    requires !h.Fresh? && !h.Merged? ==> NotOvercounted(h.before, topN, id)
    requires h.Merged? ==> NotOvercounted(h.into, topN, id) && NotOvercounted(h.from, topN, id)
    ensures NotOvercounted(h, topN, id)
  {
    hide NonNegative, CallsOf, Step, MergedTable, Sort, ScaledTable, Factor;
    match h
    case Fresh => FreshCounts(topN);
    case Sampled(before, v, after) => StepCalls(TableAfter(before, topN), v, after, topN, id);
    case Sorted(before) => SortCalls(TableAfter(before, topN).entries, id);
    case Scaled(before, period) => ScaleCalls(TableAfter(before, topN).entries, period, id, Calls(before, id));
    case Merged(into, from) => MergeCalls(TableAfter(into, topN).entries, TableAfter(from, topN).entries, id);
  }

  lemma {:induction false} ValueNeverOvercounted(h: History, topN: nat, id: int)
    requires Valid(h, topN)
    ensures NotOvercounted(h, topN, id)
  {
    hide NotOvercounted, Step, TableAfter;
    match h {
      case Fresh =>
      case Sampled(before, _, _) => ValueNeverOvercounted(before, topN, id);
      case Sorted(before) => ValueNeverOvercounted(before, topN, id);
      case Scaled(before, _) => ValueNeverOvercounted(before, topN, id);
      case Merged(into, from) =>
        ValueNeverOvercounted(into, topN, id);
        ValueNeverOvercounted(from, topN, id);
    }
    StepNeverOvercounts(h, topN, id);
  }

  /**
   Over all runs, however tables were sorted, scaled and merged, what is counted of a value is no more than the calls that
   its samples stand for.
   */
  lemma NeverOvercounted(h: History, topN: nat)
    requires Valid(h, topN)
    ensures forall id :: NotOvercounted(h, topN, id)
  {
    hide NotOvercounted, Valid;
    forall id
      ensures NotOvercounted(h, topN, id)
    {
      ValueNeverOvercounted(h, topN, id);
    }
  }

  /** No single entry counts more than the calls that all samples of its value stand for. */
  lemma EntryNeverOvercounted(h: History, topN: nat, e: Entry)
    requires Valid(h, topN) && e in TableAfter(h, topN).entries
    ensures 0 <= e.count <= Calls(h, e.id)
  {
    ValueNeverOvercounted(h, topN, e.id);
    CallsOfNonNegative(TableAfter(h, topN).entries, e.id);
  }

  /** A single sample, scaled by the period. */
  function OneSample(value: int, period: nat, topN: nat): (h: History)
    requires topN >= 1
  {
    var es := NoEntries(2 * topN);
    Scaled(Sampled(Fresh, value, Table(0, es[2 * topN - 1 := Entry(value, 1)])), period)
  }

  /** A single sample of a value other than 0 is counted as many times as the period says. */
  lemma OneSampleCounted(value: int, period: nat, topN: nat)
    requires topN >= 1 && value != 0
    ensures var h := OneSample(value, period, topN);
            && Valid(h, topN) && HasPeriod(h, period) && Occurs(h, value) == 1
            && CallsOf(TableAfter(h, topN).entries, value) == Factor(period)
  {
    hide CallsOf, ScaledTable, Step;
    var es := NoEntries(2 * topN);
    var one := es[2 * topN - 1 := Entry(value, 1)];
    FirstSample(value, topN);
    var sampled := Sampled(Fresh, value, Table(0, one));
    assert Valid(sampled, topN) && HasPeriod(sampled, period) && Occurs(sampled, value) == 1 by {
      assert Valid(Fresh, topN) && HasPeriod(Fresh, period) && Occurs(Fresh, value) == 0;
    }
    ZeroCalls(es, value);
    CallsOfUpdate(es, 2 * topN - 1, Entry(value, 1), value);
    CallsOfScaled(one, period, value);
  }

  lemma FirstSample(value: int, topN: nat)
    requires topN >= 1 && value != 0
    ensures var es := NoEntries(2 * topN);
            Step(Table(0, es), value, Table(0, es[2 * topN - 1 := Entry(value, 1)]), topN)
  {
    hide NoEntries;
    var es := NoEntries(2 * topN);
    var n: nat := 2 * topN - 1;
    assert es[n].count == 0;
    assert Lacks(es, |es|, value) && HasEmpty(es, |es|) && LeastUsed(es, |es|) == n;
  }

  /**
   Whatever happens over all runs, no value is counted more than it was sampled: this holds of a sampling period exactly if
   it is at most 1.
   */
  lemma NeverMoreThanSampledIff(period: nat, topN: nat)
    requires topN >= 1
    ensures (forall h :: Valid(h, topN) && HasPeriod(h, period) ==> NoMoreThanSampled(TableAfter(h, topN).entries, h))
            <==> period <= 1
  {
    hide Valid, CallsOf, Calls, Occurs, TableAfter;
    if period <= 1 {
      forall h | Valid(h, topN) && HasPeriod(h, period)
        ensures NoMoreThanSampled(TableAfter(h, topN).entries, h)
      {
        SampledIfEveryCall(h, period, topN);
      }
    } else {
      OneSampleCounted(7, period, topN);
      var h := OneSample(7, period, topN);
      assert CallsOf(TableAfter(h, topN).entries, 7) > Occurs(h, 7);
    }
  }

  lemma SampledIfEveryCall(h: History, period: nat, topN: nat)
    requires Valid(h, topN) && HasPeriod(h, period) && period <= 1
    ensures NoMoreThanSampled(TableAfter(h, topN).entries, h)
  {
    hide Valid, CallsOf, Calls, Occurs, TableAfter;
    forall id
      ensures CallsOf(TableAfter(h, topN).entries, id) <= Occurs(h, id)
    {
      ValueNeverOvercounted(h, topN, id);
      EveryCallSampled(h, period, id);
    }
  }

  /** With a period of 2, a value that was sampled once is counted twice. */
  lemma SampledOnceCountedTwice()
    ensures var h := OneSample(7, 2, 2);
            Valid(h, 2) && Occurs(h, 7) == 1 && CallsOf(TableAfter(h, 2).entries, 7) == 2
  {
    OneSampleCounted(7, 2, 2);
  }

  // ---------- distinct values ----------

  lemma CleanIsGood(es: seq<Entry>)
    requires Clean(es)
    ensures GoodEntries(es)
  {
  }

  lemma GoodIsClean(es: seq<Entry>)
    requires GoodEntries(es) && forall e :: e in es && e.count > 0 ==> e.id != 0
    ensures Clean(es)
  {
    forall i | 0 <= i < |es|
      ensures es[i].count == 0 <==> es[i].id == 0
    {
      assert es[i] in es;
    }
  }

  /** Over all runs without samples of 0, counted values stay distinct and clearings are not overdue. */
  lemma {:induction false} StaysGood(h: History, topN: nat)
    requires Valid(h, topN) && Occurs(h, 0) == 0
    ensures Clean(TableAfter(h, topN).entries) && Good(TableAfter(h, topN), topN)
  {
    hide Clean, Good, Step, MergedTable, Sort, ScaledTable;
    match h
    case Fresh => FreshGood(topN);
    case Sampled(before, v, after) =>
      StaysGood(before, topN);
      SampledGood(h, topN);
    case Sorted(before) =>
      StaysGood(before, topN);
      SortClean(TableAfter(before, topN).entries);
      ReplacedGood(TableAfter(before, topN), Sort(TableAfter(before, topN).entries), topN);
    case Scaled(before, period) =>
      StaysGood(before, topN);
      ScaledClean(TableAfter(before, topN).entries, period);
      ReplacedGood(TableAfter(before, topN), ScaledTable(TableAfter(before, topN).entries, period), topN);
    case Merged(into, from) =>
      StaysGood(into, topN);
      StaysGood(from, topN);
      MergedClean(TableAfter(into, topN).entries, TableAfter(from, topN).entries);
      ReplacedGood(TableAfter(into, topN), TableAfter(h, topN).entries, topN);
  }

  lemma FreshGood(topN: nat)
    ensures Clean(TableAfter(Fresh, topN).entries) && Good(TableAfter(Fresh, topN), topN)
  {
    FreshCounts(topN);
  }

  /** Clean entries in place of others leave a table good. */
  lemma ReplacedGood(t: Table, es: seq<Entry>, topN: nat)
    requires Good(t, topN) && Clean(es) && |es| == 2 * topN
    ensures Good(Table(t.evictions, es), topN)
  {
    hide GoodEntries, Clean;
    CleanIsGood(es);
  }

  lemma SampledGood(h: History, topN: nat)
    requires h.Sampled? && Valid(h, topN) && Occurs(h, 0) == 0
    requires Good(TableAfter(h.before, topN), topN)
    ensures Clean(TableAfter(h, topN).entries) && Good(TableAfter(h, topN), topN)
  {
    hide Clean, GoodEntries, Step;
    NoClashWithoutZero(TableAfter(h.before, topN).entries, h.v);
    StepKeepsIff(TableAfter(h.before, topN), h.v, h.after, topN);
    CallsOfSamples(h, 0);
    forall e | e in h.after.entries && e.count > 0
      ensures e.id != 0
    {
      EntryNeverOvercounted(h, topN, e);
    }
    GoodIsClean(h.after.entries);
  }

  lemma NoClashWithoutZero(es: seq<Entry>, v: int)
    requires v != 0
    ensures !ZeroClash(es, v)
  {
  }
}
