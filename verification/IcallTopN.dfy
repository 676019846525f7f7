/** Tables of the most frequent targets of indirect calls: how they are sorted and merged. */
module IcallTopN {

  /** A target and how often it was called. */
  datatype Entry = Entry(id: int, count: int)

  /** n entries of an array of counters, from place base on. */
  function Entries(a: seq<int>, base: nat, n: nat): (r: seq<Entry>)
    requires base + 2 * n <= |a|
    ensures |r| == n && forall i :: 0 <= i < n ==> r[i] == Entry(a[base + 2 * i], a[base + 2 * i + 1])
  {
    seq(n, i requires 0 <= i < n => Entry(a[base + 2 * i], a[base + 2 * i + 1]))
  }

  // ---------- sorting ----------

  /** Puts an entry behind all entries that are counted at least as often. */
  function InsertEntry(s: seq<Entry>, e: Entry): (r: seq<Entry>)
    ensures |r| == |s| + 1
  {
    if s == [] || s[|s| - 1].count >= e.count then s + [e]
    else InsertEntry(s[..|s| - 1], e) + [s[|s| - 1]]
  }

  function Sort(s: seq<Entry>): (r: seq<Entry>)
    ensures |r| == |s|
  {
    if s == [] then [] else InsertEntry(Sort(s[..|s| - 1]), s[|s| - 1])
  }

  ghost predicate Descending(s: seq<Entry>) {
    forall i, j :: 0 <= i < j < |s| ==> s[j].count <= s[i].count
  }

  /** The entries with a given count, in order. */
  function WithCount(s: seq<Entry>, c: int): seq<Entry> {
    if s == [] then []
    else WithCount(s[..|s| - 1], c) + (if s[|s| - 1].count == c then [s[|s| - 1]] else [])
  }

  lemma WithCountAppend(s: seq<Entry>, e: Entry, c: int)
    ensures WithCount(s + [e], c) == WithCount(s, c) + (if e.count == c then [e] else [])
  {
    assert (s + [e])[..|s|] == s;
  }

  lemma {:induction false} InsertDescending(s: seq<Entry>, e: Entry)
    requires Descending(s)
    ensures Descending(InsertEntry(s, e))
    ensures forall x :: x in InsertEntry(s, e) <==> x == e || x in s
  {
    if s != [] && s[|s| - 1].count < e.count {
      var init, last := s[..|s| - 1], s[|s| - 1];
      InsertDescending(init, e);
      var r := InsertEntry(init, e);
      assert s == init + [last];
      forall i | 0 <= i < |r|
        ensures last.count <= r[i].count
      {
        assert r[i] in r;
      }
    }
  }

  lemma {:induction false} InsertStable(s: seq<Entry>, e: Entry, c: int)
    requires Descending(s)
    ensures WithCount(InsertEntry(s, e), c) == WithCount(s, c) + (if e.count == c then [e] else [])
  {
    WithCountAppend(s, e, c);
    if s != [] && s[|s| - 1].count < e.count {
      var init, last := s[..|s| - 1], s[|s| - 1];
      InsertStable(init, e, c);
      WithCountAppend(InsertEntry(init, e), last, c);
    }
  }

  lemma {:induction false} InsertPermutes(s: seq<Entry>, e: Entry)
    ensures multiset(InsertEntry(s, e)) == multiset(s) + multiset{e}
  {
    if s != [] && s[|s| - 1].count < e.count {
      var init, last := s[..|s| - 1], s[|s| - 1];
      InsertPermutes(init, e);
      assert s == init + [last];
    }
  }

  /** Sorting is a permutation in descending order that keeps entries of equal counts in order. */
  lemma {:induction false} SortCorrect(s: seq<Entry>)
    ensures Descending(Sort(s)) && multiset(Sort(s)) == multiset(s)
    ensures forall c :: WithCount(Sort(s), c) == WithCount(s, c)
  {
    if s != [] {
      var init, last := s[..|s| - 1], s[|s| - 1];
      assert s == init + [last];
      SortCorrect(init);
      InsertDescending(Sort(init), last);
      InsertPermutes(Sort(init), last);
      forall c
        ensures WithCount(Sort(s), c) == WithCount(s, c)
      {
        InsertStable(Sort(init), last, c);
      }
    }
  }

  /** The counters before and behind n entries. */
  function Around(a: seq<int>, base: nat, n: nat): (seq<int>, seq<int>)
    requires base + 2 * n <= |a|
  {
    (a[..base], a[base + 2 * n..])
  }

  method GetEntry(a: array<int>, base: nat, n: nat, k: nat) returns (e: Entry)
    requires base + 2 * n <= a.Length && k < n
    ensures e == Entries(a[..], base, n)[k]
  {
    e := Entry(a[base + 2 * k], a[base + 2 * k + 1]);
  }

  method SetEntry(a: array<int>, base: nat, n: nat, k: nat, e: Entry)
    requires base + 2 * n <= a.Length && k < n
    modifies a
    ensures Entries(a[..], base, n) == Entries(old(a[..]), base, n)[k := e]
    ensures Around(a[..], base, n) == Around(old(a[..]), base, n)
  {
    a[base + 2 * k] := e.id;
    a[base + 2 * k + 1] := e.count;
  }

  /** Sorts n entries of an array in place. */
  method SortNVals(a: array<int>, base: nat, n: nat)
    requires base + 2 * n <= a.Length
    modifies a
    ensures Entries(a[..], base, n) == Sort(Entries(old(a[..]), base, n))
    ensures Around(a[..], base, n) == Around(old(a[..]), base, n)
  {
    hide Entries, Around, InsertEntry, Sort;
    ghost var all := Entries(a[..], base, n);
    SortEnds(all);
    if n == 0 {
      return;
    }
    SortNext(all, 0);
    var j := 1;
    while j < n
      invariant j <= n
      invariant Entries(a[..], base, n) == Sort(all[..j]) + all[j..]
      invariant Around(a[..], base, n) == Around(old(a[..]), base, n)
    {
      SortNext(all, j);
      SinkEntry(a, base, n, j);
      j := j + 1;
    }
  }

  lemma SortEnds(all: seq<Entry>)
    ensures Sort(all[..|all|]) + all[|all|..] == Sort(all)
    ensures |all| == 0 ==> Sort(all) == all
  {
    assert all[..|all|] == all;
  }

  lemma SortNext(all: seq<Entry>, j: nat)
    requires j < |all|
    ensures j == 0 ==> Sort(all[..1]) + all[1..] == all
    ensures var e := Sort(all[..j]) + all[j..];
            |e| == |all| && InsertEntry(e[..j], e[j]) + e[j + 1..] == Sort(all[..j + 1]) + all[j + 1..]
  {
    assert all[..j + 1][..j] == all[..j] && all[..j + 1][j] == all[j];
    var e := Sort(all[..j]) + all[j..];
    assert e[..j] == Sort(all[..j]) && e[j] == all[j] && e[j + 1..] == all[j + 1..];
    if j == 0 {
      assert Sort(all[..1]) == [all[0]];
    }
  }

  /** Moves entry j down to its place among the sorted entries before it. */
  method SinkEntry(a: array<int>, base: nat, n: nat, j: nat)
    requires base + 2 * n <= a.Length && j < n
    modifies a
    ensures var e := Entries(old(a[..]), base, n);
            Entries(a[..], base, n) == InsertEntry(e[..j], e[j]) + e[j + 1..]
    ensures Around(a[..], base, n) == Around(old(a[..]), base, n)
  {
    hide Entries, Around, Sinking, InsertEntry;
    var current := GetEntry(a, base, n, j);
    ghost var was := Entries(a[..], base, n);
    ghost var s := was[..j];
    SinkBegins(was, j);
    var k: int := j - 1;
    while k >= 0
      invariant -1 <= k < j
      invariant Sinking(Entries(a[..], base, n), was, j, k)
      invariant Around(a[..], base, n) == Around(old(a[..]), base, n)
    {
      var e := GetEntry(a, base, n, k);
      if e.count >= current.count {
        break;
      }
      SinkStep(Entries(a[..], base, n), was, j, k);
      SetEntry(a, base, n, k + 1, e);
      k := k - 1;
    }
    SinkEnds(Entries(a[..], base, n), was, j, k);
    SetEntry(a, base, n, k + 1, current);
  }

  /** Entries k + 1 to j - 1 of the sorted ones have been moved up by one place. */
  ghost predicate Sinking(now: seq<Entry>, was: seq<Entry>, j: nat, k: int)
    requires -1 <= k < j < |was|
  {
    && |now| == |was|
    && (forall i :: 0 <= i <= k ==> now[i] == was[i])
    && (forall i :: k + 2 <= i <= j ==> now[i] == was[i - 1])
    && (forall i :: j < i < |was| ==> now[i] == was[i])
    && InsertEntry(was[..j], was[j]) == InsertEntry(was[..k + 1], was[j]) + was[k + 1..j]
  }

  lemma SinkBegins(was: seq<Entry>, j: nat)
    requires j < |was|
    ensures Sinking(was, was, j, j - 1)
  {
    assert was[j..j] == [];
  }

  lemma SinkStep(now: seq<Entry>, was: seq<Entry>, j: nat, k: nat)
    requires k < j < |was| && Sinking(now, was, j, k) && now[k].count < was[j].count
    ensures Sinking(now[k + 1 := now[k]], was, j, k - 1)
  {
    assert was[..k + 1][..k] == was[..k];
    assert [was[k]] + was[k + 1..j] == was[k..j];
  }

  lemma SinkEnds(now: seq<Entry>, was: seq<Entry>, j: nat, k: int)
    requires -1 <= k < j < |was| && Sinking(now, was, j, k)
    requires k >= 0 ==> now[k].count >= was[j].count
    ensures now[k + 1 := was[j]] == InsertEntry(was[..j], was[j]) + was[j + 1..]
  {
    assert InsertEntry(was[..k + 1], was[j]) == was[..k + 1] + [was[j]];
  }

  // ---------- merging ----------

  const TABLE_SIZE: nat := 4
  const SITE_COUNTERS: nat := 9

  /** Adds an entry to the first one of the same target, or behind all others. */
  function Combine(s: seq<Entry>, e: Entry): (r: seq<Entry>)
    ensures |s| <= |r| <= |s| + 1
  {
    if s == [] then [e]
    else if s[0].id == e.id then [Entry(s[0].id, s[0].count + e.count)] + s[1..]
    else [s[0]] + Combine(s[1..], e)
  }

  function CombineAll(s: seq<Entry>, es: seq<Entry>): (r: seq<Entry>)
    ensures |s| <= |r| <= |s| + |es|
  {
    if es == [] then s else Combine(CombineAll(s, es[..|es| - 1]), es[|es| - 1])
  }

  /** All entries of two tables, the most frequent first. */
  function Ranked(table: seq<Entry>, read: seq<Entry>): (r: seq<Entry>)
    ensures |table| <= |r| <= |table| + |read|
  {
    Sort(CombineAll(table, read))
  }

  function MergedTable(table: seq<Entry>, read: seq<Entry>): seq<Entry> {
    Ranked(table, read)[..|table|]
  }

  /**
   An entry never moves while others are combined: it keeps its place and its target, so that the entries
   of the table come first, and then the new targets in the order in which they were read.
   */
  lemma {:induction false} PlacesKept(table: seq<Entry>, es: seq<Entry>, m: nat, i: nat)
    requires m <= |es| && i < |CombineAll(table, es[..m])|
    ensures i < |CombineAll(table, es)| && CombineAll(table, es)[i].id == CombineAll(table, es[..m])[i].id
    decreases |es|
  {
    hide Combine;
    if m == |es| {
      assert es[..m] == es;
    } else {
      var init, last := es[..|es| - 1], es[|es| - 1];
      assert init[..m] == es[..m];
      PlacesKept(table, init, m, i);
      PlaceKept(CombineAll(table, init), last, i);
    }
  }

  lemma {:induction false} PlaceKept(s: seq<Entry>, e: Entry, i: nat)
    requires i < |s|
    ensures i < |Combine(s, e)| && Combine(s, e)[i].id == s[i].id
    ensures |Combine(s, e)| > |s| ==> Combine(s, e)[|s|] == e
  {
    if s[0].id != e.id && 1 < |s| {
      PlaceKept(s[1..], e, if i == 0 then 0 else i - 1);
    }
  }

  /** How often a target was called according to a table. */
  function CallsOf(s: seq<Entry>, id: int): int {
    if s == [] then 0 else (if s[0].id == id then s[0].count else 0) + CallsOf(s[1..], id)
  }

  lemma {:induction false} CallsOfCombine(s: seq<Entry>, e: Entry, id: int)
    ensures CallsOf(Combine(s, e), id) == CallsOf(s, id) + (if e.id == id then e.count else 0)
  {
    if s != [] {
      if s[0].id != e.id {
        CallsOfCombine(s[1..], e, id);
        assert Combine(s, e)[1..] == Combine(s[1..], e);
      } else {
        assert Combine(s, e)[1..] == s[1..];
      }
    }
  }

  lemma {:induction false} CallsOfConcat(s: seq<Entry>, t: seq<Entry>, id: int)
    ensures CallsOf(s + t, id) == CallsOf(s, id) + CallsOf(t, id)
  {
    if s == [] {
      assert s + t == t;
    } else {
      CallsOfConcat(s[1..], t, id);
      assert (s + t)[1..] == s[1..] + t;
    }
  }

  lemma {:induction false} CallsOfCombineAll(s: seq<Entry>, es: seq<Entry>, id: int)
    ensures CallsOf(CombineAll(s, es), id) == CallsOf(s, id) + CallsOf(es, id)
  {
    if es != [] {
      var init, last := es[..|es| - 1], es[|es| - 1];
      CallsOfCombineAll(s, init, id);
      CallsOfCombine(CombineAll(s, init), last, id);
      CallsOfConcat(init, [last], id);
      assert init + [last] == es;
    }
  }

  lemma {:induction false} CallsOfInsert(s: seq<Entry>, e: Entry, id: int)
    ensures CallsOf(InsertEntry(s, e), id) == CallsOf(s, id) + (if e.id == id then e.count else 0)
  {
    if s == [] || s[|s| - 1].count >= e.count {
      CallsOfConcat(s, [e], id);
    } else {
      var init, last := s[..|s| - 1], s[|s| - 1];
      CallsOfInsert(init, e, id);
      CallsOfConcat(InsertEntry(init, e), [last], id);
      CallsOfConcat(init, [last], id);
      assert s == init + [last];
    }
  }

  lemma {:induction false} CallsOfSort(s: seq<Entry>, id: int)
    ensures CallsOf(Sort(s), id) == CallsOf(s, id)
  {
    if s != [] {
      var init, last := s[..|s| - 1], s[|s| - 1];
      CallsOfSort(init, id);
      CallsOfInsert(Sort(init), last, id);
      CallsOfConcat(init, [last], id);
      assert s == init + [last];
    }
  }

  /**
   Merging two tables conserves the calls of every target before the table is cut to its size; the
   entries that are kept are in descending order, and none that is dropped is counted more often than
   any of them.
   */
  lemma MergeConserves(table: seq<Entry>, read: seq<Entry>, id: int)
    ensures var all := Ranked(table, read); var kept := MergedTable(table, read);
            && CallsOf(all, id) == CallsOf(table, id) + CallsOf(read, id)
            && all == kept + all[|table|..] && |kept| == |table|
            && Descending(kept)
            && forall k, d :: k in kept && d in all[|table|..] ==> d.count <= k.count
  {
    hide CombineAll, Sort, Descending, CallsOf;
    var all := Ranked(table, read);
    CallsOfCombineAll(table, read, id);
    CallsOfSort(CombineAll(table, read), id);
    SortCorrect(CombineAll(table, read));
    CutDescending(all, |table|);
  }

  lemma CutDescending(all: seq<Entry>, n: nat)
    requires Descending(all) && n <= |all|
    ensures all == all[..n] + all[n..] && Descending(all[..n])
    ensures forall k, d :: k in all[..n] && d in all[n..] ==> d.count <= k.count
  {
    forall k, d | k in all[..n] && d in all[n..]
      ensures d.count <= k.count
    {
      var i :| 0 <= i < n && all[..n][i] == k;
      var j :| 0 <= j < |all| - n && all[n..][j] == d;
      assert all[i] == k && all[n + j] == d;
    }
  }

  // ---------- scaling ----------

  /** A table of sampled calls, with each count multiplied by the sampling period, unless every call was sampled. */
  function ScaledTable(es: seq<Entry>, period: nat): (r: seq<Entry>)
    ensures |r| == |es| && forall i :: 0 <= i < |es| ==> r[i].id == es[i].id
  {
    if period <= 1 then es else seq(|es|, i requires 0 <= i < |es| => Entry(es[i].id, es[i].count * period))
  }

  /** How often a sample counts once its table has been scaled. */
  function Factor(period: nat): (f: nat)
    ensures f >= 1 && (period >= 1 ==> f == period)
  {
    if period <= 1 then 1 else period
  }

  lemma {:induction false} CallsOfScaled(es: seq<Entry>, period: nat, id: int)
    ensures CallsOf(ScaledTable(es, period), id) == CallsOf(es, id) * Factor(period)
  {
    if es != [] && period > 1 {
      var rest := es[1..];
      CallsOfScaled(rest, period, id);
      assert ScaledTable(es, period)[1..] == ScaledTable(rest, period);
      Distribute(if es[0].id == id then es[0].count else 0, CallsOf(rest, id), period);
    }
  }

  lemma Distribute(a: int, b: int, c: int)
    ensures (a + b) * c == a * c + b * c
  {
  }
}
