/** The profiler that keeps one candidate for the most common value, and the merge of its tables. */
module OneValue {
  import opened Powers
  import opened BlockIO

  /** The candidate, its counter, and the number of all samples. */
  datatype Table = Table(value: int, count: int, all: int)

  function Sampled(t: Table, v: int): Table {
    if v == t.value then Table(t.value, t.count + 1, t.all + 1)
    else if t.count == 0 then Table(v, 1, t.all + 1)
    else Table(t.value, t.count - 1, t.all + 1)
  }

  function Merged(t: Table, s: Table): Table {
    if t.value == s.value then Table(t.value, t.count + s.count, t.all + s.all)
    else if s.count > t.count then Table(s.value, s.count - t.count, t.all + s.all)
    else Table(t.value, t.count - s.count, t.all + s.all)
  }

  // ---------- all that can happen to a table ----------

  /** A table starts at zero, takes samples, and other tables are merged into it, in any order. */
  datatype History = Fresh | Sample(before: History, v: int) | Merge(into: History, from: History)

  function TableOf(h: History): Table {
    match h
    case Fresh => Table(0, 0, 0)
    case Sample(before, v) => Sampled(TableOf(before), v)
    case Merge(into, from) => Merged(TableOf(into), TableOf(from))
  }

  function Samples(h: History): nat {
    match h
    case Fresh => 0
    case Sample(before, _) => Samples(before) + 1
    case Merge(into, from) => Samples(into) + Samples(from)
  }

  function Occurrences(h: History, x: int): nat {
    match h
    case Fresh => 0
    case Sample(before, v) => Occurrences(before, x) + (if v == x then 1 else 0)
    case Merge(into, from) => Occurrences(into, x) + Occurrences(from, x)
  }

  /** The counter of a table that has seen a value n times bounds how far that is from half of all samples. */
  predicate Bounds(t: Table, x: int, n: nat) {
    0 <= t.count <= t.all && 2 * n <= (if x == t.value then t.all + t.count else t.all - t.count)
  }

  /** A sample or a merge changes the candidate only if its counter is used up, and then the other value takes its place. */
  lemma CandidateChangesIff(t: Table, v: int, s: Table)
    requires t.count >= 0 && s.count >= 0
    ensures Sampled(t, v).value != t.value <==> v != t.value && t.count == 0
    ensures Sampled(t, v).value == v || Sampled(t, v).count == t.count - 1
    ensures Merged(t, s).value != t.value <==> s.value != t.value && s.count > t.count
    ensures Merged(t, s).value == s.value || Merged(t, s).count == t.count - s.count
    ensures Merged(t, s).value == s.value ==>
            Merged(t, s).count == if t.value == s.value then s.count + t.count else s.count - t.count
  {
  }

  lemma SampleBounds(t: Table, v: int, x: int, n: nat)
    requires Bounds(t, x, n)
    ensures Bounds(Sampled(t, v), x, n + if v == x then 1 else 0)
  {
  }

  lemma MergeBounds(t: Table, s: Table, x: int, n: nat, m: nat)
    requires Bounds(t, x, n) && Bounds(s, x, m)
    ensures Bounds(Merged(t, s), x, n + m)
  {
  }

  lemma {:induction false} CounterBounds(h: History, x: int)
    ensures Bounds(TableOf(h), x, Occurrences(h, x)) && TableOf(h).all == Samples(h)
  {
    hide Bounds;
    match h
    case Fresh => NothingBounds(x);
    case Sample(before, v) =>
      CounterBounds(before, x);
      SampleBounds(TableOf(before), v, x, Occurrences(before, x));
    case Merge(into, from) =>
      CounterBounds(into, x);
      CounterBounds(from, x);
      MergeBounds(TableOf(into), TableOf(from), x, Occurrences(into, x), Occurrences(from, x));
  }

  lemma NothingBounds(x: int)
    ensures Bounds(Table(0, 0, 0), x, 0)
  {
  }

  /**
   A value that makes up more than half of all samples, over all runs and however their tables were
   merged, is the candidate in the end; and the last counter is the number of all samples.
   */
  lemma MajorityFound(h: History, x: int)
    ensures TableOf(h).all == Samples(h)
    ensures 2 * Occurrences(h, x) > Samples(h) ==> TableOf(h).value == x
  {
    CounterBounds(h, x);
  }

  // ---------- tables in arrays of counters ----------

  function TableAt(counters: seq<int>, base: nat): Table
    requires base + 3 <= |counters|
  {
    Table(counters[base], counters[base + 1], counters[base + 2])
  }

  method OneValueProfilerBody(counters: array<int>, base: nat, value: int)
    requires base + 3 <= counters.Length
    modifies counters
    ensures TableAt(counters[..], base) == Sampled(TableAt(old(counters[..]), base), value)
    ensures forall k :: 0 <= k < counters.Length && !(base <= k < base + 3) ==> counters[k] == old(counters[k])
  {
    if value == counters[base] {
      counters[base + 1] := counters[base + 1] + 1;
    } else if counters[base + 1] == 0 {
      counters[base + 1] := 1;
      counters[base] := value;
    } else {
      counters[base + 1] := counters[base + 1] - 1;
    }
    counters[base + 2] := counters[base + 2] + 1;
  }

  method MergeTable(counters: array<int>, base: nat, value: int, counter: int, all: int)
    requires base + 3 <= counters.Length
    modifies counters
    ensures TableAt(counters[..], base) == Merged(TableAt(old(counters[..]), base), Table(value, counter, all))
    ensures forall k :: 0 <= k < counters.Length && !(base <= k < base + 3) ==> counters[k] == old(counters[k])
  {
    if counters[base] == value {
      counters[base + 1] := counters[base + 1] + counter;
    } else if counter > counters[base + 1] {
      counters[base] := value;
      counters[base + 1] := counter - counters[base + 1];
    } else {
      counters[base + 1] := counters[base + 1] - counter;
    }
    counters[base + 2] := counters[base + 2] + all;
  }

  /** The tables of the first n counters, one in every width counters, after their merge. */
  ghost predicate TablesMerged(now: seq<int>, was: seq<int>, read: seq<int>, n: nat, width: nat)
    requires 3 <= width <= 4
  {
    && n <= |now| == |was| && n <= |read|
    && forall k :: 0 <= k && k + width <= n && k % width == 0 ==>
         TableAt(now, k + width - 3) == Merged(TableAt(was, k + width - 3), TableAt(read, k + width - 3))
  }

  /** All but the tables is as it was. */
  ghost predicate OthersKept(now: seq<int>, was: seq<int>, n: nat, width: nat)
    requires 3 <= width <= 4
  {
    && n <= |now| == |was| && now[n..] == was[n..]
    && (width == 4 ==> forall k :: 0 <= k < n && k % 4 == 0 ==> now[k] == was[k])
  }

  lemma NextTable(now: seq<int>, now': seq<int>, was: seq<int>, read: seq<int>, more: seq<int>, n: nat, width: nat)
    requires 3 <= width <= 4 && n % width == 0 && |read| == n && |more| == width && n + width <= |now| == |now'|
    requires TablesMerged(now, was, read, n, width) && OthersKept(now, was, n, width)
    requires TableAt(now', n + width - 3) == Merged(TableAt(now, n + width - 3), TableAt(more, width - 3))
    requires forall k :: 0 <= k < |now| && !(n + width - 3 <= k < n + width) ==> now'[k] == now[k]
    ensures TablesMerged(now', was, read + more, n + width, width) && OthersKept(now', was, n + width, width)
  {
    hide Merged, TableAt, OthersKept;
    OthersNext(now, now', was, n, width);
    forall k | 0 <= k && k + width <= n + width && k % width == 0
      ensures TableAt(now', k + width - 3) == Merged(TableAt(was, k + width - 3), TableAt(read + more, k + width - 3))
    {
      if k + width <= n {
        SameTable(now', now, k + width - 3);
        SameTable(read + more, read, k + width - 3);
      } else {
        MultiplesApart(k, n, width);
        UntouchedTable(now, was, n, width);
        AppendedTable(read, more, width);
      }
    }
  }

  lemma SameTable(a: seq<int>, b: seq<int>, k: nat)
    requires k + 3 <= |a| && k + 3 <= |b| && a[k] == b[k] && a[k + 1] == b[k + 1] && a[k + 2] == b[k + 2]
    ensures TableAt(a, k) == TableAt(b, k)
  {
  }

  lemma MultiplesApart(k: nat, n: nat, width: nat)
    requires 3 <= width <= 4 && k % width == 0 && n % width == 0 && k <= n < k + width
    ensures k == n
  {
    if width == 3 {
      MultiplesOfThree(k, n);
    } else {
      MultiplesOfFour(k, n);
    }
  }

  lemma MultiplesOfThree(k: nat, n: nat)
    requires k % 3 == 0 && n % 3 == 0 && k <= n < k + 3
    ensures k == n
  {
  }

  lemma MultiplesOfFour(k: nat, n: nat)
    requires k % 4 == 0 && n % 4 == 0 && k <= n < k + 4
    ensures k == n
  {
  }

  lemma UntouchedTable(now: seq<int>, was: seq<int>, n: nat, width: nat)
    requires 3 <= width <= 4 && OthersKept(now, was, n, width) && n + width <= |now|
    ensures TableAt(now, n + width - 3) == TableAt(was, n + width - 3)
  {
    forall k | n <= k < |now|
      ensures now[k] == was[k]
    {
      assert now[n..][k - n] == was[n..][k - n];
    }
  }

  lemma AppendedTable(read: seq<int>, more: seq<int>, width: nat)
    requires 3 <= width <= 4 && |more| == width
    ensures TableAt(read + more, |read| + width - 3) == TableAt(more, width - 3)
  {
  }

  lemma OthersNext(now: seq<int>, now': seq<int>, was: seq<int>, n: nat, width: nat)
    requires 3 <= width <= 4 && n % width == 0 && n + width <= |now| == |now'|
    requires OthersKept(now, was, n, width)
    requires forall k :: 0 <= k < |now| && !(n + width - 3 <= k < n + width) ==> now'[k] == now[k]
    ensures OthersKept(now', was, n + width, width)
  {
    var n' := n + width;
    forall k | n <= k < |now|
      ensures now[k] == was[k]
    {
      assert now[n..][k - n] == was[n..][k - n];
    }
    assert now'[n'..] == was[n'..];
    if width == 4 {
      forall k | 0 <= k < n' && k % 4 == 0
        ensures now'[k] == was[k]
      {
        if k >= n {
          MultiplesOfFour(n, k);
        }
      }
    }
  }

  /** Merges triples read from the file into the counters, one by one. */
  method MergeSingle(counters: array<int>, n: nat, r: Reader) returns (ok: bool)
    requires n <= counters.Length && r.Valid()
    modifies counters, r, r.buffer
    ensures r.Valid()
    ensures ok <==> n % 3 == 0
    ensures !ok ==> counters[..] == old(counters[..])
    ensures ok ==> r.Rest() == TakeCounters(old(r.Rest()), n).1
    ensures ok ==> TablesMerged(counters[..], old(counters[..]), TakeCounters(old(r.Rest()), n).0, n, 3)
    ensures ok ==> OthersKept(counters[..], old(counters[..]), n, 3)
  {
    ok := n % 3 == 0;
    if ok {
      MergeTriples(counters, n, r);
    }
  }

  method MergeTriples(counters: array<int>, n: nat, r: Reader)
    requires n <= counters.Length && r.Valid() && n % 3 == 0
    modifies counters, r, r.buffer
    ensures r.Valid() && r.Rest() == TakeCounters(old(r.Rest()), n).1
    ensures TablesMerged(counters[..], old(counters[..]), TakeCounters(old(r.Rest()), n).0, n, 3)
    ensures OthersKept(counters[..], old(counters[..]), n, 3)
  {
    hide Merged, TakeCounters, TablesMerged, OthersKept;
    ghost var rest, was := r.Rest(), counters[..];
    NothingTaken(rest);
    NoTables(was, 3);
    var base := 0;
    ghost var read := [];
    while base < n
      invariant base <= n && base % 3 == 0
      invariant r.Valid() && (read, r.Rest()) == TakeCounters(rest, base) && |read| == base
      invariant TablesMerged(counters[..], was, read, base, 3) && OthersKept(counters[..], was, base, 3)
    {
      TakeMore(rest, base, 3);
      ghost var more := MergeTriple(counters, base, r, was, read);
      read := read + more;
      base := base + 3;
    }
  }

  method MergeTriple(counters: array<int>, base: nat, r: Reader, ghost was: seq<int>, ghost read: seq<int>)
    returns (ghost more: seq<Counter>)
    requires base % 3 == 0 && base + 3 <= counters.Length && r.Valid() && |read| == base
    requires TablesMerged(counters[..], was, read, base, 3) && OthersKept(counters[..], was, base, 3)
    modifies counters, r, r.buffer
    ensures r.Valid() && (more, r.Rest()) == TakeCounters(old(r.Rest()), 3) && |more| == 3
    ensures TablesMerged(counters[..], was, read + more, base + 3, 3) && OthersKept(counters[..], was, base + 3, 3)
  {
    hide Merged, TakeCounters, TablesMerged, OthersKept;
    ghost var before := counters[..];
    var value, counter, all := ReadTable(r);
    MergeTable(counters, base, value, counter, all);
    more := [value, counter, all];
    NextTable(before, counters[..], was, read, more, base, 3);
  }

  method MergeQuadruple(counters: array<int>, base: nat, r: Reader, ghost was: seq<int>, ghost read: seq<int>)
    returns (ghost more: seq<Counter>)
    requires base % 4 == 0 && base + 4 <= counters.Length && r.Valid() && |read| == base
    requires TablesMerged(counters[..], was, read, base, 4) && OthersKept(counters[..], was, base, 4)
    modifies counters, r, r.buffer
    ensures r.Valid() && (more, r.Rest()) == TakeCounters(old(r.Rest()), 4) && |more| == 4
    ensures TablesMerged(counters[..], was, read + more, base + 4, 4) && OthersKept(counters[..], was, base + 4, 4)
  {
    hide Merged, TakeCounters, TablesMerged, OthersKept, NextCounter;
    ghost var before := counters[..];
    TakeMore(r.Rest(), 1, 3);
    TakeOne(r.Rest());
    var last := r.ReadCounter();
    var value, counter, all := ReadTable(r);
    MergeTable(counters, base + 1, value, counter, all);
    more := [last] + [value, counter, all];
    NextTable(before, counters[..], was, read, more, base, 4);
  }

  lemma NoTables(was: seq<int>, width: nat)
    requires 3 <= width <= 4
    ensures TablesMerged(was, was, [], 0, width) && OthersKept(was, was, 0, width)
  {
  }

  /** Merges quadruples; the first of each is the last value seen, which is not merged. */
  method MergeDelta(counters: array<int>, n: nat, r: Reader) returns (ok: bool)
    requires n <= counters.Length && r.Valid()
    modifies counters, r, r.buffer
    ensures r.Valid()
    ensures ok <==> n % 4 == 0
    ensures !ok ==> counters[..] == old(counters[..])
    ensures ok ==> r.Rest() == TakeCounters(old(r.Rest()), n).1
    ensures ok ==> TablesMerged(counters[..], old(counters[..]), TakeCounters(old(r.Rest()), n).0, n, 4)
    ensures ok ==> OthersKept(counters[..], old(counters[..]), n, 4)
  {
    ok := n % 4 == 0;
    if ok {
      MergeQuadruples(counters, n, r);
    }
  }

  method MergeQuadruples(counters: array<int>, n: nat, r: Reader)
    requires n <= counters.Length && r.Valid() && n % 4 == 0
    modifies counters, r, r.buffer
    ensures r.Valid() && r.Rest() == TakeCounters(old(r.Rest()), n).1
    ensures TablesMerged(counters[..], old(counters[..]), TakeCounters(old(r.Rest()), n).0, n, 4)
    ensures OthersKept(counters[..], old(counters[..]), n, 4)
  {
    hide Merged, TakeCounters, TablesMerged, OthersKept;
    ghost var rest, was := r.Rest(), counters[..];
    NothingTaken(rest);
    NoTables(was, 4);
    var base := 0;
    ghost var read := [];
    while base < n
      invariant base <= n && base % 4 == 0
      invariant r.Valid() && (read, r.Rest()) == TakeCounters(rest, base) && |read| == base
      invariant TablesMerged(counters[..], was, read, base, 4) && OthersKept(counters[..], was, base, 4)
    {
      TakeMore(rest, base, 4);
      ghost var more := MergeQuadruple(counters, base, r, was, read);
      read := read + more;
      base := base + 4;
    }
  }

  method ReadTable(r: Reader) returns (value: Counter, counter: Counter, all: Counter)
    requires r.Valid()
    modifies r, r.buffer
    ensures r.Valid() && ([value, counter, all], r.Rest()) == TakeCounters(old(r.Rest()), 3)
  {
    TakeThree(r.Rest());
    hide NextCounter;
    value := r.ReadCounter();
    counter := r.ReadCounter();
    all := r.ReadCounter();
  }
}
