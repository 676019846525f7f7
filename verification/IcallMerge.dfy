/** The merge of the tables of all indirect call sites with those read from the file, in place. */
module IcallMerge {
  import opened Powers
  import opened BlockIO
  import opened IcallTopN

  lemma {:induction false} CombineFound(s: seq<Entry>, e: Entry, m: nat)
    requires m < |s| && s[m].id == e.id && forall i :: 0 <= i < m ==> s[i].id != e.id
    ensures Combine(s, e) == s[m := Entry(e.id, s[m].count + e.count)]
  {
    if m > 0 {
      CombineFound(s[1..], e, m - 1);
      assert [s[0]] + s[1..][m - 1 := Entry(e.id, s[m].count + e.count)] == s[m := Entry(e.id, s[m].count + e.count)];
    }
  }

  lemma {:induction false} CombineNew(s: seq<Entry>, e: Entry)
    requires forall i :: 0 <= i < |s| ==> s[i].id != e.id
    ensures Combine(s, e) == s + [e]
  {
    if s != [] {
      CombineNew(s[1..], e);
    }
  }

  /** Adds an entry to the scratch array, which has j entries and room for more. */
  method AddEntry(tmp: array<int>, j: nat, id: int, count: int) returns (j': nat)
    requires 2 * j + 2 <= tmp.Length
    modifies tmp
    ensures j <= j' <= j + 1
    ensures Entries(tmp[..], 0, j') == Combine(Entries(old(tmp[..]), 0, j), Entry(id, count))
  {
    hide Combine;
    ghost var s := Entries(tmp[..], 0, j);
    for m := 0 to j
      invariant tmp[..] == old(tmp[..])
      invariant forall i :: 0 <= i < m ==> s[i].id != id
    {
      if tmp[2 * m] == id {
        CombineFound(s, Entry(id, count), m);
        tmp[2 * m + 1] := tmp[2 * m + 1] + count;
        return j;
      }
    }
    CombineNew(s, Entry(id, count));
    tmp[2 * j] := id;
    tmp[2 * j + 1] := count;
    j' := j + 1;
  }

  method ReadEntry(r: Reader) returns (id: Counter, count: Counter)
    requires r.Valid()
    modifies r, r.buffer
    ensures r.Valid() && ([id, count], r.Rest()) == TakeCounters(old(r.Rest()), 2)
  {
    TakeMore(r.Rest(), 1, 1);
    TakeOne(r.Rest());
    hide NextCounter, TakeCounters;
    id := r.ReadCounter();
    TakeOne(r.Rest());
    count := r.ReadCounter();
    assert [id] + [count] == [id, count];
  }

  /** Reads a table from the file into the scratch array, which already has the entries of another. */
  method AddTable(tmp: array<int>, r: Reader) returns (j: nat, ghost read: seq<Counter>)
    requires tmp.Length == 4 * TABLE_SIZE && r.Valid()
    modifies tmp, r, r.buffer
    ensures r.Valid() && (read, r.Rest()) == TakeCounters(old(r.Rest()), 2 * TABLE_SIZE) && |read| == 2 * TABLE_SIZE
    ensures j <= 2 * TABLE_SIZE
    ensures Entries(tmp[..], 0, j) == CombineAll(Entries(old(tmp[..]), 0, TABLE_SIZE), Entries(read, 0, TABLE_SIZE))
  {
    hide TakeCounters, Entries, Combine;
    j := TABLE_SIZE;
    read := [];
    ghost var rest := r.Rest();
    NothingTaken(rest);
    NoEntries(read);
    for k := 0 to TABLE_SIZE
      invariant r.Valid() && (read, r.Rest()) == TakeCounters(rest, 2 * k) && |read| == 2 * k
      invariant j <= TABLE_SIZE + k
      invariant Entries(tmp[..], 0, j) == CombineAll(Entries(old(tmp[..]), 0, TABLE_SIZE), Entries(read, 0, k))
    {
      TakeMore(rest, 2 * k, 2);
      var id, count := ReadEntry(r);
      j := AddEntry(tmp, j, id, count);
      MoreEntries(read, id, count, k);
      read := read + [id, count];
    }
  }

  lemma NoEntries(a: seq<int>)
    ensures Entries(a, 0, 0) == []
  {
  }

  lemma MoreEntries(a: seq<int>, id: int, count: int, k: nat)
    requires |a| == 2 * k
    ensures Entries(a + [id, count], 0, k + 1) == Entries(a, 0, k) + [Entry(id, count)]
    ensures (Entries(a, 0, k) + [Entry(id, count)])[..k] == Entries(a, 0, k)
  {
  }

  method CopyEntries(from: array<int>, fromBase: nat, to: array<int>, toBase: nat, n: nat)
    requires from != to && fromBase + 2 * n <= from.Length && toBase + 2 * n <= to.Length
    modifies to
    ensures Entries(to[..], toBase, n) == Entries(from[..], fromBase, n)
    ensures Around(to[..], toBase, n) == Around(old(to[..]), toBase, n)
  {
    for k := 0 to 2 * n
      invariant forall i :: 0 <= i < to.Length ==>
                  to[i] == if toBase <= i < toBase + k then from[fromBase + i - toBase] else old(to[i])
    {
      to[toBase + k] := from[fromBase + k];
    }
    assert to[..][..toBase] == old(to[..])[..toBase];
    assert to[..][toBase + 2 * n..] == old(to[..])[toBase + 2 * n..];
  }

  /** Merges the table of the call site whose counters begin at base; its eviction count is not merged. */
  method MergeSite(counters: array<int>, base: nat, r: Reader) returns (ghost more: seq<Counter>)
    requires base + SITE_COUNTERS <= counters.Length && r.Valid()
    modifies counters, r, r.buffer
    ensures r.Valid() && (more, r.Rest()) == TakeCounters(old(r.Rest()), SITE_COUNTERS) && |more| == SITE_COUNTERS
    ensures Entries(counters[..], base + 1, 4) == MergedTable(Entries(old(counters[..]), base + 1, 4), Entries(more, 1, 4))
    ensures Around(counters[..], base + 1, 4) == Around(old(counters[..]), base + 1, 4)
  {
    hide TakeCounters, Entries, CombineAll, Sort, Around;
    var tmp := new int[4 * TABLE_SIZE](_ => 0);
    CopyEntries(counters, base + 1, tmp, 0, TABLE_SIZE);
    TakeMore(r.Rest(), 1, 2 * TABLE_SIZE);
    TakeOne(r.Rest());
    var evictions := r.ReadCounter();
    var j;
    ghost var read;
    j, read := AddTable(tmp, r);
    more := [evictions] + read;
    EntriesBehind(evictions, read);
    SortNVals(tmp, 0, j);
    FirstEntries(tmp[..], j);
    CopyEntries(tmp, 0, counters, base + 1, TABLE_SIZE);
  }

  lemma EntriesBehind(first: int, a: seq<int>)
    requires |a| == 2 * TABLE_SIZE
    ensures Entries([first] + a, 1, TABLE_SIZE) == Entries(a, 0, TABLE_SIZE)
  {
  }

  lemma FirstEntries(a: seq<int>, j: nat)
    requires TABLE_SIZE <= j && 2 * j <= |a|
    ensures Entries(a, 0, TABLE_SIZE) == Entries(a, 0, j)[..TABLE_SIZE]
  {
  }

  /** The call site at k has been merged, and its eviction count is as it was. */
  ghost predicate SiteMerged(now: seq<int>, was: seq<int>, read: seq<int>, k: nat)
    requires k + SITE_COUNTERS <= |now| && k + SITE_COUNTERS <= |was| && k + SITE_COUNTERS <= |read|
  {
    && now[k] == was[k]
    && Entries(now, k + 1, TABLE_SIZE)
       == MergedTable(Entries(was, k + 1, TABLE_SIZE), Entries(read, k + 1, TABLE_SIZE))
  }

  /** The call sites of the first n counters have been merged, and nothing else has changed. */
  ghost predicate SitesMerged(now: seq<int>, was: seq<int>, read: seq<int>, n: nat) {
    && n <= |now| == |was| && n <= |read| && now[n..] == was[n..]
    && forall k :: 0 <= k && k + SITE_COUNTERS <= n && k % SITE_COUNTERS == 0 ==> SiteMerged(now, was, read, k)
  }

  lemma NextSite(now: seq<int>, now': seq<int>, was: seq<int>, read: seq<int>, more: seq<int>, n: nat)
    requires n % SITE_COUNTERS == 0 && |read| == n && |more| == SITE_COUNTERS && n + SITE_COUNTERS <= |now| == |now'|
    requires SitesMerged(now, was, read, n)
    requires Around(now', n + 1, TABLE_SIZE) == Around(now, n + 1, TABLE_SIZE)
    requires Entries(now', n + 1, TABLE_SIZE)
             == MergedTable(Entries(now, n + 1, TABLE_SIZE), Entries(more, 1, TABLE_SIZE))
    ensures SitesMerged(now', was, read + more, n + SITE_COUNTERS)
  {
    hide MergedTable, Entries, Around, SiteMerged;
    AroundMeans(now, now', n);
    BehindKept(now, was, n);
    forall k: nat | k + SITE_COUNTERS <= n + SITE_COUNTERS && k % SITE_COUNTERS == 0
      ensures SiteMerged(now', was, read + more, k)
    {
      if k + SITE_COUNTERS <= n {
        OldSite(now, now', was, read, read + more, k);
      } else {
        SitesApart(k, n);
        NewSite(now, now', was, read, more, n);
      }
    }
  }

  lemma AroundMeans(now: seq<int>, now': seq<int>, n: nat)
    requires n + SITE_COUNTERS <= |now| == |now'|
    requires Around(now', n + 1, TABLE_SIZE) == Around(now, n + 1, TABLE_SIZE)
    ensures forall i :: 0 <= i <= n ==> now'[i] == now[i]
    ensures now'[n + SITE_COUNTERS..] == now[n + SITE_COUNTERS..]
  {
    forall i | 0 <= i <= n
      ensures now'[i] == now[i]
    {
      assert now'[..n + 1][i] == now[..n + 1][i];
    }
  }

  lemma BehindKept(now: seq<int>, was: seq<int>, n: nat)
    requires n + SITE_COUNTERS <= |now| == |was| && now[n..] == was[n..]
    ensures forall i :: n <= i < |now| ==> now[i] == was[i]
    ensures now[n + SITE_COUNTERS..] == was[n + SITE_COUNTERS..]
  {
    forall i | n <= i < |now|
      ensures now[i] == was[i]
    {
      assert now[n..][i - n] == was[n..][i - n];
    }
  }

  lemma SitesApart(k: nat, n: nat)
    requires k % SITE_COUNTERS == 0 && n % SITE_COUNTERS == 0 && k <= n < k + SITE_COUNTERS
    ensures k == n
  {
    NinesApart(k, n);
  }

  lemma NinesApart(k: nat, n: nat)
    requires k % 9 == 0 && n % 9 == 0 && k <= n < k + 9
    ensures k == n
  {
  }

  lemma SameEntries(a: seq<int>, b: seq<int>, base: nat)
    requires base + 2 * TABLE_SIZE <= |a| && base + 2 * TABLE_SIZE <= |b|
    requires forall i :: base <= i < base + 2 * TABLE_SIZE ==> a[i] == b[i]
    ensures Entries(a, base, TABLE_SIZE) == Entries(b, base, TABLE_SIZE)
  {
  }

  lemma OldSite(now: seq<int>, now': seq<int>, was: seq<int>, read: seq<int>, read': seq<int>, k: nat)
    requires k + SITE_COUNTERS <= |now| && |now'| == |now| == |was| && k + SITE_COUNTERS <= |read| <= |read'|
    requires forall i :: 0 <= i < k + SITE_COUNTERS ==> now'[i] == now[i] && read'[i] == read[i]
    requires SiteMerged(now, was, read, k)
    ensures SiteMerged(now', was, read', k)
  {
    hide MergedTable, Entries;
    SameEntries(now', now, k + 1);
    SameEntries(read', read, k + 1);
  }

  lemma NewSite(now: seq<int>, now': seq<int>, was: seq<int>, read: seq<int>, more: seq<int>, n: nat)
    requires |read| == n && |more| == SITE_COUNTERS && n + SITE_COUNTERS <= |now| && |now'| == |now| == |was|
    requires now'[n] == now[n] && forall i :: n <= i < |now| ==> now[i] == was[i]
    requires Entries(now', n + 1, TABLE_SIZE)
             == MergedTable(Entries(now, n + 1, TABLE_SIZE), Entries(more, 1, TABLE_SIZE))
    ensures SiteMerged(now', was, read + more, n)
  {
    hide MergedTable, Entries;
    SameEntries(now, was, n + 1);
    ReadEntries(read, more);
  }

  lemma ReadEntries(read: seq<int>, more: seq<int>)
    requires |more| == SITE_COUNTERS
    ensures Entries(read + more, |read| + 1, TABLE_SIZE) == Entries(more, 1, TABLE_SIZE)
  {
  }

  /** Merges the tables of all call sites; fails if the counters are not whole sites. */
  method MergeIcallTopN(counters: array<int>, n: nat, r: Reader) returns (ok: bool)
    requires n <= counters.Length && r.Valid()
    modifies counters, r, r.buffer
    ensures r.Valid()
    ensures ok <==> n % 9 == 0
    ensures !ok ==> counters[..] == old(counters[..])
    ensures ok ==> r.Rest() == TakeCounters(old(r.Rest()), n).1
    ensures ok ==> SitesMerged(counters[..], old(counters[..]), TakeCounters(old(r.Rest()), n).0, n)
  {
    ok := n % SITE_COUNTERS == 0;
    if ok {
      MergeSites(counters, n, r);
    }
  }

  method MergeSites(counters: array<int>, n: nat, r: Reader)
    requires n <= counters.Length && r.Valid() && n % SITE_COUNTERS == 0
    modifies counters, r, r.buffer
    ensures r.Valid() && r.Rest() == TakeCounters(old(r.Rest()), n).1
    ensures SitesMerged(counters[..], old(counters[..]), TakeCounters(old(r.Rest()), n).0, n)
  {
    hide TakeCounters, SitesMerged, MergedTable, Entries, Around;
    ghost var rest, was := r.Rest(), counters[..];
    NothingTaken(rest);
    NoSites(was);
    var base := 0;
    ghost var read := [];
    while base < n
      invariant base <= n && base % SITE_COUNTERS == 0
      invariant r.Valid() && (read, r.Rest()) == TakeCounters(rest, base) && |read| == base
      invariant SitesMerged(counters[..], was, read, base)
    {
      ghost var before := counters[..];
      SiteFits(base, n);
      TakeMore(rest, base, SITE_COUNTERS);
      ghost var more := MergeSite(counters, base, r);
      NextSite(before, counters[..], was, read, more, base);
      read := read + more;
      base := base + SITE_COUNTERS;
    }
  }

  lemma SiteFits(base: nat, n: nat)
    requires base < n && base % SITE_COUNTERS == 0 && n % SITE_COUNTERS == 0
    ensures base + SITE_COUNTERS <= n && (base + SITE_COUNTERS) % SITE_COUNTERS == 0
  {
    if n < base + SITE_COUNTERS {
      NinesApart(base, n);
    }
  }

  lemma NoSites(was: seq<int>)
    ensures SitesMerged(was, was, [], 0)
  {
  }
}
