/** What happens to the tables of all indirect call sites at the end of a run, before they are merged. */
module IcallExit {
  import opened IcallTopN
  import opened IcallMerge

  /** Tables are sorted first, and then scaled by the sampling period. */
  datatype ExitStep = SortTables | ScaleTables(period: nat)

  function TableAfterExit(es: seq<Entry>, step: ExitStep): seq<Entry> {
    match step
    case SortTables => Sort(es)
    case ScaleTables(period) => ScaledTable(es, period)
  }

  /** The step has been taken for the call site at k, and its eviction count is as it was. */
  ghost predicate SiteDone(now: seq<int>, was: seq<int>, k: nat, step: ExitStep)
    requires k + SITE_COUNTERS <= |now| && k + SITE_COUNTERS <= |was|
  {
    && now[k] == was[k]
    && Entries(now, k + 1, TABLE_SIZE) == TableAfterExit(Entries(was, k + 1, TABLE_SIZE), step)
  }

  /** The step has been taken for the call sites of the first n counters, and nothing else has changed. */
  ghost predicate SitesDone(now: seq<int>, was: seq<int>, n: nat, step: ExitStep) {
    && n <= |now| == |was| && now[n..] == was[n..]
    && forall k :: 0 <= k && k + SITE_COUNTERS <= n && k % SITE_COUNTERS == 0 ==> SiteDone(now, was, k, step)
  }

  lemma NoSitesDone(was: seq<int>, step: ExitStep)
    ensures SitesDone(was, was, 0, step)
  {
  }

  lemma OneMoreSite(now: seq<int>, now': seq<int>, was: seq<int>, n: nat, step: ExitStep)
    requires n % SITE_COUNTERS == 0 && n + SITE_COUNTERS <= |now| == |now'| && SitesDone(now, was, n, step)
    requires Around(now', n + 1, TABLE_SIZE) == Around(now, n + 1, TABLE_SIZE)
    requires Entries(now', n + 1, TABLE_SIZE) == TableAfterExit(Entries(now, n + 1, TABLE_SIZE), step)
    ensures SitesDone(now', was, n + SITE_COUNTERS, step)
  {
    hide TableAfterExit, Entries, Around, SiteDone;
    AroundMeans(now, now', n);
    BehindKept(now, was, n);
    forall k: nat | k + SITE_COUNTERS <= n + SITE_COUNTERS && k % SITE_COUNTERS == 0
      ensures SiteDone(now', was, k, step)
    {
      if k + SITE_COUNTERS <= n {
        DoneSiteKept(now, now', was, k, step);
      } else {
        SitesApart(k, n);
        SiteDoneNow(now, now', was, n, step);
      }
    }
  }

  lemma DoneSiteKept(now: seq<int>, now': seq<int>, was: seq<int>, k: nat, step: ExitStep)
    requires k + SITE_COUNTERS <= |now| && |now'| == |now| == |was|
    requires forall i :: 0 <= i < k + SITE_COUNTERS ==> now'[i] == now[i]
    requires SiteDone(now, was, k, step)
    ensures SiteDone(now', was, k, step)
  {
    hide TableAfterExit, Entries;
    SameEntries(now', now, k + 1);
  }

  lemma SiteDoneNow(now: seq<int>, now': seq<int>, was: seq<int>, n: nat, step: ExitStep)
    requires n + SITE_COUNTERS <= |now| && |now'| == |now| == |was|
    requires now'[n] == now[n] && forall i :: n <= i < |now| ==> now[i] == was[i]
    requires Entries(now', n + 1, TABLE_SIZE) == TableAfterExit(Entries(now, n + 1, TABLE_SIZE), step)
    ensures SiteDone(now', was, n, step)
  {
    hide TableAfterExit, Entries;
    SameEntries(now, was, n + 1);
  }

  /** Sorts the tables of all call sites; fails if the counters are not whole sites. */
  method SortIcallTopNCounter(values: array<int>, n: nat) returns (ok: bool)
    requires n <= values.Length
    modifies values
    ensures ok <==> n % 9 == 0
    ensures if ok then SitesDone(values[..], old(values[..]), n, SortTables) else values[..] == old(values[..])
  {
    hide SitesDone, Entries, Around, Sort;
    ok := n % SITE_COUNTERS == 0;
    if !ok {
      return;
    }
    ghost var was := values[..];
    NoSitesDone(was, SortTables);
    var i := 0;
    while i < n
      invariant i <= n && i % SITE_COUNTERS == 0 && SitesDone(values[..], was, i, SortTables)
    {
      ghost var before := values[..];
      SiteFits(i, n);
      SortNVals(values, i + 1, TABLE_SIZE);
      OneMoreSite(before, values[..], was, i, SortTables);
      i := i + SITE_COUNTERS;
    }
  }

  /** Scales the counts of all call sites. */
  method ScaleIcallTopNCounter(values: array<int>, n: nat, period: nat)
    requires n <= values.Length && n % SITE_COUNTERS == 0
    modifies values
    ensures SitesDone(values[..], old(values[..]), n, ScaleTables(period))
  {
    hide SitesDone, Entries, Around, ScaledTable;
    ghost var was := values[..];
    if period <= 1 {
      UnscaledSites(was, n, period);
      return;
    }
    NoSitesDone(was, ScaleTables(period));
    var j := 0;
    while j < n
      invariant j <= n && j % SITE_COUNTERS == 0 && SitesDone(values[..], was, j, ScaleTables(period))
    {
      ghost var before := values[..];
      SiteFits(j, n);
      ScaleSite(values, j, period);
      OneMoreSite(before, values[..], was, j, ScaleTables(period));
      j := j + SITE_COUNTERS;
    }
  }

  lemma UnscaledSites(was: seq<int>, n: nat, period: nat)
    requires n <= |was| && period <= 1
    ensures SitesDone(was, was, n, ScaleTables(period))
  {
  }

  method ScaleSite(values: array<int>, j: nat, period: nat)
    requires j + SITE_COUNTERS <= values.Length && period > 1
    modifies values
    ensures Entries(values[..], j + 1, TABLE_SIZE) == ScaledTable(Entries(old(values[..]), j + 1, TABLE_SIZE), period)
    ensures Around(values[..], j + 1, TABLE_SIZE) == Around(old(values[..]), j + 1, TABLE_SIZE)
  {
    hide Entries, Around, ScaledTable;
    ghost var was := values[..];
    NotScaledYet(was, j, period);
    var k := 2;
    while k < SITE_COUNTERS
      invariant k % 2 == 0 && 2 <= k <= SITE_COUNTERS + 1
      invariant ScaledUpTo(values[..], was, j, (k - 2) / 2, period)
    {
      ghost var before := values[..];
      values[j + k] := values[j + k] * period;
      OneMoreScaled(before, was, j, (k - 2) / 2, period);
      k := k + 2;
    }
    AllScaled(values[..], was, j, period);
  }

  /** The first m counts of the site have been scaled. */
  ghost predicate ScaledUpTo(now: seq<int>, was: seq<int>, j: nat, m: int, period: nat) {
    && 0 <= m <= TABLE_SIZE && |now| == |was| && j + SITE_COUNTERS <= |was|
    && (forall e :: 0 <= e < TABLE_SIZE ==> now[j + 1 + 2 * e] == was[j + 1 + 2 * e])
    && (forall e :: 0 <= e < TABLE_SIZE ==>
          now[j + 2 + 2 * e] == if e < m then was[j + 2 + 2 * e] * period else was[j + 2 + 2 * e])
    && now[..j + 1] == was[..j + 1] && now[j + SITE_COUNTERS..] == was[j + SITE_COUNTERS..]
  }

  lemma NotScaledYet(was: seq<int>, j: nat, period: nat)
    requires j + SITE_COUNTERS <= |was|
    ensures ScaledUpTo(was, was, j, 0, period)
  {
  }

  lemma OneMoreScaled(now: seq<int>, was: seq<int>, j: nat, m: nat, period: nat)
    requires ScaledUpTo(now, was, j, m, period) && m < TABLE_SIZE
    ensures var i := j + 2 + 2 * m; ScaledUpTo(now[i := now[i] * period], was, j, m + 1, period)
  {
    var i := j + 2 + 2 * m;
    var now' := now[i := now[i] * period];
    assert now'[..j + 1] == now[..j + 1] && now'[j + SITE_COUNTERS..] == now[j + SITE_COUNTERS..];
  }

  lemma AllScaled(now: seq<int>, was: seq<int>, j: nat, period: nat)
    requires ScaledUpTo(now, was, j, TABLE_SIZE, period) && period > 1
    ensures Entries(now, j + 1, TABLE_SIZE) == ScaledTable(Entries(was, j + 1, TABLE_SIZE), period)
    ensures Around(now, j + 1, TABLE_SIZE) == Around(was, j + 1, TABLE_SIZE)
  {
  }
}
