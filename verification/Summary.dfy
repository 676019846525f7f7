/** The program summary: totals over all counters of a run, and the merge into a stored summary. */
module ProgramSummary {
  import opened Powers
  import opened HistoIndex
  import opened Histogram
  import opened HistogramMerge
  import MergeInPlace
  import Crc32

  // ---------- the instrumented program ----------

  /** Arc counters and checksums of one function. */
  datatype FnInfo = FnInfo(cfgChecksum: bv32, linenoChecksum: bv32, counters: seq<Count>)

  /** A slot of an object file's function table; a comdat function may belong to another object. */
  datatype FnSlot = Absent | Foreign(fn: FnInfo) | Own(fn: FnInfo)

  /** One object file; arcs says whether it has arc counters at all. */
  datatype ObjectInfo = ObjectInfo(stamp: bv32, functions: seq<FnSlot>, arcs: bool)

  function SlotCounters(slot: FnSlot, arcs: bool): seq<Count> {
    if slot.Own? && arcs then slot.fn.counters else []
  }

  function SlotsCounters(slots: seq<FnSlot>, arcs: bool): seq<Count> {
    if slots == [] then []
    else SlotsCounters(slots[..|slots| - 1], arcs) + SlotCounters(slots[|slots| - 1], arcs)
  }

  /** All arc counters of a program, in the order of the walks over it. */
  function AllCounters(list: seq<ObjectInfo>): seq<Count> {
    if list == [] then []
    else
      var o := list[|list| - 1];
      AllCounters(list[..|list| - 1]) + SlotsCounters(o.functions, o.arcs)
  }

  function ToWord(n: nat): bv32 {
    (n % 0x1_0000_0000) as bv32
  }

  /** The words that identify a function: a function that is not the object's own counts as zeros. */
  function SlotWords(slot: FnSlot, arcs: bool): seq<bv32> {
    if slot.Own? then
      [slot.fn.cfgChecksum, slot.fn.linenoChecksum] + (if arcs then [ToWord(|slot.fn.counters|)] else [])
    else [0, 0]
  }

  function SlotsWords(slots: seq<FnSlot>, arcs: bool): seq<bv32> {
    if slots == [] then []
    else SlotsWords(slots[..|slots| - 1], arcs) + SlotWords(slots[|slots| - 1], arcs)
  }

  function ObjectWords(o: ObjectInfo): seq<bv32> {
    [o.stamp, ToWord(|o.functions|)] + SlotsWords(o.functions, o.arcs)
  }

  /** The words that identify a program. */
  function ProgramWords(list: seq<ObjectInfo>): seq<bv32> {
    if list == [] then []
    else
      ProgramWords(list[..|list| - 1]) + ObjectWords(list[|list| - 1])
  }

  lemma {:induction false} SumSplit(a: seq<Count>, b: seq<Count>)
    ensures Sum(a + b) == Sum(a) + Sum(b)
  {
    if b == [] {
      assert a + b == a;
    } else {
      assert (a + b)[..|a + b| - 1] == a + b[..|b| - 1];
      SumSplit(a, b[..|b| - 1]);
    }
  }

  lemma {:induction false} MaxSplit(a: seq<Count>, b: seq<Count>)
    ensures Max(a + b) == if Max(a) < Max(b) then Max(b) else Max(a)
  {
    if b == [] {
      assert a + b == a;
    } else {
      assert (a + b)[..|a + b| - 1] == a + b[..|b| - 1];
      MaxSplit(a, b[..|b| - 1]);
    }
  }

  // ---------- the summary ----------

  /** The contents of a summary. */
  datatype Contents = Contents(checksum: Word, num: nat, runs: nat, sumAll: nat, runMax: nat, sumMax: nat,
                               histogram: seq<Bucket>)

  const ZERO_CONTENTS := Contents(0, 0, 0, 0, 0, 0, NoBuckets())

  /** The summary of a single run with the given counters. */
  function SummaryOf(vals: seq<Count>): Contents {
    Contents(0, |vals|, 0, Sum(vals), Max(vals), 0, if vals == [] then NoBuckets() else Tally(vals, Max(vals)))
  }

  class Summary {
    var checksum: Word
    var num: nat
    var runs: nat
    var sumAll: nat
    var runMax: nat
    var sumMax: nat
    const histogram: array<Bucket>

    ghost predicate Valid()
      reads this
    {
      histogram.Length == HISTOGRAM_SIZE
    }

    ghost function Value(): Contents
      reads this, histogram
    {
      Contents(checksum, num, runs, sumAll, runMax, sumMax, histogram[..])
    }

    constructor ()
      ensures Valid() && fresh(histogram) && Value() == ZERO_CONTENTS
    {
      checksum, num, runs, sumAll, runMax, sumMax := 0, 0, 0, 0, 0, 0;
      histogram := new Bucket[HISTOGRAM_SIZE](_ => EMPTY);
    }

    method Clear()
      requires Valid()
      modifies this, histogram
      ensures Valid() && Value() == ZERO_CONTENTS
    {
      checksum, num, runs, sumAll, runMax, sumMax := 0, 0, 0, 0, 0, 0;
      forall i | 0 <= i < histogram.Length {
        histogram[i] := EMPTY;
      }
    }

    /** Accounts for one function in the totals and in the checksum. */
    method CountSlot(slot: FnSlot, arcs: bool, crc0: bv32) returns (crc: bv32)
      modifies this
      ensures num == old(num) + |SlotCounters(slot, arcs)|
      ensures sumAll == old(sumAll) + Sum(SlotCounters(slot, arcs))
      ensures runMax == Larger(old(runMax), Max(SlotCounters(slot, arcs)))
      ensures unchanged(`checksum, `runs, `sumMax)
      ensures crc == Crc32.Fold(crc0, SlotWords(slot, arcs))
    {
      hide Crc32.Crc;
      crc := Crc32.Crc32Unsigned(crc0, if slot.Own? then slot.fn.cfgChecksum else 0);
      crc := Crc32.Crc32Unsigned(crc, if slot.Own? then slot.fn.linenoChecksum else 0);
      if !slot.Own? {
        FoldTwo(crc0, 0, 0);
        return;
      }
      FoldTwo(crc0, slot.fn.cfgChecksum, slot.fn.linenoChecksum);
      if !arcs {
        assert SlotWords(slot, arcs) == [slot.fn.cfgChecksum, slot.fn.linenoChecksum];
        return;
      }
      var values := slot.fn.counters;
      num := num + |values|;
      Crc32.FoldAppend(crc0, [slot.fn.cfgChecksum, slot.fn.linenoChecksum], ToWord(|values|));
      crc := Crc32.Crc32Unsigned(crc, ToWord(|values|));
      AddUp(values);
    }

    method AddUp(values: seq<Count>)
      modifies this
      ensures sumAll == old(sumAll) + Sum(values)
      ensures runMax == Larger(old(runMax), Max(values))
      ensures unchanged(`checksum, `num, `runs, `sumMax)
    {
      hide Sum, Max, Larger;
      NoValues(values, runMax);
      for c := 0 to |values|
        invariant sumAll == old(sumAll) + Sum(values[..c])
        invariant runMax == Larger(old(runMax), Max(values[..c]))
        invariant unchanged(`checksum, `num, `runs, `sumMax)
      {
        NextValue(values, c, old(runMax));
        sumAll := sumAll + values[c];
        if runMax < values[c] {
          runMax := values[c];
        }
      }
      assert values[..|values|] == values;
    }

    /** Accounts for one object file in the totals and in the checksum. */
    method CountObject(o: ObjectInfo, crc0: bv32) returns (crc: bv32)
      modifies this
      ensures num == old(num) + |SlotsCounters(o.functions, o.arcs)|
      ensures sumAll == old(sumAll) + Sum(SlotsCounters(o.functions, o.arcs))
      ensures runMax == Larger(old(runMax), Max(SlotsCounters(o.functions, o.arcs)))
      ensures unchanged(`checksum, `runs, `sumMax)
      ensures crc == Crc32.Fold(crc0, ObjectWords(o))
    {
      hide Crc32.Crc, Crc32.Fold, SlotWords, SlotCounters;
      crc := Crc32.Crc32Unsigned(crc0, o.stamp);
      crc := Crc32.Crc32Unsigned(crc, ToWord(|o.functions|));
      FoldTwo(crc0, o.stamp, ToWord(|o.functions|));
      ghost var head := [o.stamp, ToWord(|o.functions|)];
      assert head + [] == head;
      for f := 0 to |o.functions|
        invariant num == old(num) + |SlotsCounters(o.functions[..f], o.arcs)|
        invariant sumAll == old(sumAll) + Sum(SlotsCounters(o.functions[..f], o.arcs))
        invariant runMax == Larger(old(runMax), Max(SlotsCounters(o.functions[..f], o.arcs)))
        invariant unchanged(`checksum, `runs, `sumMax)
        invariant crc == Crc32.Fold(crc0, head + SlotsWords(o.functions[..f], o.arcs))
      {
        NextSlot(o.functions, o.arcs, f, crc0, head);
        crc := CountSlot(o.functions[f], o.arcs, crc);
      }
      assert o.functions[..|o.functions|] == o.functions;
    }

    /** Tallies the counters into the histogram, unless there are none. */
    method ComputeHistogram(list: seq<ObjectInfo>)
      requires Valid() && Max(AllCounters(list)) <= runMax
      modifies histogram
      ensures histogram[..] == if num == 0 then old(histogram[..]) else Tally(AllCounters(list), runMax)
    {
      hide Tally;
      if num == 0 {
        return;
      }
      for h := 0 to HISTOGRAM_SIZE
        invariant forall i :: 0 <= i < h ==> histogram[i] == Bucket(0, runMax, 0)
      {
        histogram[h] := Bucket(0, runMax, 0);
      }
      EmptyTally(histogram[..], runMax);
      ghost var seen := [];
      for i := 0 to |list|
        invariant seen == AllCounters(list[..i]) && histogram[..] == Tally(seen, runMax)
      {
        var o := list[i];
        assert list[..i + 1][..i] == list[..i] && list[..i + 1][i] == o;
        seen := InsertObject(o, seen);
      }
      assert list[..|list|] == list;
    }

    method InsertObject(o: ObjectInfo, ghost seen0: seq<Count>) returns (ghost seen: seq<Count>)
      requires Valid() && histogram[..] == Tally(seen0, runMax)
      modifies histogram
      ensures seen == seen0 + SlotsCounters(o.functions, o.arcs)
      ensures histogram[..] == Tally(seen, runMax)
    {
      hide Tally, IndexOf, SlotsCounters, SlotCounters;
      seen := seen0;
      NoArcs(o.functions);
      if !o.arcs {
        return;
      }
      for f := 0 to |o.functions|
        invariant seen == seen0 + SlotsCounters(o.functions[..f], true)
        invariant histogram[..] == Tally(seen, runMax)
      {
        seen := InsertSlot(o.functions[f], seen);
        OneMoreSlot(o.functions, f, seen0);
      }
      assert o.functions[..|o.functions|] == o.functions;
    }

    method InsertSlot(slot: FnSlot, ghost seen0: seq<Count>) returns (ghost seen: seq<Count>)
      requires Valid() && histogram[..] == Tally(seen0, runMax)
      modifies histogram
      ensures seen == seen0 + SlotCounters(slot, true)
      ensures histogram[..] == Tally(seen, runMax)
    {
      hide Tally, IndexOf;
      seen := seen0 + SlotCounters(slot, true);
      if slot.Own? {
        InsertValues(slot.fn.counters, seen0);
      } else {
        assert seen0 + [] == seen0;
      }
    }

    method InsertValues(values: seq<Count>, ghost seen: seq<Count>)
      requires Valid() && histogram[..] == Tally(seen, runMax)
      modifies histogram
      ensures histogram[..] == Tally(seen + values, runMax)
    {
      hide Tally, Inserted;
      assert seen + values[..0] == seen;
      for c := 0 to |values|
        invariant histogram[..] == Tally(seen + values[..c], runMax)
      {
        TallyInsert(seen + values[..c], values[c], runMax);
        Insert(histogram, values[c]);
        assert seen + values[..c + 1] == seen + values[..c] + [values[c]];
      }
      assert values[..|values|] == values;
    }

    /** Computes the summary of this run and the checksum of the program. */
    method ComputeSummary(list: seq<ObjectInfo>) returns (crc: bv32)
      requires Valid()
      requires |AllCounters(list)| < TWO_32 && Sum(AllCounters(list)) < TWO_63
      modifies this, histogram
      ensures Valid() && Value() == SummaryOf(AllCounters(list))
      ensures crc == Crc32.Fold(0, ProgramWords(list))
    {
      hide Crc32.Crc, Crc32.Fold, SlotsWords, Tally;
      Clear();
      crc := 0;
      ghost var nothing := histogram[..];
      FoldNone();
      for i := 0 to |list|
        invariant num == |AllCounters(list[..i])| && sumAll == Sum(AllCounters(list[..i]))
        invariant runMax == Max(AllCounters(list[..i]))
        invariant checksum == 0 && runs == 0 && sumMax == 0 && histogram[..] == nothing
        invariant crc == Crc32.Fold(0, ProgramWords(list[..i]))
      {
        NextObject(list, i);
        crc := CountObject(list[i], crc);
      }
      assert list[..|list|] == list;
      ComputeHistogram(list);
    }
  }

  lemma NoValues(values: seq<Count>, most: nat)
    ensures Sum(values[..0]) == 0 && Larger(most, Max(values[..0])) == most
  {
  }

  lemma NextValue(values: seq<Count>, c: nat, most: nat)
    requires c < |values|
    ensures Sum(values[..c + 1]) == Sum(values[..c]) + values[c]
    ensures var m := Larger(most, Max(values[..c]));
            Larger(most, Max(values[..c + 1])) == if m < values[c] then values[c] else m
  {
    hide Sum, Max;
    assert values[..c + 1] == values[..c] + [values[c]];
    AppendToFolds(values[..c], values[c], 0);
  }

  lemma FoldNone()
    ensures Crc32.Fold(0, []) == 0
  {
  }

  lemma EmptyTally(h: seq<Bucket>, top: nat)
    requires |h| == HISTOGRAM_SIZE && forall i :: 0 <= i < |h| ==> h[i] == Bucket(0, top, 0)
    ensures h == Tally([], top)
  {
  }

  lemma {:induction false} NoCountersInSlots(slots: seq<FnSlot>)
    ensures SlotsCounters(slots, false) == []
  {
    if slots != [] {
      NoCountersInSlots(slots[..|slots| - 1]);
    }
  }

  /** Without arc counters, and before the first slot, there is nothing to insert. */
  lemma NoArcs(slots: seq<FnSlot>)
    ensures forall seen: seq<Count> :: seen + SlotsCounters(slots, false) == seen
    ensures forall seen: seq<Count> :: seen + SlotsCounters(slots[..0], true) == seen
  {
    NoCountersInSlots(slots);
  }

  lemma OneMoreSlot(slots: seq<FnSlot>, f: nat, seen: seq<Count>)
    requires f < |slots|
    ensures seen + SlotsCounters(slots[..f + 1], true)
            == seen + SlotsCounters(slots[..f], true) + SlotCounters(slots[f], true)
  {
    hide SlotCounters;
    assert slots[..f + 1][..f] == slots[..f] && slots[..f + 1][f] == slots[f];
  }

  lemma NextSlot(slots: seq<FnSlot>, arcs: bool, f: nat, crc0: bv32, head: seq<bv32>)
    requires f < |slots|
    ensures var more := SlotCounters(slots[f], arcs); var vals := SlotsCounters(slots[..f], arcs);
            var vals' := SlotsCounters(slots[..f + 1], arcs);
            && |vals'| == |vals| + |more| && Sum(vals') == Sum(vals) + Sum(more)
            && Max(vals') == Larger(Max(vals), Max(more))
    ensures Crc32.Fold(crc0, head + SlotsWords(slots[..f + 1], arcs))
            == Crc32.Fold(Crc32.Fold(crc0, head + SlotsWords(slots[..f], arcs)), SlotWords(slots[f], arcs))
  {
    hide Crc32.Crc, Crc32.Fold, SlotWords, SlotCounters;
    assert slots[..f + 1][..f] == slots[..f] && slots[..f + 1][f] == slots[f];
    SumSplit(SlotsCounters(slots[..f], arcs), SlotCounters(slots[f], arcs));
    MaxSplit(SlotsCounters(slots[..f], arcs), SlotCounters(slots[f], arcs));
    var words := head + SlotsWords(slots[..f], arcs);
    assert head + SlotsWords(slots[..f + 1], arcs) == words + SlotWords(slots[f], arcs);
    Crc32.FoldSplit(crc0, words, SlotWords(slots[f], arcs));
  }

  lemma NextObject(list: seq<ObjectInfo>, i: nat)
    requires i < |list|
    ensures var o := list[i]; var more := SlotsCounters(o.functions, o.arcs); var vals := AllCounters(list[..i]);
            var vals' := AllCounters(list[..i + 1]);
            && |vals'| == |vals| + |more| && Sum(vals') == Sum(vals) + Sum(more)
            && Max(vals') == Larger(Max(vals), Max(more))
    ensures Crc32.Fold(0, ProgramWords(list[..i + 1]))
            == Crc32.Fold(Crc32.Fold(0, ProgramWords(list[..i])), ObjectWords(list[i]))
  {
    hide Crc32.Crc, Crc32.Fold, SlotsWords, SlotsCounters;
    var o := list[i];
    assert list[..i + 1][..i] == list[..i] && list[..i + 1][i] == o;
    SumSplit(AllCounters(list[..i]), SlotsCounters(o.functions, o.arcs));
    MaxSplit(AllCounters(list[..i]), SlotsCounters(o.functions, o.arcs));
    Crc32.FoldSplit(0, ProgramWords(list[..i]), ObjectWords(o));
  }

  function Larger(a: nat, b: nat): nat { if a < b then b else a }

  lemma FoldTwo(c: bv32, u: bv32, v: bv32)
    ensures Crc32.Fold(c, [u, v]) == Crc32.Crc(Crc32.Crc(c, u), v)
  {
    hide Crc32.Crc;
    assert [u] == [] + [u] && [u, v] == [u] + [v];
    Crc32.FoldAppend(c, [], u);
    Crc32.FoldAppend(c, [u], v);
  }

  // ---------- merging a run into the stored summary ----------

  datatype MergeStatus = Done | Mismatch | AssertionFailed

  /** The merged summary; a stored summary without runs takes the run's histogram as it is. */
  function MergeContents(prg: Contents, run: Contents, crc: Word, accounted: bool): Contents
    requires prg.runs != 0 ==> Mergeable(prg.histogram) && Mergeable(run.histogram)
  {
    var first := prg.runs == 0;
    Contents(crc,
             if first then run.num else prg.num,
             if accounted then prg.runs else (prg.runs + 1) % TWO_32,
             prg.sumAll + run.sumAll,
             Larger(prg.runMax, run.runMax),
             prg.sumMax + run.runMax,
             Normalise(if first then run.histogram else Merged(prg.histogram, run.histogram)))
  }

  /** A summary as it is read back. */
  function NormalContents(c: Contents): Contents {
    c.(histogram := Normalise(c.histogram))
  }

  /**
   Merges the summary of this run into the stored one. arcs says whether the object file has arc
   counters, accounted whether this execution has been counted as a run before.
   */
  method MergeSummary(prg: Summary, run: Summary, crc: Word, arcs: bool, accounted: bool) returns (status: MergeStatus)
    requires prg.Valid() && run.Valid() && prg != run && prg.histogram != run.histogram
    requires prg.sumAll + run.sumAll < TWO_63 && prg.sumMax + run.runMax < TWO_63
    requires arcs && prg.runs != 0 ==> Mergeable(prg.histogram[..]) && Mergeable(run.histogram[..])
    modifies prg, prg.histogram
    ensures status.Mismatch? <==> !arcs && old(prg.runs) != 0
    ensures status.AssertionFailed? <==>
            arcs && old(prg.runs) != 0 && !MergeDefined(old(prg.histogram[..]), run.histogram[..])
    ensures status.Mismatch? ==> prg.Value() == old(prg.Value())
    ensures status.Done? ==>
            NormalContents(prg.Value()) ==
            if arcs then MergeContents(old(prg.Value()), old(run.Value()), crc, accounted)
            else NormalContents(old(prg.Value())).(checksum := crc)
  {
    hide Mergeable, Merged, MergeDefined, Normalise, NoBuckets;
    if arcs {
      var first := prg.runs == 0;
      if !accounted {
        prg.runs := (prg.runs + 1) % TWO_32;
      }
      if first {
        prg.num := run.num;
      }
      prg.sumAll := prg.sumAll + run.sumAll;
      if prg.runMax < run.runMax {
        prg.runMax := run.runMax;
      }
      prg.sumMax := prg.sumMax + run.runMax;
      if first {
        MergeInPlace.CopyBack(prg.histogram, run.histogram);
      } else {
        var ok := MergeInPlace.Merge(prg.histogram, run.histogram);
        if !ok {
          return AssertionFailed;
        }
        MergedIsNormal(old(prg.histogram[..]), run.histogram[..]);
      }
    } else if prg.runs != 0 {
      return Mismatch;
    }
    prg.checksum := crc;
    status := Done;
  }

  lemma MergedIsNormal(t: seq<Bucket>, s: seq<Bucket>)
    requires Mergeable(t) && Mergeable(s) && MergeDefined(t, s)
    ensures Normalise(Merged(t, s)) == Merged(t, s)
  {
    MergedConserves(t, s);
  }
}
