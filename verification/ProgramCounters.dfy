/** Which counters of a program its summary counts, and which changes of a program its checksum tells. */
module ProgramCounters {
  import opened Powers
  import opened Histogram
  import opened ProgramSummary
  import opened RunHistory
  import Crc32

  /** One counter of a program: the object file, the slot of its function table, and the counter in it. */
  datatype Place = Place(file: nat, slot: nat, counter: nat)

  /** The counters that belong to the program: those of a function's own object file, if that has arc counters. */
  predicate IsPlace(list: seq<ObjectInfo>, p: Place) {
    && p.file < |list| && list[p.file].arcs
    && p.slot < |list[p.file].functions|
    && var slot := list[p.file].functions[p.slot];
       slot.Own? && p.counter < |slot.fn.counters|
  }

  function ValueAt(list: seq<ObjectInfo>, p: Place): Count
    requires IsPlace(list, p)
  {
    list[p.file].functions[p.slot].fn.counters[p.counter]
  }

  ghost predicate Distinct(places: seq<Place>) {
    forall j, k :: 0 <= j < k < |places| ==> places[j] != places[k]
  }

  /** The values are those at the places, in this order; each place of the program occurs exactly once. */
  ghost predicate Lists(list: seq<ObjectInfo>, places: seq<Place>, vals: seq<Count>) {
    && Distinct(places) && |places| == |vals|
    && (forall p :: p in places <==> IsPlace(list, p))
    && forall k :: 0 <= k < |places| ==> IsPlace(list, places[k]) && ValueAt(list, places[k]) == vals[k]
  }

  lemma DistinctConcat(a: seq<Place>, b: seq<Place>)
    requires Distinct(a) && Distinct(b) && forall p :: p in a ==> p !in b
    ensures Distinct(a + b)
  {
    forall j, k | 0 <= j < k < |a + b|
      ensures (a + b)[j] != (a + b)[k]
    {
      if j < |a| <= k {
        assert a[j] in a && b[k - |a|] in b;
      }
    }
  }

  function FunctionPlaces(o: nat, f: nat, n: nat): (places: seq<Place>)
    ensures |places| == n && forall c :: 0 <= c < n ==> places[c] == Place(o, f, c)
  {
    seq(n, c requires 0 <= c < n => Place(o, f, c))
  }

  function SlotPlaces(o: nat, f: nat, slot: FnSlot): seq<Place> {
    if slot.Own? then FunctionPlaces(o, f, |slot.fn.counters|) else []
  }

  function SlotsPlaces(o: nat, slots: seq<FnSlot>): seq<Place> {
    if slots == [] then []
    else
      var f := |slots| - 1;
      SlotsPlaces(o, slots[..f]) + SlotPlaces(o, f, slots[f])
  }

  function ProgramPlaces(list: seq<ObjectInfo>): seq<Place> {
    if list == [] then []
    else
      var o := |list| - 1;
      ProgramPlaces(list[..o]) + if list[o].arcs then SlotsPlaces(o, list[o].functions) else []
  }

  predicate IsSlotPlace(o: nat, slots: seq<FnSlot>, p: Place) {
    p.file == o && p.slot < |slots| && slots[p.slot].Own? && p.counter < |slots[p.slot].fn.counters|
  }

  function SlotValueAt(o: nat, slots: seq<FnSlot>, p: Place): Count
    requires IsSlotPlace(o, slots, p)
  {
    slots[p.slot].fn.counters[p.counter]
  }

  /** The same for the function table of one object file. */
  ghost predicate ListsSlots(o: nat, slots: seq<FnSlot>, places: seq<Place>, vals: seq<Count>) {
    && Distinct(places) && |places| == |vals|
    && (forall p :: p in places <==> IsSlotPlace(o, slots, p))
    && forall k :: 0 <= k < |places| ==> IsSlotPlace(o, slots, places[k]) && SlotValueAt(o, slots, places[k]) == vals[k]
  }

  lemma {:induction false} SlotsListed(o: nat, slots: seq<FnSlot>)
    ensures ListsSlots(o, slots, SlotsPlaces(o, slots), SlotsCounters(slots, true))
  {
    if slots != [] {
      hide ListsSlots, SlotPlaces, SlotCounters;
      var f := |slots| - 1;
      SlotsListed(o, slots[..f]);
      SlotListed(o, slots, SlotsPlaces(o, slots[..f]), SlotsCounters(slots[..f], true));
    }
  }

  lemma SlotListed(o: nat, slots: seq<FnSlot>, places: seq<Place>, vals: seq<Count>)
    requires slots != [] && ListsSlots(o, slots[..|slots| - 1], places, vals)
    ensures var f := |slots| - 1;
            ListsSlots(o, slots, places + SlotPlaces(o, f, slots[f]), vals + SlotCounters(slots[f], true))
  {
    var f := |slots| - 1;
    var more, moreVals := SlotPlaces(o, f, slots[f]), SlotCounters(slots[f], true);
    SlotPlacesAre(o, slots);
    hide SlotPlaces, SlotCounters, Distinct;
    DistinctConcat(places, more);
    forall p: Place
      ensures p in places + more <==> IsSlotPlace(o, slots, p)
    {
      assert IsSlotPlace(o, slots[..f], p) ==> slots[..f][p.slot] == slots[p.slot];
    }
    forall k | 0 <= k < |places + more|
      ensures IsSlotPlace(o, slots, (places + more)[k])
      ensures SlotValueAt(o, slots, (places + more)[k]) == (vals + moreVals)[k]
    {
      if k < |places| {
        assert slots[..f][places[k].slot] == slots[places[k].slot];
      }
    }
  }

  /** The places of the last slot. */
  lemma SlotPlacesAre(o: nat, slots: seq<FnSlot>)
    requires slots != []
    ensures var f := |slots| - 1;
            var more, vals := SlotPlaces(o, f, slots[f]), SlotCounters(slots[f], true);
            && Distinct(more) && |more| == |vals|
            && (forall p :: p in more <==> p.slot == f && IsSlotPlace(o, slots, p))
            && forall k :: 0 <= k < |more| ==>
                 more[k].slot == f && IsSlotPlace(o, slots, more[k]) && SlotValueAt(o, slots, more[k]) == vals[k]
  {
    var f := |slots| - 1;
    var more := SlotPlaces(o, f, slots[f]);
    forall p: Place | p.slot == f && IsSlotPlace(o, slots, p)
      ensures p in more
    {
      assert more[p.counter] == p;
    }
  }

  lemma {:induction false} ProgramListed(list: seq<ObjectInfo>)
    ensures Lists(list, ProgramPlaces(list), AllCounters(list))
  {
    if list != [] {
      hide Lists, ListsSlots, SlotsPlaces, SlotsCounters;
      var o := |list| - 1;
      ProgramListed(list[..o]);
      NoCountersInSlots(list[o].functions);
      SlotsListed(o, list[o].functions);
      ObjectListed(list, ProgramPlaces(list[..o]), AllCounters(list[..o]));
    }
  }

  lemma ObjectListed(list: seq<ObjectInfo>, places: seq<Place>, vals: seq<Count>)
    requires list != [] && Lists(list[..|list| - 1], places, vals)
    requires var o, slots := |list| - 1, list[|list| - 1].functions;
             ListsSlots(o, slots, SlotsPlaces(o, slots), SlotsCounters(slots, true))
    ensures var o, slots := |list| - 1, list[|list| - 1].functions;
            if list[o].arcs then Lists(list, places + SlotsPlaces(o, slots), vals + SlotsCounters(slots, true))
            else Lists(list, places + [], vals + [])
  {
    hide Distinct, SlotsPlaces, SlotsCounters;
    var o := |list| - 1;
    var more, moreVals := if list[o].arcs then SlotsPlaces(o, list[o].functions) else [],
                          if list[o].arcs then SlotsCounters(list[o].functions, true) else [];
    NoneDistinct();
    DistinctConcat(places, more);
    forall p: Place
      ensures p in places + more <==> IsPlace(list, p)
    {
      assert IsPlace(list[..o], p) ==> list[..o][p.file] == list[p.file];
    }
    forall k | 0 <= k < |places + more|
      ensures IsPlace(list, (places + more)[k])
      ensures ValueAt(list, (places + more)[k]) == (vals + moreVals)[k]
    {
      if k < |places| {
        assert list[..o][places[k].file] == list[places[k].file];
      }
    }
  }

  lemma NoneDistinct()
    ensures Distinct([])
  {
  }

  /**
   The counters that make up the summary of a program are exactly those at its places: every counter of
   every function of an object file with arc counters, if the function is the object's own, once and in
   order. Functions that are absent or belong to another object, and objects without arcs, add none.
   */
  lemma CountersListedOnce(list: seq<ObjectInfo>)
    ensures exists places :: Lists(list, places, AllCounters(list))
  {
    ProgramListed(list);
  }

  /** So the totals of the summary, those of its histogram included, count each of these counters once. */
  lemma SummaryCountsEachOnce(list: seq<ObjectInfo>)
    ensures exists places, vals :: Lists(list, places, vals) &&
              var c := SummaryOf(AllCounters(list));
              && c.num == |places| && c.sumAll == Sum(vals) && c.runMax == Max(vals)
              && c.runs == 0 && c.sumMax == 0 && c.checksum == 0
              && TotalNum(c.histogram) == |places| && TotalCum(c.histogram) == Sum(vals)
  {
    hide HistogramOk, TotalNum, TotalCum, Sum, Max, Lists, Tally, ProgramPlaces, AllCounters;
    ProgramListed(list);
    ComputedOk(AllCounters(list));
    SameNumber(list, ProgramPlaces(list), AllCounters(list));
    assert Lists(list, ProgramPlaces(list), AllCounters(list));
  }

  lemma SameNumber(list: seq<ObjectInfo>, places: seq<Place>, vals: seq<Count>)
    requires Lists(list, places, vals)
    ensures |places| == |vals|
  {
  }

  // ---------- changes of a function or an object file ----------

  function WithSlot(list: seq<ObjectInfo>, o: nat, f: nat, slot: FnSlot): seq<ObjectInfo>
    requires o < |list| && f < |list[o].functions|
  {
    list[o := list[o].(functions := list[o].functions[f := slot])]
  }

  function WithStamp(list: seq<ObjectInfo>, o: nat, stamp: bv32): seq<ObjectInfo>
    requires o < |list|
  {
    list[o := list[o].(stamp := stamp)]
  }

  lemma {:induction false} SlotReplaced(slots: seq<FnSlot>, arcs: bool, f: nat, slot: FnSlot)
    requires f < |slots| && SlotCounters(slots[f], arcs) == SlotCounters(slot, arcs)
    requires SlotWords(slots[f], arcs) == SlotWords(slot, arcs)
    ensures SlotsCounters(slots[f := slot], arcs) == SlotsCounters(slots, arcs)
    ensures SlotsWords(slots[f := slot], arcs) == SlotsWords(slots, arcs)
  {
    hide SlotCounters, SlotWords;
    var init := slots[..|slots| - 1];
    if f < |init| {
      SlotReplaced(init, arcs, f, slot);
      assert slots[f := slot][..|init|] == init[f := slot];
    } else {
      assert slots[f := slot][..|init|] == init;
    }
  }

  lemma {:induction false} ObjectReplaced(list: seq<ObjectInfo>, o: nat, object': ObjectInfo)
    requires o < |list|
    requires SlotsCounters(object'.functions, object'.arcs) == SlotsCounters(list[o].functions, list[o].arcs)
    requires ObjectWords(object') == ObjectWords(list[o])
    ensures AllCounters(list[o := object']) == AllCounters(list)
    ensures ProgramWords(list[o := object']) == ProgramWords(list)
  {
    hide SlotsCounters, ObjectWords;
    var init := list[..|list| - 1];
    if o < |init| {
      ObjectReplaced(init, o, object');
      assert list[o := object'][..|init|] == init[o := object'];
    } else {
      assert list[o := object'][..|init|] == init;
    }
  }

  /**
   What a slot that is not the object's own holds does not matter: emptying it, filling it with a function
   of another object, or changing that function leaves the summary and the checksum as they are.
   */
  lemma OnlyOwnMatters(list: seq<ObjectInfo>, o: nat, f: nat, slot: FnSlot)
    requires o < |list| && f < |list[o].functions|
    requires !list[o].functions[f].Own? && !slot.Own?
    ensures SummaryOf(AllCounters(WithSlot(list, o, f, slot))) == SummaryOf(AllCounters(list))
    ensures Crc32.Fold(0, ProgramWords(WithSlot(list, o, f, slot))) == Crc32.Fold(0, ProgramWords(list))
  {
    hide SlotsCounters, SlotsWords, AllCounters, ProgramWords, SummaryOf, Crc32.Fold;
    SlotReplaced(list[o].functions, list[o].arcs, f, slot);
    ObjectReplaced(list, o, list[o].(functions := list[o].functions[f := slot]));
  }

  // ---------- changes the checksum tells ----------

  ghost predicate DifferInOne(a: seq<bv32>, b: seq<bv32>) {
    |a| == |b| && exists k :: 0 <= k < |a| && b == a[k := b[k]] && a[k] != b[k]
  }

  lemma DifferWithin(pre: seq<bv32>, a: seq<bv32>, b: seq<bv32>, post: seq<bv32>)
    requires DifferInOne(a, b)
    ensures DifferInOne(pre + a + post, pre + b + post)
  {
    var k :| 0 <= k < |a| && b == a[k := b[k]] && a[k] != b[k];
    var x, y := pre + a + post, pre + b + post;
    var i := |pre| + k;
    assert y == x[i := y[i]] && x[i] != y[i];
  }

  lemma {:induction false} SlotsDiffer(slots: seq<FnSlot>, arcs: bool, f: nat, slot: FnSlot)
    requires f < |slots| && DifferInOne(SlotWords(slots[f], arcs), SlotWords(slot, arcs))
    ensures DifferInOne(SlotsWords(slots, arcs), SlotsWords(slots[f := slot], arcs))
  {
    hide SlotWords, DifferInOne;
    var init, last := slots[..|slots| - 1], slots[|slots| - 1];
    if f < |init| {
      SlotsDiffer(init, arcs, f, slot);
      assert slots[f := slot][..|init|] == init[f := slot];
      DifferAtStart(SlotsWords(init, arcs), SlotsWords(init[f := slot], arcs), SlotWords(last, arcs));
    } else {
      assert slots[f := slot][..|init|] == init;
      DifferAtEnd(SlotsWords(init, arcs), SlotWords(last, arcs), SlotWords(slot, arcs));
    }
  }

  lemma DifferAtStart(a: seq<bv32>, b: seq<bv32>, post: seq<bv32>)
    requires DifferInOne(a, b)
    ensures DifferInOne(a + post, b + post)
  {
    DifferWithin([], a, b, post);
    assert [] + a + post == a + post && [] + b + post == b + post;
  }

  lemma DifferAtEnd(pre: seq<bv32>, a: seq<bv32>, b: seq<bv32>)
    requires DifferInOne(a, b)
    ensures DifferInOne(pre + a, pre + b)
  {
    DifferWithin(pre, a, b, []);
    assert pre + a + [] == pre + a && pre + b + [] == pre + b;
  }

  lemma {:induction false} ObjectsDiffer(list: seq<ObjectInfo>, o: nat, object': ObjectInfo)
    requires o < |list|
    requires DifferInOne(ObjectWords(list[o]), ObjectWords(object'))
    ensures DifferInOne(ProgramWords(list), ProgramWords(list[o := object']))
  {
    hide ObjectWords, DifferInOne;
    var init, last := list[..|list| - 1], list[|list| - 1];
    if o < |init| {
      ObjectsDiffer(init, o, object');
      assert list[o := object'][..|init|] == init[o := object'];
      DifferAtStart(ProgramWords(init), ProgramWords(init[o := object']), ObjectWords(last));
    } else {
      assert list[o := object'][..|init|] == init;
      DifferAtEnd(ProgramWords(init), ObjectWords(last), ObjectWords(object'));
    }
  }

  lemma DifferDetected(a: seq<bv32>, b: seq<bv32>)
    requires DifferInOne(a, b)
    ensures Crc32.Fold(0, a) != Crc32.Fold(0, b)
  {
    hide Crc32.Fold;
    var k :| 0 <= k < |a| && b == a[k := b[k]] && a[k] != b[k];
    Crc32.OneWordDetected(0, a, k, b[k]);
  }

  /** A program one of whose object files was compiled anew has another checksum. */
  lemma StampDetected(list: seq<ObjectInfo>, o: nat, stamp: bv32)
    requires o < |list| && stamp != list[o].stamp
    ensures Crc32.Fold(0, ProgramWords(WithStamp(list, o, stamp))) != Crc32.Fold(0, ProgramWords(list))
  {
    hide SlotsWords, ProgramWords, Crc32.Fold;
    var a, b := ObjectWords(list[o]), ObjectWords(list[o].(stamp := stamp));
    assert b == a[0 := b[0]] && a[0] != b[0];
    ObjectsDiffer(list, o, list[o].(stamp := stamp));
    DifferDetected(ProgramWords(list), ProgramWords(WithStamp(list, o, stamp)));
  }

  /** A program one of whose functions has another checksum of either kind has another checksum itself. */
  lemma FunctionChangeDetected(list: seq<ObjectInfo>, o: nat, f: nat, fn: FnInfo)
    requires o < |list| && f < |list[o].functions| && list[o].functions[f].Own?
    requires var was := list[o].functions[f].fn;
             && fn.counters == was.counters
             && (fn.cfgChecksum != was.cfgChecksum <==> fn.linenoChecksum == was.linenoChecksum)
    ensures Crc32.Fold(0, ProgramWords(WithSlot(list, o, f, Own(fn)))) != Crc32.Fold(0, ProgramWords(list))
  {
    hide SlotsWords, ProgramWords, Crc32.Fold;
    var was := list[o];
    var object' := was.(functions := was.functions[f := Own(fn)]);
    FunctionsDiffer(was.functions[f].fn, fn, was.arcs);
    SlotsDiffer(was.functions, was.arcs, f, Own(fn));
    DifferAtEnd([was.stamp, ToWord(|was.functions|)], SlotsWords(was.functions, was.arcs),
                SlotsWords(object'.functions, was.arcs));
    ObjectsDiffer(list, o, object');
    DifferDetected(ProgramWords(list), ProgramWords(WithSlot(list, o, f, Own(fn))));
  }

  lemma FunctionsDiffer(was: FnInfo, fn: FnInfo, arcs: bool)
    requires fn.counters == was.counters
    requires fn.cfgChecksum != was.cfgChecksum <==> fn.linenoChecksum == was.linenoChecksum
    ensures DifferInOne(SlotWords(Own(was), arcs), SlotWords(Own(fn), arcs))
  {
    var a, b := SlotWords(Own(was), arcs), SlotWords(Own(fn), arcs);
    var k := if fn.cfgChecksum != was.cfgChecksum then 0 else 1;
    assert b == a[k := b[k]] && a[k] != b[k];
  }

  // ---------- the words of a program ----------

  function SlotSize(slot: FnSlot, arcs: bool): nat {
    if slot.Own? && arcs then 3 else 2
  }

  function SizeBefore(slots: seq<FnSlot>, arcs: bool, f: nat): nat
    requires f <= |slots|
  {
    if f == 0 then 0 else SizeBefore(slots, arcs, f - 1) + SlotSize(slots[f - 1], arcs)
  }

  lemma {:induction false} WordsOfSlots(slots: seq<FnSlot>, arcs: bool)
    ensures |SlotsWords(slots, arcs)| == SizeBefore(slots, arcs, |slots|)
  {
    if slots != [] {
      hide SlotWords, SlotSize;
      var init, last := slots[..|slots| - 1], slots[|slots| - 1];
      WordsOfSlots(init, arcs);
      SameSizeBefore(slots, init, arcs, |init|);
      WordsOfSlot(last, arcs);
    }
  }

  lemma WordsOfSlot(slot: FnSlot, arcs: bool)
    ensures |SlotWords(slot, arcs)| == SlotSize(slot, arcs)
  {
  }

  lemma LastSlotWords(slots: seq<FnSlot>, arcs: bool)
    requires slots != []
    ensures var init, last := slots[..|slots| - 1], slots[|slots| - 1];
            && SlotsWords(slots, arcs) == SlotsWords(init, arcs) + SlotWords(last, arcs)
            && |SlotsWords(init, arcs)| == SizeBefore(slots, arcs, |init|)
            && |SlotWords(last, arcs)| == SlotSize(last, arcs)
  {
    hide SlotWords, SlotSize, SizeBefore;
    var init := slots[..|slots| - 1];
    WordsOfSlots(init, arcs);
    WordsOfSlot(slots[|slots| - 1], arcs);
    SameSizeBefore(slots, init, arcs, |init|);
  }

  lemma SliceWithin(a: seq<bv32>, b: seq<bv32>, at: nat, size: nat)
    requires at + size <= |a|
    ensures (a + b)[at..at + size] == a[at..at + size]
  {
  }

  lemma SliceBehind(a: seq<bv32>, b: seq<bv32>)
    ensures (a + b)[|a|..|a| + |b|] == b
  {
  }

  lemma {:induction false} SlotWordsAt(slots: seq<FnSlot>, arcs: bool, f: nat)
    requires f < |slots|
    ensures var at, size, words := SizeBefore(slots, arcs, f), SlotSize(slots[f], arcs), SlotsWords(slots, arcs);
            at + size <= |words| && words[at..at + size] == SlotWords(slots[f], arcs)
  {
    hide SlotWords, SlotSize, SizeBefore, SlotsWords;
    var init, last := slots[..|slots| - 1], slots[|slots| - 1];
    var before, more := SlotsWords(init, arcs), SlotWords(last, arcs);
    LastSlotWords(slots, arcs);
    if f < |init| {
      SlotWordsAt(init, arcs, f);
      SameSizeBefore(slots, init, arcs, f);
      SliceWithin(before, more, SizeBefore(slots, arcs, f), SlotSize(slots[f], arcs));
    } else {
      SliceBehind(before, more);
    }
  }

  lemma {:induction false} SameSizeBefore(a: seq<FnSlot>, b: seq<FnSlot>, arcs: bool, n: nat)
    requires n <= |a| && n <= |b| && a[..n] == b[..n]
    ensures SizeBefore(a, arcs, n) == SizeBefore(b, arcs, n)
  {
    if n > 0 {
      assert a[..n - 1] == a[..n][..n - 1] && a[n - 1] == a[..n][n - 1] && b[n - 1] == b[..n][n - 1];
      SameSizeBefore(a, b, arcs, n - 1);
    }
  }

  lemma SlotWordsAre(slot: FnSlot, arcs: bool)
    ensures var words := SlotWords(slot, arcs);
            && |words| == SlotSize(slot, arcs) == (if slot.Own? && arcs then 3 else 2)
            && words[0] == (if slot.Own? then slot.fn.cfgChecksum else 0)
            && words[1] == (if slot.Own? then slot.fn.linenoChecksum else 0)
            && (slot.Own? && arcs ==> words[2] == ToWord(|slot.fn.counters|))
  {
  }

  /**
   An object file is identified by its stamp and the number of its functions, and by two checksums and the
   number of arc counters of each of these that is its own.
   */
  lemma ObjectLayout(o: ObjectInfo, f: nat)
    requires f < |o.functions|
    ensures var words, at, slot := ObjectWords(o), 2 + SizeBefore(o.functions, o.arcs, f), o.functions[f];
            && |words| == 2 + SizeBefore(o.functions, o.arcs, |o.functions|)
            && words[0] == o.stamp && words[1] == ToWord(|o.functions|)
            && at + 2 <= |words|
            && words[at] == (if slot.Own? then slot.fn.cfgChecksum else 0)
            && words[at + 1] == (if slot.Own? then slot.fn.linenoChecksum else 0)
            && (slot.Own? && o.arcs ==> at + 3 <= |words| && words[at + 2] == ToWord(|slot.fn.counters|))
  {
    hide SlotsWords, SizeBefore, SlotWords, SlotSize, ToWord;
    WordsOfSlots(o.functions, o.arcs);
    SlotWordsAt(o.functions, o.arcs, f);
    var words, at, slotWords := ObjectWords(o), 2 + SizeBefore(o.functions, o.arcs, f), SlotWords(o.functions[f], o.arcs);
    SlotWordsAre(o.functions[f], o.arcs);
    assert words[at..at + |slotWords|] == slotWords;
    assert words[at] == slotWords[0] && words[at + 1] == slotWords[1];
  }
}
