/** Profile data files, read and written one or two words at a time through a block buffer. */
module BlockIO {
  import opened Powers

  const BLOCK_SIZE: nat := 1024

  // ---------- words and counters ----------

  function LowWord(v: Counter): Word { v % 0x1_0000_0000 }

  function HighWord(v: Counter): Word { v / 0x1_0000_0000 % 0x1_0000_0000 }

  /** A counter as two words, low word first. */
  function CounterWords(v: Counter): seq<Word> { [LowWord(v), HighWord(v)] }

  function CounterOf(low: Word, high: Word): Counter {
    var u := low + high * 0x1_0000_0000;
    if u < TWO_63 then u else u - TWO_64
  }

  /** Every signed 64-bit counter survives being written as two words and read back. */
  lemma CounterRoundTrip(v: Counter)
    ensures CounterOf(LowWord(v), HighWord(v)) == v
  {
    var q := v / 0x1_0000_0000;
    if v >= 0 {
      assert q % 0x1_0000_0000 == q;
    } else {
      assert q % 0x1_0000_0000 == q + 0x1_0000_0000;
    }
  }

  /** The first word of a counter is its remainder by 2^32, the second counts the multiples of 2^32, both in two's complement. */
  lemma CounterWordsAre(v: Counter)
    ensures |CounterWords(v)| == 2
    ensures var low: int, high: int := CounterWords(v)[0], CounterWords(v)[1];
            low + 0x1_0000_0000 * high == if v < 0 then v + 0x1_0000_0000_0000_0000 else v as int
  {
    CounterRoundTrip(v);
  }

  /** Takes the next word of what is left of a file; 0 at its end. */
  function NextWord(rest: seq<Word>): (Word, seq<Word>) {
    if rest == [] then (0, []) else (rest[0], rest[1..])
  }

  /** Takes the next counter; a single word that is left is lost. */
  function NextCounter(rest: seq<Word>): (Counter, seq<Word>) {
    if |rest| < 2 then (0, []) else (CounterOf(rest[0], rest[1]), rest[2..])
  }

  /** Takes the next n words. */
  function TakeWords(rest: seq<Word>, n: nat): (seq<Word>, seq<Word>) {
    if n == 0 then ([], rest)
    else
      var (words, r) := TakeWords(rest, n - 1);
      var (w, r') := NextWord(r);
      (words + [w], r')
  }

  /** Takes the next n counters. */
  function TakeCounters(rest: seq<Word>, n: nat): (seq<Counter>, seq<Word>) {
    if n == 0 then ([], rest)
    else
      var (counters, r) := TakeCounters(rest, n - 1);
      var (v, r') := NextCounter(r);
      (counters + [v], r')
  }

  lemma {:induction false} TakeCountersLength(rest: seq<Word>, n: nat)
    ensures |TakeCounters(rest, n).0| == n
  {
    if n > 0 {
      TakeCountersLength(rest, n - 1);
    }
  }

  lemma {:induction false} TakeWordsPrefix(rest: seq<Word>, m: nat, n: nat)
    requires m <= n
    ensures |TakeWords(rest, m).0| == m && |TakeWords(rest, n).0| == n
    ensures TakeWords(rest, m).0 == TakeWords(rest, n).0[..m]
  {
    hide NextWord;
    if m < n {
      TakeWordsPrefix(rest, m, n - 1);
      assert TakeWords(rest, n).0[..m] == TakeWords(rest, n - 1).0[..m];
    } else if 0 < n {
      TakeWordsPrefix(rest, n - 1, n - 1);
    }
  }

  lemma {:induction false} WordsReadBack(words: seq<Word>, tail: seq<Word>)
    ensures TakeWords(words + tail, |words|) == (words, tail)
  {
    hide NextWord;
    if words == [] {
      assert [] + tail == tail;
    } else {
      var init, w := words[..|words| - 1], words[|words| - 1];
      WordsReadBack(init, [w] + tail);
      assert words + tail == init + ([w] + tail);
      NextWordOf(w, tail);
      assert init + [w] == words;
    }
  }

  lemma NothingTaken(rest: seq<Word>)
    ensures TakeCounters(rest, 0) == ([], rest)
  {
  }

  lemma TakeOne(rest: seq<Word>)
    ensures var (u, r) := NextCounter(rest); TakeCounters(rest, 1) == ([u], r)
  {
    hide NextCounter;
    NothingTaken(rest);
    assert [] + [NextCounter(rest).0] == [NextCounter(rest).0];
  }

  lemma TakeThree(rest: seq<Word>)
    ensures var (u, r1) := NextCounter(rest); var (v, r2) := NextCounter(r1); var (w, r3) := NextCounter(r2);
            TakeCounters(rest, 3) == ([u, v, w], r3)
  {
    hide NextCounter;
    TakeOne(rest);
    var (u, r1) := NextCounter(rest);
    var (v, r2) := NextCounter(r1);
    assert TakeCounters(rest, 2) == ([u] + [v], r2);
    assert [u] + [v] + [NextCounter(r2).0] == [u, v, NextCounter(r2).0];
  }

  lemma {:induction false} TakeMore(rest: seq<Word>, n: nat, m: nat)
    ensures var (cs, r) := TakeCounters(rest, n); var (more, r') := TakeCounters(r, m);
            TakeCounters(rest, n + m) == (cs + more, r')
  {
    hide NextCounter;
    if m == 0 {
      assert TakeCounters(rest, n).0 + [] == TakeCounters(rest, n).0;
    } else {
      TakeMore(rest, n, m - 1);
      var (cs, r) := TakeCounters(rest, n);
      var (more, r') := TakeCounters(r, m - 1);
      var v := NextCounter(r').0;
      assert cs + more + [v] == cs + (more + [v]);
    }
  }

  lemma NoWordsTaken(rest: seq<Word>)
    ensures TakeWords(rest, 0) == ([], rest)
  {
  }

  lemma OneMoreWord(rest: seq<Word>, n: nat)
    ensures var (words, r) := TakeWords(rest, n); var (w, r') := NextWord(r);
            TakeWords(rest, n + 1) == (words + [w], r')
  {
    hide NextWord;
  }

  /** A record that was written piece by piece. */
  lemma WrittenInParts(before: seq<Word>, head: seq<Word>, count: seq<Word>, body: seq<Word>)
    ensures before + head + count + body == before + head + (count + body) == before + (head + (count + body))
  {
  }

  lemma NextWordOf(w: Word, tail: seq<Word>)
    ensures NextWord([w] + tail) == (w, tail)
  {
  }

  lemma NextCounterOf(v: Counter, tail: seq<Word>)
    ensures NextCounter(CounterWords(v) + tail) == (v, tail)
  {
    CounterRoundTrip(v);
    assert (CounterWords(v) + tail)[2..] == tail;
  }

  // ---------- sequences of requests ----------

  /** A request: one word or one counter. */
  datatype Item = OneWord(w: Word) | OneCounter(v: Counter)

  function WordsOf(item: Item): seq<Word> {
    match item
    case OneWord(w) => [w]
    case OneCounter(v) => CounterWords(v)
  }

  function ItemWords(items: seq<Item>): seq<Word> {
    if items == [] then [] else WordsOf(items[0]) + ItemWords(items[1..])
  }

  /** What a reader gets that asks for a word or for a counter. */
  function NextItem(like: Item, rest: seq<Word>): (Item, seq<Word>) {
    match like
    case OneWord(_) => var (w, r) := NextWord(rest); (OneWord(w), r)
    case OneCounter(_) => var (v, r) := NextCounter(rest); (OneCounter(v), r)
  }

  /** What a reader gets that asks for words and counters in the order of the given items. */
  function Reread(items: seq<Item>, rest: seq<Word>): (seq<Item>, seq<Word>) {
    if items == [] then ([], rest)
    else
      var (item, r) := NextItem(items[0], rest);
      var (more, left) := Reread(items[1..], r);
      ([item] + more, left)
  }

  lemma NextItemRoundTrip(item: Item, tail: seq<Word>)
    ensures NextItem(item, WordsOf(item) + tail) == (item, tail)
  {
    match item
    case OneWord(w) => assert ([w] + tail)[1..] == tail;
    case OneCounter(v) => NextCounterOf(v, tail);
  }

  /** Any sequence of words and counters is read back as it was written, up to where it ends. */
  lemma {:induction false} ItemsRoundTrip(items: seq<Item>, tail: seq<Word>)
    ensures Reread(items, ItemWords(items) + tail) == (items, tail)
  {
    hide NextItem, WordsOf;
    if items == [] {
      assert ItemWords(items) + tail == tail;
    } else {
      var more := ItemWords(items[1..]) + tail;
      assert ItemWords(items) + tail == WordsOf(items[0]) + more;
      NextItemRoundTrip(items[0], more);
      ItemsRoundTrip(items[1..], tail);
      assert [items[0]] + items[1..] == items;
    }
  }

  // ---------- writing ----------

  /** A file open for writing: the words on disk, and the block buffer with one word to spare. */
  class Writer {
    var file: seq<Word>
    var start: nat
    var offset: nat
    const buffer: array<Word>

    ghost predicate Valid()
      reads this
    {
      buffer.Length == BLOCK_SIZE + 1 && offset <= buffer.Length && start == |file|
    }

    /** All words written so far. */
    ghost function Written(): seq<Word>
      requires Valid()
      reads this, buffer
    {
      file + buffer[..offset]
    }

    constructor ()
      ensures Valid() && fresh(buffer) && Written() == []
    {
      file, start, offset := [], 0, 0;
      buffer := new Word[BLOCK_SIZE + 1](_ => 0);
    }

    /** The position in the file is the number of words written. */
    method Position() returns (p: nat)
      requires Valid()
      ensures p == |Written()|
    {
      p := start + offset;
    }

    method WriteBlock(size: nat)
      requires Valid() && size <= offset
      modifies this
      ensures Valid()
      ensures file == old(file) + buffer[..size] && offset == old(offset) - size
    {
      file := file + buffer[..size];
      start := start + size;
      offset := offset - size;
    }

    /** Makes room for one or two more words and returns where in the buffer they go. */
    method Allocate(words: nat) returns (result: nat)
      requires Valid() && 1 <= words <= 2
      modifies this, buffer
      ensures Valid() && offset == result + words
      ensures file + buffer[..result] == old(Written())
      ensures file == if old(offset) < 1024 then old(file) else old(file + buffer[..1024])
    {
      if offset >= BLOCK_SIZE {
        WriteBlock(BLOCK_SIZE);
        if offset > 0 {
          assert offset == 1;
          buffer[0] := buffer[BLOCK_SIZE];
        }
      }
      result := offset;
      offset := offset + words;
    }

    method WriteUnsigned(value: Word)
      requires Valid()
      modifies this, buffer
      ensures Valid() && Written() == old(Written()) + [value]
    {
      var at := Allocate(1);
      buffer[at] := value;
    }

    method WriteCounter(value: Counter)
      requires Valid()
      modifies this, buffer
      ensures Valid() && Written() == old(Written()) + CounterWords(value)
    {
      var at := Allocate(2);
      buffer[at] := LowWord(value);
      buffer[at + 1] := HighWord(value);
    }

    method WriteTagLength(tag: Word, length: Word)
      requires Valid()
      modifies this, buffer
      ensures Valid() && Written() == old(Written()) + [tag, length]
    {
      var at := Allocate(2);
      buffer[at] := tag;
      buffer[at + 1] := length;
    }

    /** Flushes the buffer: everything written is on disk, in order. */
    method Close()
      requires Valid()
      modifies this
      ensures Valid() && file == old(Written()) && offset == 0
    {
      if offset > 0 {
        WriteBlock(offset);
      }
    }
  }

  // ---------- reading ----------

  lemma FrontTaken(buffer: seq<Word>, offset: nat, length: nat, behind: seq<Word>, words: nat)
    requires offset + words <= length <= |buffer|
    ensures var rest := buffer[offset..length] + behind;
            && words <= |rest| && buffer[offset..offset + words] == rest[..words]
            && buffer[offset + words..length] + behind == rest[words..]
  {
  }

  /** A file open for reading: the words on disk, how far they were fetched, and the block buffer. */
  class Reader {
    const file: seq<Word>
    var fetched: nat
    var start: nat
    var offset: nat
    var length: nat
    const buffer: array<Word>

    ghost predicate Valid()
      reads this
    {
      buffer.Length == BLOCK_SIZE + 1 && offset <= length <= buffer.Length && fetched <= |file|
    }

    /** The words that can still be read. */
    ghost function Rest(): seq<Word>
      requires Valid()
      reads this, buffer
    {
      buffer[offset..length] + file[fetched..]
    }

    /** No read has run past the end of the file, so start + offset is the place of the next word. */
    ghost predicate InStep()
      reads this
    {
      start + length == fetched
    }

    constructor (words: seq<Word>)
      ensures Valid() && InStep() && fresh(buffer) && Rest() == words && start + offset == 0
    {
      file, fetched, start, offset, length := words, 0, 0, 0, 0;
      buffer := new Word[BLOCK_SIZE + 1](_ => 0);
    }

    /** Fetches up to size words from disk behind those in the buffer. */
    method Fetch(size: nat) returns (count: nat)
      requires Valid() && offset == 0 && length + size <= buffer.Length
      modifies this, buffer
      ensures Valid() && Rest() == old(Rest())
      ensures offset == 0 && start == old(start) && length == old(length) + count
      ensures count == if |file| - old(fetched) < size then |file| - old(fetched) else size
      ensures fetched == old(fetched) + count
    {
      count := if |file| - fetched < size then |file| - fetched else size;
      ghost var held := buffer[..length];
      forall i | 0 <= i < count {
        buffer[length + i] := file[fetched + i];
      }
      assert buffer[..length + count] == held + file[fetched..fetched + count];
      fetched := fetched + count;
      length := length + count;
    }

    /** Moves a word that is left to the front of the buffer and fetches the next block. */
    method Refill(words: nat)
      requires Valid() && 1 <= words <= 2 && length - offset < words
      modifies this, buffer
      ensures Valid() && Rest() == old(Rest()) && offset == 0
      ensures words <= length || (length == |Rest()| && fetched == |file|)
      ensures fetched == if |file| < old(fetched) + 1024 then |file| else old(fetched) + 1024
      ensures old(InStep()) ==> InStep()
      ensures start == old(start + offset)
    {
      ghost var rest := Rest();
      var excess := length - offset;
      start := start + offset;
      if excess > 0 {
        assert excess == 1;
        buffer[0] := buffer[offset];
      }
      offset := 0;
      length := excess;
      assert length == 0 || length == 1;
      assert Rest() == rest;
      var count := Fetch(BLOCK_SIZE);
    }

    /** Returns where in the buffer the next one or two words are, or none at the end of the file. */
    method ReadWords(words: nat) returns (result: nat, found: bool)
      requires Valid() && 1 <= words <= 2
      modifies this, buffer
      ensures Valid()
      ensures found <==> words <= |old(Rest())|
      ensures found ==> offset == result + words && buffer[result..offset] == old(Rest())[..words]
      ensures Rest() == if found then old(Rest())[words..] else []
      ensures found && old(InStep()) ==> InStep() && start + offset == old(start + offset) + words
    {
      if length - offset < words {
        Refill(words);
        if length < words {
          length := 0;
          assert Rest() == [];
          return 0, false;
        }
      }
      FrontTaken(buffer[..], offset, length, file[fetched..], words);
      result := offset;
      offset := offset + words;
      found := true;
    }

    method ReadUnsigned() returns (value: Word)
      requires Valid()
      modifies this, buffer
      ensures Valid() && (value, Rest()) == NextWord(old(Rest()))
      ensures if old(Rest()) == [] then value == 0 && Rest() == []
              else value == old(Rest())[0] && Rest() == old(Rest())[1..]
      ensures old(InStep()) && old(Rest()) != [] ==> InStep() && start + offset == old(start + offset) + 1
    {
      var at, found := ReadWords(1);
      if !found {
        return 0;
      }
      assert buffer[at..offset][0] == buffer[at];
      value := buffer[at];
    }

    method ReadCounter() returns (value: Counter)
      requires Valid()
      modifies this, buffer
      ensures Valid() && (value, Rest()) == NextCounter(old(Rest()))
      ensures |old(Rest())| < 2 ==> value == 0 && Rest() == []
      ensures old(InStep()) && |old(Rest())| >= 2 ==> InStep() && start + offset == old(start + offset) + 2
    {
      var at, found := ReadWords(2);
      if !found {
        return 0;
      }
      assert buffer[at..offset][0] == buffer[at] && buffer[at..offset][1] == buffer[at + 1];
      value := CounterOf(buffer[at], buffer[at + 1]);
    }
  }
}
