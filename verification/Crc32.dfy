/** The checksum that identifies a program: 32-bit words folded into a cyclic redundancy check. */
module Crc32 {

  const POLYNOMIAL: bv32 := 0x04c11db7
  const TOP_BIT: bv32 := 0x80000000

  function Xor(a: bv32, b: bv32): bv32 { a ^ b }

  function Double(v: bv32): bv32 { v << 1 }

  function Feedback(z: bv32): bv32 { if z & TOP_BIT != 0 then POLYNOMIAL else 0 }

  /** One shift of the register, with the polynomial fed back when the top bit falls out. */
  function Shift(z: bv32): bv32 {
    Xor(Double(z), Feedback(z))
  }

  function Shifts(z: bv32, n: nat): bv32 {
    if n == 0 then z else Shift(Shifts(z, n - 1))
  }

  /** The register after one word. */
  function Crc(crc: bv32, value: bv32): bv32 {
    Shifts(Xor(crc, value), 32)
  }

  /** The register after a stream of words. */
  function Fold(crc: bv32, words: seq<bv32>): bv32 {
    if words == [] then crc else Crc(Fold(crc, words[..|words| - 1]), words[|words| - 1])
  }

  /** One step of the loop: the word and the register move together, so only their difference matters. */
  method Step(crc32: bv32, value: bv32) returns (crc: bv32, v: bv32)
    ensures Xor(crc, v) == Shift(Xor(crc32, value)) && v == Double(value)
  {
    var feedback: bv32 := if (value ^ crc32) & TOP_BIT != 0 then POLYNOMIAL else 0;
    crc := crc32 << 1;
    crc := crc ^ feedback;
    v := value << 1;
  }

  method Crc32Unsigned(crc32: bv32, value: bv32) returns (crc: bv32)
    ensures crc == Crc(crc32, value)
  {
    hide Xor, Shift, Double, Shifts, Doubled;
    crc := crc32;
    var v := value;
    var ix := 32;
    StepsBegin(Xor(crc32, value), value);
    while ix > 0
      invariant 0 <= ix <= 32
      invariant Xor(crc, v) == Shifts(Xor(crc32, value), 32 - ix)
      invariant v == Doubled(value, 32 - ix)
    {
      ix := ix - 1;
      StepsGoOn(Xor(crc32, value), value, 31 - ix);
      crc, v := Step(crc, v);
    }
    DoubledAway(value);
    XorZero(crc);
  }

  lemma XorZero(z: bv32)
    ensures Xor(z, 0) == z
  {
  }

  lemma StepsBegin(z: bv32, v: bv32)
    ensures Shifts(z, 0) == z && Doubled(v, 0) == v
  {
  }

  lemma StepsGoOn(z: bv32, v: bv32, n: nat)
    ensures Shifts(z, n + 1) == Shift(Shifts(z, n)) && Doubled(v, n + 1) == Double(Doubled(v, n))
  {
    hide Shift, Double;
  }

  function Doubled(v: bv32, n: nat): bv32 {
    if n == 0 then v else Double(Doubled(v, n - 1))
  }

  function Shl4(v: bv32): bv32 { v << 4 }

  lemma FourTimes(v: bv32)
    ensures Double(Double(Double(Double(v)))) == Shl4(v)
  {
  }

  lemma FourMore(v: bv32, n: nat)
    ensures Doubled(v, n + 4) == Shl4(Doubled(v, n))
  {
    hide Double, Shl4, Doubled, Shifts, Shift;
    StepsGoOn(v, v, n);
    StepsGoOn(v, v, n + 1);
    StepsGoOn(v, v, n + 2);
    StepsGoOn(v, v, n + 3);
    FourTimes(Doubled(v, n));
  }

  lemma EightNibbles(v: bv32)
    ensures Shl4(Shl4(Shl4(Shl4(Shl4(Shl4(Shl4(Shl4(v)))))))) == 0
  {
  }

  /** After 32 steps every bit of the word has been shifted out. */
  lemma DoubledAway(v: bv32)
    ensures Doubled(v, 32) == 0
  {
    hide Doubled, Shl4, Shifts;
    StepsBegin(v, v);
    FourMore(v, 0);
    FourMore(v, 4);
    FourMore(v, 8);
    FourMore(v, 12);
    FourMore(v, 16);
    FourMore(v, 20);
    FourMore(v, 24);
    FourMore(v, 28);
    EightNibbles(v);
  }

  lemma FourShifts(z: bv32, n: nat)
    requires Shifts(1, n) == z && z & 0xF000_0000 == 0
    ensures Shifts(1, n + 4) == z << 4
  {
    hide Shifts;
    StepsGoOn(1, 0, n);
    StepsGoOn(1, 0, n + 1);
    StepsGoOn(1, 0, n + 2);
    StepsGoOn(1, 0, n + 3);
  }

  /** The checksum of the single word 1 is the polynomial, that of IEEE 802.3, section 3.2.9. */
  lemma ChecksumOfOne()
    ensures Crc(0, 1) == 0x04c1_1db7
  {
    hide Shifts;
    StepsBegin(1, 0);
    FourShifts(1, 0);
    FourShifts(0x10, 4);
    FourShifts(0x100, 8);
    FourShifts(0x1000, 12);
    FourShifts(0x1_0000, 16);
    FourShifts(0x10_0000, 20);
    FourShifts(0x100_0000, 24);
    StepsGoOn(1, 0, 28);
    StepsGoOn(1, 0, 29);
    StepsGoOn(1, 0, 30);
    StepsGoOn(1, 0, 31);
  }

  // ---------- no two registers or words are confused ----------

  /** The inverse of one shift: the low bit tells whether the polynomial was fed back. */
  function Unshift(y: bv32): bv32 {
    if y & 1 != 0 then ((y ^ POLYNOMIAL) >> 1) | TOP_BIT else y >> 1
  }

  lemma UnshiftFedBack(z: bv32)
    requires z & TOP_BIT != 0
    ensures Unshift(Shift(z)) == z
  {
  }

  lemma UnshiftPlain(z: bv32)
    requires z & TOP_BIT == 0
    ensures Unshift(Shift(z)) == z
  {
  }

  lemma ShiftOdd(y: bv32)
    requires y & 1 != 0
    ensures Shift(Unshift(y)) == y
  {
  }

  lemma ShiftEven(y: bv32)
    requires y & 1 == 0
    ensures Shift(Unshift(y)) == y
  {
  }

  /** No two register contents become the same, and none is out of reach. */
  lemma ShiftInvertible(z: bv32)
    ensures Unshift(Shift(z)) == z && Shift(Unshift(z)) == z
  {
    hide Shift, Unshift;
    if z & TOP_BIT != 0 {
      UnshiftFedBack(z);
    } else {
      UnshiftPlain(z);
    }
    if z & 1 != 0 {
      ShiftOdd(z);
    } else {
      ShiftEven(z);
    }
  }

  function Unshifts(y: bv32, n: nat): bv32
    decreases n
  {
    if n == 0 then y else Unshifts(Unshift(y), n - 1)
  }

  lemma {:induction false} ShiftsInvertible(z: bv32, n: nat)
    ensures Unshifts(Shifts(z, n), n) == z
    decreases n
  {
    hide Shift, Unshift;
    if n > 0 {
      ShiftInvertible(Shifts(z, n - 1));
      ShiftsInvertible(z, n - 1);
    }
  }

  lemma {:induction false} UnshiftsInvertible(y: bv32, n: nat)
    ensures Shifts(Unshifts(y, n), n) == y
    decreases n
  {
    hide Shift, Unshift;
    if n > 0 {
      UnshiftsInvertible(Unshift(y), n - 1);
      ShiftInvertible(y);
    }
  }

  lemma XorCancels(a: bv32, b: bv32)
    ensures Xor(a, Xor(a, b)) == b && Xor(Xor(a, b), a) == b && Xor(a, Xor(b, a)) == b
  {
  }

  /** Computes back one argument of a checksum from the other and the result. */
  function Uncrc(other: bv32, y: bv32): bv32 {
    Xor(other, Unshifts(y, 32))
  }

  /**
   The checksum is a bijection in each argument: from the result and either argument the other can be
   computed, and every result is reached.
   */
  lemma CrcBijective(crc: bv32, value: bv32, y: bv32)
    ensures Uncrc(crc, Crc(crc, value)) == value
    ensures Uncrc(value, Crc(crc, value)) == crc
    ensures Crc(crc, Uncrc(crc, y)) == y
    ensures Crc(Uncrc(value, y), value) == y
  {
    hide Xor, Shifts, Unshifts;
    ShiftsInvertible(Xor(crc, value), 32);
    UnshiftsInvertible(y, 32);
    XorCancels(crc, value);
    XorCancels(value, crc);
    XorCancels(crc, Unshifts(y, 32));
    XorCancels(value, Unshifts(y, 32));
  }

  lemma {:induction false} FoldInjectiveInStart(c: bv32, d: bv32, words: seq<bv32>)
    requires c != d
    ensures Fold(c, words) != Fold(d, words)
  {
    hide Crc, Uncrc;
    if words != [] {
      var init, w := words[..|words| - 1], words[|words| - 1];
      FoldInjectiveInStart(c, d, init);
      CrcBijective(Fold(c, init), w, 0);
      CrcBijective(Fold(d, init), w, 0);
    }
  }

  lemma {:induction false} FoldSplit(c: bv32, a: seq<bv32>, b: seq<bv32>)
    ensures Fold(c, a + b) == Fold(Fold(c, a), b)
  {
    hide Crc;
    if b == [] {
      assert a + b == a;
    } else {
      var init, w := b[..|b| - 1], b[|b| - 1];
      assert (a + b)[..|a + b| - 1] == a + init;
      FoldSplit(c, a, init);
    }
  }

  lemma FoldAppend(c: bv32, a: seq<bv32>, w: bv32)
    ensures Fold(c, a + [w]) == Crc(Fold(c, a), w)
  {
    hide Crc;
    assert (a + [w])[..|a|] == a;
  }

  /** Two streams of words that differ in exactly one place have different checksums. */
  lemma OneWordDetected(c: bv32, words: seq<bv32>, k: nat, w: bv32)
    requires k < |words| && w != words[k]
    ensures Fold(c, words[k := w]) != Fold(c, words)
  {
    hide Crc, Uncrc, Fold;
    var a, b := words[..k], words[k + 1..];
    assert words == a + [words[k]] + b && words[k := w] == a + [w] + b;
    FoldSplit(c, a + [words[k]], b);
    FoldSplit(c, a + [w], b);
    FoldAppend(c, a, words[k]);
    FoldAppend(c, a, w);
    CrcBijective(Fold(c, a), w, 0);
    CrcBijective(Fold(c, a), words[k], 0);
    FoldInjectiveInStart(Fold(c, a + [w]), Fold(c, a + [words[k]]), b);
  }
}
