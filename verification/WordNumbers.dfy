/** A 32-bit word as a number: shifting and masking are division and remainder. */
module WordNumbers {
  import opened Powers

  function Number(w: bv32): (x: nat)
    ensures x < 0x1_0000_0000
  {
    w as nat
  }

  function Half(w: bv32): bv32 { w >> 1 }

  function LastBit(w: bv32): bv32 { w & 1 }

  function AppendBit(hi: bv31, lo: bv1): bv32 {
    ((hi as bv32) << 1) | (lo as bv32)
  }

  lemma NumberOfAppended(hi: bv31, lo: bv1)
    ensures Number(AppendBit(hi, lo)) == 2 * (hi as nat) + (lo as nat)
  {
  }

  lemma NumberOfParts(w: bv32)
    ensures Number(Half(w)) == (w >> 1) as bv31 as nat && Number(LastBit(w)) == (w & 1) as bv1 as nat
  {
  }

  lemma NumberByBits(w: bv32)
    ensures Number(w) == 2 * Number(Half(w)) + Number(LastBit(w)) && Number(LastBit(w)) < 2
  {
    hide Number;
    NumberOfAppended((w >> 1) as bv31, (w & 1) as bv1);
    assert AppendBit((w >> 1) as bv31, (w & 1) as bv1) == w;
    NumberOfParts(w);
  }

  // ---------- shifting ----------

  function ShiftedBy(w: bv32, at: bv32): bv32
    requires at < 32
  {
    w >> at
  }

  lemma OneMoreShift(w: bv32, at: bv32)
    requires 0 < at < 32
    ensures ShiftedBy(w, at) == Half(ShiftedBy(w, at - 1))
  {
  }

  lemma NoShift(w: bv32)
    ensures ShiftedBy(w, 0) == w && Number(0) == 0
  {
  }

  lemma OneLess(at: bv32)
    requires 0 < at < 32
    ensures Number(at) == Number(at - 1) + 1
  {
  }

  /** Shifting a word to the right divides its number by a power of two. */
  lemma {:induction false} ShiftDivides(w: bv32, at: bv32)
    requires at < 32
    ensures Number(ShiftedBy(w, at)) == Number(w) / Pow2(Number(at))
  {
    hide Number, ShiftedBy;
    if at == 0 {
      NoShift(w);
    } else {
      ShiftDivides(w, at - 1);
      OneMoreShift(w, at);
      OneLess(at);
      NumberByBits(ShiftedBy(w, at - 1));
      HalfOfQuotient(Number(w), Pow2(Number(at - 1)), Number(ShiftedBy(w, at)), Number(LastBit(ShiftedBy(w, at - 1))));
    }
  }

  lemma HalfOfQuotient(x: nat, p: nat, h: nat, b: nat)
    requires p > 0 && x / p == 2 * h + b && b < 2
    ensures x / (2 * p) == h
  {
    var r := x % p;
    assert x == p * (2 * h + b) + r;
    assert p * (2 * h + b) == 2 * p * h + p * b;
    Divided(x, 2 * p, h, p * b + r);
  }

  lemma Divided(x: nat, d: nat, q: nat, r: nat)
    requires d > 0 && x == d * q + r && r < d
    ensures x / d == q && x % d == r
  {
    if x / d < q {
      MulMonotone(x / d + 1, q, d);
    } else if q < x / d {
      MulMonotone(q + 1, x / d, d);
    }
  }

  // ---------- masking ----------

  function Masked(w: bv32, mask: bv32): bv32 { w & mask }

  /** The mask of the n lowest bits. */
  function Mask(n: nat): bv32 {
    if n == 0 then 0 else Longer(Mask(n - 1))
  }

  function Longer(mask: bv32): bv32 { (mask << 1) | 1 }

  lemma MaskedHalf(w: bv32, m: bv32)
    ensures Half(Masked(w, Longer(m))) == Masked(Half(w), m) && LastBit(Masked(w, Longer(m))) == LastBit(w)
  {
  }

  lemma MaskedAway(w: bv32)
    ensures Number(Masked(w, 0)) == 0
  {
  }

  /** Keeping the n lowest bits of a word is the remainder by a power of two. */
  lemma {:induction false} MaskIsRemainder(w: bv32, n: nat)
    ensures Number(Masked(w, Mask(n))) == Number(w) % Pow2(n)
    decreases n
  {
    hide Number, Masked, Half, LastBit, Longer;
    if n == 0 {
      MaskedAway(w);
    } else {
      MaskIsRemainder(Half(w), n - 1);
      MaskedHalf(w, Mask(n - 1));
      NumberByBits(Masked(w, Mask(n)));
      NumberByBits(w);
      RemainderByBits(Number(Half(w)), Number(LastBit(w)), Pow2(n - 1));
    }
  }

  lemma RemainderByBits(h: nat, b: nat, p: nat)
    requires p > 0 && b < 2
    ensures (2 * h + b) % (2 * p) == 2 * (h % p) + b
  {
    var q, r := h / p, h % p;
    assert h == p * q + r;
    assert 2 * (p * q) == 2 * p * q;
    Divided(2 * h + b, 2 * p, q, 2 * r + b);
  }

  /** The bits of a word from bit number shift on that the mask selects. */
  function Extract(w: bv32, shift: bv32, mask: bv32): bv32
    requires shift < 32
  {
    (w >> shift) & mask
  }

  lemma ExtractIs(w: bv32, shift: bv32, mask: bv32)
    requires shift < 32
    ensures Extract(w, shift, mask) == Masked(ShiftedBy(w, shift), mask)
  {
  }

  /** A field of n bits of a word, from bit number at on. */
  lemma FieldNumber(w: bv32, at: bv32, n: nat)
    requires at < 32
    ensures Number(Extract(w, at, Mask(n))) == Number(w) / Pow2(Number(at)) % Pow2(n)
  {
    hide Number, ShiftedBy, Masked, Extract;
    ExtractIs(w, at, Mask(n));
    ShiftDivides(w, at);
    MaskIsRemainder(ShiftedBy(w, at), n);
  }

  /** The masks of the fields and of the leading bits of an instruction word. */
  lemma MasksAre()
    ensures Mask(2) == 0x3 && Mask(5) == 0x1F && Mask(6) == 0x3F && Mask(8) == 0xFF && Mask(9) == 0x1FF
    ensures Mask(10) == 0x3FF && Mask(11) == 0x7FF && Mask(12) == 0xFFF && Mask(16) == 0xFFFF && Mask(19) == 0x7_FFFF
    ensures Pow2(2) == 0x4 && Pow2(5) == 0x20 && Pow2(6) == 0x40 && Pow2(8) == 0x100 && Pow2(9) == 0x200
    ensures Pow2(10) == 0x400 && Pow2(11) == 0x800 && Pow2(12) == 0x1000 && Pow2(16) == 0x1_0000 && Pow2(19) == 0x8_0000
  {
    assert Mask(4) == 0xF && Mask(14) == 0x3FFF;
    assert Pow2(4) == 0x10 && Pow2(14) == 0x4000;
  }
}
