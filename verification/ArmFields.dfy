/** The fields and the leading bits of an instruction word, from the word as a number. */
module ArmFields {
  import opened Powers
  import opened WordNumbers
  import opened ArmDecode

  lemma Places()
    ensures Number(0) == 0 && Number(5) == 5 && Number(10) == 10 && Number(12) == 12 && Number(16) == 16
    ensures Number(21) == 21 && Number(22) == 22 && Number(24) == 24 && Number(26) == 26
  {
  }

  lemma PlacePowers()
    ensures Pow2(0) == 1 && Pow2(5) == 32 && Pow2(10) == 1024 && Pow2(12) == 4096 && Pow2(16) == 0x1_0000
    ensures Pow2(21) == 0x20_0000 && Pow2(22) == 0x40_0000 && Pow2(24) == 0x100_0000 && Pow2(26) == 0x400_0000
  {
    assert Pow2(4) == 16 && Pow2(8) == 256 && Pow2(14) == 0x4000 && Pow2(20) == 0x10_0000;
  }

  /** The fields of the instruction's format are those of the word with number x. */
  predicate HasFields(i: Instruction, x: nat) {
    match FormatOf(i.name)
    case I => i.rd == x % 32 && i.rn == x / 32 % 32 && i.aluImmediate == x / 1024 % 4096 && i.shamt == x / 0x40_0000 % 4
    case X => i.rd == x % 32 && i.rn == x / 32 % 32 && i.rm == x / 0x1_0000 % 32
    case IW => i.rd == x % 32 && i.movImmediate == x / 32 % 0x1_0000 && i.shamt == x / 0x20_0000 % 4
    case R => i.rd == x % 32 && i.rn == x / 32 % 32 && i.shamt == x / 1024 % 64 && i.rm == x / 0x1_0000 % 64
    case CB => i.rt == x % 32 && i.condBrAddress == x / 32 % 0x8_0000
    case BF => i.brAddress == x % 64
    case D => i.rd == x % 32 && i.rn == x / 32 % 32 && i.dtAddress == x / 4096 % 512
    case NoFormat => false
  }

  /** The fields of all other formats are as they were. */
  predicate KeepsOthers(i: Instruction, unset: Instruction) {
    var f := FormatOf(i.name);
    && (f == CB || f == BF ==> i.rd == unset.rd)
    && (f == CB || f == BF || f == IW ==> i.rn == unset.rn)
    && (f != X && f != R ==> i.rm == unset.rm)
    && (f != CB ==> i.rt == unset.rt && i.condBrAddress == unset.condBrAddress)
    && (f != I && f != IW && f != R ==> i.shamt == unset.shamt)
    && (f != I ==> i.aluImmediate == unset.aluImmediate)
    && (f != D ==> i.dtAddress == unset.dtAddress)
    && (f != BF ==> i.brAddress == unset.brAddress)
    && (f != IW ==> i.movImmediate == unset.movImmediate)
  }

  lemma OperandsAre(e: Entry, w: bv32, unset: Instruction)
    requires e.format == FormatOf(e.name) && e.format != NoFormat
    ensures var i := Operands(e, w, unset);
            i.name == e.name && HasFields(i, Number(w)) && KeepsOthers(i, unset)
  {
    hide Number, FormatOf, Bits2, Bits5, Bits6, Bits9, Bits12, Bits16, Bits19, Pow2;
    Places();
    PlacePowers();
  }

  /** Every word that decodes to an instruction gives it the fields of its format, and leaves the others as they were. */
  lemma DecodedFields(w: bv32, unset: Instruction)
    ensures var i := Decoded(w, unset); i.Some? ==> HasFields(i.value, Number(w)) && KeepsOthers(i.value, unset)
  {
    hide EntryOf, Operands, HasFields, KeepsOthers, FormatOf, Number;
    EntryFormat(w);
    var e := EntryOf(w);
    if e.Some? && e.value.format != NoFormat {
      OperandsAre(e.value, w, unset);
    }
  }

  // ---------- the leading bits ----------

  /** Eleven, ten, eight and six leading bits. */
  lemma TopNumbers(w: bv32)
    ensures Number(Extract(w, 21, 0x7FF)) == Number(w) / 0x20_0000
    ensures Number(Extract(w, 22, 0x3FF)) == Number(w) / 0x40_0000
    ensures Number(Extract(w, 24, 0xFF)) == Number(w) / 0x100_0000
    ensures Number(Extract(w, 26, 0x3F)) == Number(w) / 0x400_0000
  {
    hide Number, Extract, Pow2, Mask;
    Places();
    PlacePowers();
    MasksAre();
    FieldNumber(w, 21, 11);
    FieldNumber(w, 22, 10);
    FieldNumber(w, 24, 8);
    FieldNumber(w, 26, 6);
  }

  // ---------- which instruction a word is ----------

  lemma NotZero(a: bv32)
    requires a != 0
    ensures Number(a) != 0
  {
  }

  lemma SameBits(a: bv32, b: bv32)
    requires Half(a) == Half(b) && LastBit(a) == LastBit(b)
    ensures a == b
  {
  }

  /** Different words have different numbers. */
  lemma {:induction false} NumberInjective(a: bv32, b: bv32)
    requires Number(a) == Number(b)
    ensures a == b
    decreases Number(a)
  {
    hide Number, Half, LastBit;
    if a == 0 || b == 0 {
      Places();
      if a != 0 {
        NotZero(a);
      }
      if b != 0 {
        NotZero(b);
      }
    } else {
      NotZero(a);
      NumberByBits(a);
      NumberByBits(b);
      NumberInjective(Half(a), Half(b));
      LastBits(a, b);
      SameBits(a, b);
    }
  }

  lemma LastBits(a: bv32, b: bv32)
    requires Number(LastBit(a)) == Number(LastBit(b))
    ensures LastBit(a) == LastBit(b)
  {
  }

  /** Where each instruction begins with which bits, as the number of the word without the bits after them. */
  predicate Begins(name: Name, x: nat) {
    match name
    case Hlt => x / 0x20_0000 == 0x6A2
    case Orr => x / 0x20_0000 == 0x550
    case Br => x / 0x20_0000 == 0x6B0
    case Lsl => x / 0x20_0000 == 0x69B
    case Lsr => x / 0x20_0000 == 0x69A
    case Stur => x / 0x20_0000 == 0x7C0
    case Sturb => x / 0x20_0000 == 0x1C0
    case Ldur => x / 0x20_0000 == 0x7C2
    case Ldurh => x / 0x20_0000 == 0x3C2
    case Mul => x / 0x20_0000 == 0x4D8
    case AddsExtended => x / 0x40_0000 == 0x2AC
    case SubsExtended => x / 0x40_0000 == 0x3AC
    case Sturh => x / 0x40_0000 == 0x1E0
    case Ldurb => x / 0x40_0000 == 0xE1
    case AddExtended => x / 0x40_0000 == 0x22C
    case AddsImmediate => x / 0x100_0000 == 0xB1
    case SubsImmediate => x / 0x100_0000 == 0xF1
    case Ands => x / 0x100_0000 == 0xEA
    case Eor => x / 0x100_0000 == 0xCA
    case BCond => x / 0x100_0000 == 0x54
    case Movz => x / 0x100_0000 == 0xD2
    case AddImmediate => x / 0x100_0000 == 0x91
    case Cbz => x / 0x100_0000 == 0xB4
    case Cbnz => x / 0x100_0000 == 0xB5
    case B => x / 0x400_0000 == 0x5 && x / 0x20_0000 != 0xB1 && x / 0x20_0000 != 0xB4 && x / 0x20_0000 != 0xB5
    case _ => false
  }

  /** What the number of a word is divided by to get its n leading bits. */
  function Divisor(n: nat): nat {
    if n == 6 then 0x400_0000 else if n == 8 then 0x100_0000 else if n == 10 then 0x40_0000 else 0x20_0000
  }

  lemma FirstRowsBegin(k: nat, x: nat)
    requires k < 5 && Begins(Row(k).name, x)
    ensures x / Divisor(Width(k)) == Number(Row(k).opcode)
  {
  }

  lemma SecondRowsBegin(k: nat, x: nat)
    requires 5 <= k < 10 && Begins(Row(k).name, x)
    ensures x / Divisor(Width(k)) == Number(Row(k).opcode)
  {
  }

  lemma ThirdRowsBegin(k: nat, x: nat)
    requires 10 <= k < 15 && Begins(Row(k).name, x)
    ensures x / Divisor(Width(k)) == Number(Row(k).opcode)
  {
  }

  lemma FourthRowsBegin(k: nat, x: nat)
    requires 15 <= k < 20 && Begins(Row(k).name, x)
    ensures x / Divisor(Width(k)) == Number(Row(k).opcode)
  {
  }

  lemma FifthRowsBegin(k: nat, x: nat)
    requires 20 <= k < 25 && Begins(Row(k).name, x)
    ensures x / Divisor(Width(k)) == Number(Row(k).opcode)
  {
  }

  lemma LeadingNumber(w: bv32, k: nat)
    ensures Number(Leading(w, k)) == Number(w) / Divisor(Width(k))
  {
    hide Number, Extract;
    TopNumbers(w);
  }

  lemma BranchNotOther(w: bv32)
    requires Begins(B, Number(w))
    ensures !ReadAsOther(w)
  {
    hide Number, Extract, Row;
    TopNumbers(w);
    OtherOpcodes();
  }

  lemma OtherOpcodes()
    ensures Number(Row(1).opcode) == 0xB1 && Number(Row(23).opcode) == 0xB4 && Number(Row(24).opcode) == 0xB5
  {
  }

  lemma RowDecoded(w: bv32, k: nat, unset: Instruction)
    requires k <= 24 && Begins(Row(k).name, Number(w))
    ensures var i := Decoded(w, unset); i.Some? && i.value.name == Row(k).name
  {
    hide Begins, Row, Number, Leading, Divisor, EntryOf, ReadAsOther, FormatOf;
    if k < 5 {
      FirstRowsBegin(k, Number(w));
    } else if k < 10 {
      SecondRowsBegin(k, Number(w));
    } else if k < 15 {
      ThirdRowsBegin(k, Number(w));
    } else if k < 20 {
      FourthRowsBegin(k, Number(w));
    } else {
      FifthRowsBegin(k, Number(w));
    }
    LeadingNumber(w, k);
    NumberInjective(Leading(w, k), Row(k).opcode);
    if k == 8 {
      EighthRow();
      BranchNotOther(w);
    }
    RowIff(w, k);
    RowOfFormat(k);
  }

  lemma EighthRow()
    ensures Row(8).name == B
  {
  }

  lemma RowOfFormat(k: nat)
    requires k <= 24
    ensures Row(k).format != NoFormat
  {
  }

  function RowOf(name: Name): nat {
    match name
    case AddsExtended => 0
    case AddsImmediate => 1
    case SubsExtended => 2
    case SubsImmediate => 3
    case Hlt => 4
    case Ands => 5
    case Eor => 6
    case Orr => 7
    case B => 8
    case Br => 9
    case BCond => 10
    case Lsl => 11
    case Lsr => 12
    case Stur => 13
    case Sturb => 14
    case Sturh => 15
    case Ldur => 16
    case Ldurh => 17
    case Ldurb => 18
    case Movz => 19
    case AddExtended => 20
    case AddImmediate => 21
    case Mul => 22
    case Cbz => 23
    case Cbnz => 24
    case _ => 25
  }

  lemma RowOfName(name: Name, x: nat)
    requires Begins(name, x)
    ensures RowOf(name) <= 24 && Row(RowOf(name)).name == name
  {
  }

  /** A word that begins with the bits of an instruction decodes to it, with the fields that the word holds. */
  lemma DecodedAs(w: bv32, name: Name, unset: Instruction)
    requires Begins(name, Number(w))
    ensures var i := Decoded(w, unset);
            && i.Some? && i.value.name == name && Fits(i.value)
            && HasFields(i.value, Number(w)) && KeepsOthers(i.value, unset)
  {
    hide Begins, Row, RowOf, Number, Decoded, HasFields, KeepsOthers, Fits;
    RowOfName(name, Number(w));
    RowDecoded(w, RowOf(name), unset);
    DecodedFields(w, unset);
    DecodedFits(w, unset);
  }
}
