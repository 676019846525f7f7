/** From a 32-bit word to an instruction. */
module ArmDecode {
  import opened Powers
  import opened WordNumbers

  datatype Option<T> = None | Some(value: T)

  datatype Name =
    | AddsExtended | AddsImmediate | SubsExtended | SubsImmediate | Hlt | Ands | Eor | Orr | B | Br | BCond
    | Lsl | Lsr | Stur | Sturb | Sturh | Ldur | Ldurh | Ldurb | Movz | AddExtended | AddImmediate | Mul
    | Cbz | Cbnz | SubImmediate | AndImmediate | Padding

  datatype Format = I | X | IW | R | CB | BF | D | NoFormat

  datatype Entry = Entry(opcode: bv32, format: Format, name: Name)

  const OPCODE_TABLE_SIZE := 50

  /** Row k of the opcode table. The opcodes of rows 25 and 26 are decimal numbers; the rows after them are zero. */
  function Row(k: nat): Entry {
    if k == 0 then Entry(0x2AC, X, AddsExtended)
    else if k == 1 then Entry(0xB1, I, AddsImmediate)
    else if k == 2 then Entry(0x3AC, X, SubsExtended)
    else if k == 3 then Entry(0xF1, I, SubsImmediate)
    else if k == 4 then Entry(0x6A2, CB, Hlt)
    else if k == 5 then Entry(0xEA, X, Ands)
    else if k == 6 then Entry(0xCA, X, Eor)
    else if k == 7 then Entry(0x550, I, Orr)
    else if k == 8 then Entry(0x5, BF, B)
    else if k == 9 then Entry(0x6B0, I, Br)
    else if k == 10 then Entry(0x54, CB, BCond)
    else if k == 11 then Entry(0x69B, R, Lsl)
    else if k == 12 then Entry(0x69A, R, Lsr)
    else if k == 13 then Entry(0x7C0, D, Stur)
    else if k == 14 then Entry(0x1C0, D, Sturb)
    else if k == 15 then Entry(0x1E0, D, Sturh)
    else if k == 16 then Entry(0x7C2, D, Ldur)
    else if k == 17 then Entry(0x3C2, D, Ldurh)
    else if k == 18 then Entry(0xE1, D, Ldurb)
    else if k == 19 then Entry(0xD2, IW, Movz)
    else if k == 20 then Entry(0x22C, R, AddExtended)
    else if k == 21 then Entry(0x91, I, AddImmediate)
    else if k == 22 then Entry(0x4D8, X, Mul)
    else if k == 23 then Entry(0xB4, CB, Cbz)
    else if k == 24 then Entry(0xB5, CB, Cbnz)
    else if k == 25 then Entry(11010001, I, SubImmediate)
    else if k == 26 then Entry(1001001000, I, AndImmediate)
    else Entry(0, NoFormat, Padding)
  }

  /** The fields that no format sets keep whatever they held before. */
  datatype Instruction = Instruction(
    name: Name, rd: nat, rn: nat, rm: nat, rt: nat, shamt: nat, aluImmediate: nat, dtAddress: nat, brAddress: nat,
    condBrAddress: nat, movImmediate: nat)

  // ---------- the opcode ----------

  /** The first row from row k on that has the opcode. */
  function FirstFrom(opcode: bv32, k: nat): Option<Entry>
    requires k <= OPCODE_TABLE_SIZE
    decreases OPCODE_TABLE_SIZE - k
  {
    if k == OPCODE_TABLE_SIZE then None
    else if Row(k).opcode == opcode then Some(Row(k))
    else FirstFrom(opcode, k + 1)
  }

  /** The row that a word belongs to: its opcode is looked up with eleven bits, then with six, eight and ten. */
  function EntryOf(w: bv32): Option<Entry> {
    var e11 := FirstFrom(Extract(w, 21, 0x7FF), 0);
    if e11.Some? then e11
    else
      var e6 := FirstFrom(Extract(w, 26, 0x3F), 0);
      if e6.Some? then e6
      else
        var e8 := FirstFrom(Extract(w, 24, 0xFF), 0);
        if e8.Some? then e8 else FirstFrom(Extract(w, 22, 0x3FF), 0)
  }

  method FindOpcode(opcode: bv32) returns (e: Option<Entry>)
    ensures e == FirstFrom(opcode, 0)
  {
    hide Row;
    for i := 0 to OPCODE_TABLE_SIZE
      invariant FirstFrom(opcode, 0) == FirstFrom(opcode, i)
    {
      if Row(i).opcode == opcode {
        return Some(Row(i));
      }
    }
    return None;
  }

  method DecodeOpcode(w: bv32) returns (e: Option<Entry>)
    ensures e == EntryOf(w)
  {
    hide FirstFrom, Extract;
    e := FindOpcode(Extract(w, 21, 0x7FF));
    if e.Some? {
      return;
    }
    e := FindOpcode(Extract(w, 26, 0x3F));
    if e.Some? {
      return;
    }
    e := FindOpcode(Extract(w, 24, 0xFF));
    if e.Some? {
      return;
    }
    e := FindOpcode(Extract(w, 22, 0x3FF));
  }

  // ---------- the operands ----------

  function Bits2(w: bv32, at: bv32): (r: nat)
    requires at < 32
    ensures r < 4 && r == Number(w) / Pow2(Number(at)) % 4
  {
    hide Number, Extract;
    FieldNumber(w, at, 2);
    MasksAre();
    Number(Extract(w, at, 0x3))
  }

  function Bits5(w: bv32, at: bv32): (r: nat)
    requires at < 32
    ensures r < 32 && r == Number(w) / Pow2(Number(at)) % 32
  {
    hide Number, Extract;
    FieldNumber(w, at, 5);
    MasksAre();
    Number(Extract(w, at, 0x1F))
  }

  function Bits6(w: bv32, at: bv32): (r: nat)
    requires at < 32
    ensures r < 64 && r == Number(w) / Pow2(Number(at)) % 64
  {
    hide Number, Extract;
    FieldNumber(w, at, 6);
    MasksAre();
    Number(Extract(w, at, 0x3F))
  }

  function Bits9(w: bv32, at: bv32): (r: nat)
    requires at < 32
    ensures r < 0x200 && r == Number(w) / Pow2(Number(at)) % 0x200
  {
    hide Number, Extract;
    FieldNumber(w, at, 9);
    MasksAre();
    Number(Extract(w, at, 0x1FF))
  }

  function Bits12(w: bv32, at: bv32): (r: nat)
    requires at < 32
    ensures r < 0x1000 && r == Number(w) / Pow2(Number(at)) % 0x1000
  {
    hide Number, Extract;
    FieldNumber(w, at, 12);
    MasksAre();
    Number(Extract(w, at, 0xFFF))
  }

  function Bits16(w: bv32, at: bv32): (r: nat)
    requires at < 32
    ensures r < 0x1_0000 && r == Number(w) / Pow2(Number(at)) % 0x1_0000
  {
    hide Number, Extract;
    FieldNumber(w, at, 16);
    MasksAre();
    Number(Extract(w, at, 0xFFFF))
  }

  function Bits19(w: bv32, at: bv32): (r: nat)
    requires at < 32
    ensures r < 0x8_0000 && r == Number(w) / Pow2(Number(at)) % 0x8_0000
  {
    hide Number, Extract;
    FieldNumber(w, at, 19);
    MasksAre();
    Number(Extract(w, at, 0x7_FFFF))
  }

  /** Sets the fields of the instruction's format. */
  function Operands(e: Entry, w: bv32, unset: Instruction): Instruction {
    var i := unset.(name := e.name);
    match e.format
    case I => i.(rd := Bits5(w, 0), rn := Bits5(w, 5), aluImmediate := Bits12(w, 10), shamt := Bits2(w, 22))
    case X => i.(rd := Bits5(w, 0), rn := Bits5(w, 5), rm := Bits5(w, 16))
    case IW => i.(rd := Bits5(w, 0), movImmediate := Bits16(w, 5), shamt := Bits2(w, 21))
    case R => i.(rd := Bits5(w, 0), rn := Bits5(w, 5), shamt := Bits6(w, 10), rm := Bits6(w, 16))
    case CB => i.(condBrAddress := Bits19(w, 5), rt := Bits5(w, 0))
    case BF => i.(brAddress := Bits6(w, 0))
    case D => i.(rd := Bits5(w, 0), rn := Bits5(w, 5), dtAddress := Bits9(w, 12))
    case NoFormat => i
  }

  function FormatOf(name: Name): Format {
    match name
    case AddsImmediate | SubsImmediate | Orr | Br | AddImmediate | SubImmediate | AndImmediate => I
    case AddsExtended | SubsExtended | Ands | Eor | Mul => X
    case Movz => IW
    case Lsl | Lsr | AddExtended => R
    case Hlt | BCond | Cbz | Cbnz => CB
    case B => BF
    case Stur | Sturb | Sturh | Ldur | Ldurh | Ldurb => D
    case Padding => NoFormat
  }

  /** The fields of the instruction's format are as wide as they are in a word. */
  predicate Fits(i: Instruction) {
    match FormatOf(i.name)
    case I => i.rd < 32 && i.rn < 32 && i.aluImmediate < 0x1000 && i.shamt < 4
    case X => i.rd < 32 && i.rn < 32 && i.rm < 32
    case IW => i.rd < 32 && i.movImmediate < 0x1_0000 && i.shamt < 4
    case R => i.rd < 32 && i.rn < 32 && i.shamt < 64 && i.rm < 64
    case CB => i.condBrAddress < 0x8_0000 && i.rt < 32
    case BF => i.brAddress < 64
    case D => i.rd < 32 && i.rn < 32 && i.dtAddress < 0x200
    case NoFormat => false
  }

  /** A word without a row, or one that matches the padding, decodes to nothing. */
  function Decoded(w: bv32, unset: Instruction): Option<Instruction> {
    match EntryOf(w)
    case None => None
    case Some(e) => if e.format == NoFormat then None else Some(Operands(e, w, unset))
  }

  method Decode(w: bv32, unset: Instruction) returns (i: Option<Instruction>)
    ensures i == Decoded(w, unset)
  {
    hide EntryOf, Operands;
    var e := DecodeOpcode(w);
    if e.None? || e.value.format == NoFormat {
      return None;
    }
    i := Some(Operands(e.value, w, unset));
  }

  lemma LowRowHasFormat(k: nat)
    requires k < 13
    ensures Row(k).format == FormatOf(Row(k).name)
  {
  }

  lemma MiddleRowHasFormat(k: nat)
    requires 13 <= k < 20
    ensures Row(k).format == FormatOf(Row(k).name)
  {
  }

  lemma HighRowHasFormat(k: nat)
    requires k >= 20
    ensures Row(k).format == FormatOf(Row(k).name)
  {
  }

  lemma RowHasFormat(k: nat)
    ensures Row(k).format == FormatOf(Row(k).name)
  {
    hide Row, FormatOf;
    if k < 13 {
      LowRowHasFormat(k);
    } else if k < 20 {
      MiddleRowHasFormat(k);
    } else {
      HighRowHasFormat(k);
    }
  }

  lemma {:induction false} RowFormat(opcode: bv32, k: nat)
    requires k <= OPCODE_TABLE_SIZE
    ensures var e := FirstFrom(opcode, k); e.Some? ==> e.value.format == FormatOf(e.value.name)
    decreases OPCODE_TABLE_SIZE - k
  {
    hide Row, FormatOf;
    if k < OPCODE_TABLE_SIZE {
      RowHasFormat(k);
      RowFormat(opcode, k + 1);
    }
  }

  lemma EntryFormat(w: bv32)
    ensures var e := EntryOf(w); e.Some? ==> e.value.format == FormatOf(e.value.name)
  {
    hide FirstFrom, FormatOf, Extract;
    RowFormat(Extract(w, 21, 0x7FF), 0);
    RowFormat(Extract(w, 26, 0x3F), 0);
    RowFormat(Extract(w, 24, 0xFF), 0);
    RowFormat(Extract(w, 22, 0x3FF), 0);
  }

  /** Whatever the unset fields hold, the fields that the instruction uses are in range. */
  lemma DecodedFits(w: bv32, unset: Instruction)
    ensures var i := Decoded(w, unset); i.Some? ==> Fits(i.value)
  {
    hide EntryOf, Operands, Fits, FormatOf;
    EntryFormat(w);
    var e := EntryOf(w);
    if e.Some? && e.value.format != NoFormat {
      OperandsFit(e.value, w, unset);
    }
  }

  lemma OperandsFit(e: Entry, w: bv32, unset: Instruction)
    requires e.format == FormatOf(e.name) && e.format != NoFormat
    ensures Fits(Operands(e, w, unset))
  {
    hide FormatOf, Bits2, Bits5, Bits6, Bits9, Bits12, Bits16, Bits19;
  }

  // ---------- which words are which instructions ----------

  lemma {:induction false} RowFound(opcode: bv32, j: nat, k: nat)
    requires j <= k < OPCODE_TABLE_SIZE && Row(k).opcode == opcode
    requires forall i :: j <= i < k ==> Row(i).opcode != opcode
    ensures FirstFrom(opcode, j) == Some(Row(k))
    decreases k - j
  {
    hide Row;
    if j < k {
      RowFound(opcode, j + 1, k);
    }
  }

  lemma {:induction false} NoRow(opcode: bv32, j: nat)
    requires j <= OPCODE_TABLE_SIZE
    requires forall i :: j <= i < OPCODE_TABLE_SIZE ==> Row(i).opcode != opcode
    ensures FirstFrom(opcode, j) == None
    decreases OPCODE_TABLE_SIZE - j
  {
    hide Row;
    if j < OPCODE_TABLE_SIZE {
      NoRow(opcode, j + 1);
    }
  }

  /** Every opcode of the table is found in its own row. */
  lemma OwnRow(k: nat)
    requires k <= 26
    ensures FirstFrom(Row(k).opcode, 0) == Some(Row(k))
  {
    hide FirstFrom;
    RowFound(Row(k).opcode, 0, k);
  }

  /** How many bits of a word the opcode of row k has. */
  function Width(k: nat): nat {
    if k == 8 then 6
    else if k == 1 || k == 3 || k == 5 || k == 6 || k == 10 || k == 19 || k == 21 || k == 23 || k == 24 then 8
    else if k == 0 || k == 2 || k == 15 || k == 18 || k == 20 then 10
    else 11
  }

  /** The leading bits of a word, as many as row k has. */
  function Leading(w: bv32, k: nat): bv32 {
    var n := Width(k);
    if n == 6 then Extract(w, 26, 0x3F) else if n == 8 then Extract(w, 24, 0xFF) else if n == 10 then Extract(w, 22, 0x3FF)
    else Extract(w, 21, 0x7FF)
  }

  // The lookups that come before the one with eight bits, or with ten, do not find a word that this one finds.

  lemma EightNotElevenBits(w: bv32, k: nat, i: nat)
    requires k <= 24 && Extract(w, 24, 0xFF) == Row(k).opcode
    ensures Row(i).opcode != Extract(w, 21, 0x7FF)
  {
  }

  lemma EightNotSixBits(w: bv32, k: nat, i: nat)
    requires k <= 24 && Extract(w, 24, 0xFF) == Row(k).opcode
    ensures Row(i).opcode != Extract(w, 26, 0x3F)
  {
  }

  lemma TenNotElevenBits(w: bv32, k: nat, i: nat)
    requires k <= 24 && k != 8 && k != 10 && Extract(w, 22, 0x3FF) == Row(k).opcode
    ensures Row(i).opcode != Extract(w, 21, 0x7FF)
  {
  }

  lemma TenNotSixBits(w: bv32, k: nat, i: nat)
    requires k <= 24 && k != 8 && k != 10 && Extract(w, 22, 0x3FF) == Row(k).opcode
    ensures Row(i).opcode != Extract(w, 26, 0x3F)
  {
  }

  lemma TenNotEightBits(w: bv32, k: nat, i: nat)
    requires k <= 24 && k != 8 && k != 10 && Extract(w, 22, 0x3FF) == Row(k).opcode
    ensures Row(i).opcode != Extract(w, 24, 0xFF)
  {
  }

  /** The branches whose leading eleven bits are the opcode of another row. */
  predicate ReadAsOther(w: bv32) {
    var top := Extract(w, 21, 0x7FF);
    top == Row(1).opcode || top == Row(23).opcode || top == Row(24).opcode
  }

  lemma SixNotElevenBits(w: bv32, k: nat, i: nat)
    requires k <= 24 && Extract(w, 26, 0x3F) == Row(k).opcode && Row(i).opcode == Extract(w, 21, 0x7FF)
    ensures ReadAsOther(w)
  {
  }

  /** The words that belong to a row: any of the lookups may find its opcode, but for three exceptions. */
  predicate BelongsTo(w: bv32, k: nat) {
    var opcode := Row(k).opcode;
    || Extract(w, 21, 0x7FF) == opcode
    || (Extract(w, 26, 0x3F) == opcode && !ReadAsOther(w))
    || Extract(w, 24, 0xFF) == opcode
    || (Extract(w, 22, 0x3FF) == opcode && k != 8 && k != 10)
  }

  lemma NoRowAt(opcode: bv32)
    requires forall i: nat :: i < OPCODE_TABLE_SIZE ==> Row(i).opcode != opcode
    ensures FirstFrom(opcode, 0) == None
  {
    hide Row, FirstFrom;
    NoRow(opcode, 0);
  }

  lemma EightFound(w: bv32, k: nat)
    requires k <= 24 && Extract(w, 24, 0xFF) == Row(k).opcode
    ensures EntryOf(w) == Some(Row(k))
  {
    hide FirstFrom, Row, Extract;
    forall i: nat | i < OPCODE_TABLE_SIZE
      ensures Row(i).opcode != Extract(w, 21, 0x7FF) && Row(i).opcode != Extract(w, 26, 0x3F)
    {
      EightNotElevenBits(w, k, i);
      EightNotSixBits(w, k, i);
    }
    NoRowAt(Extract(w, 21, 0x7FF));
    NoRowAt(Extract(w, 26, 0x3F));
    OwnRow(k);
  }

  lemma TenFound(w: bv32, k: nat)
    requires k <= 24 && k != 8 && k != 10 && Extract(w, 22, 0x3FF) == Row(k).opcode
    ensures EntryOf(w) == Some(Row(k))
  {
    hide FirstFrom, Row, Extract;
    forall i: nat | i < OPCODE_TABLE_SIZE
      ensures Row(i).opcode != Extract(w, 21, 0x7FF) && Row(i).opcode != Extract(w, 26, 0x3F)
      ensures Row(i).opcode != Extract(w, 24, 0xFF)
    {
      TenNotElevenBits(w, k, i);
      TenNotSixBits(w, k, i);
      TenNotEightBits(w, k, i);
    }
    NoRowAt(Extract(w, 21, 0x7FF));
    NoRowAt(Extract(w, 26, 0x3F));
    NoRowAt(Extract(w, 24, 0xFF));
    OwnRow(k);
  }

  lemma SixFound(w: bv32, k: nat)
    requires k <= 24 && Extract(w, 26, 0x3F) == Row(k).opcode && !ReadAsOther(w)
    ensures EntryOf(w) == Some(Row(k))
  {
    hide FirstFrom, Row, Extract, ReadAsOther;
    forall i: nat | i < OPCODE_TABLE_SIZE
      ensures Row(i).opcode != Extract(w, 21, 0x7FF)
    {
      if Row(i).opcode == Extract(w, 21, 0x7FF) {
        SixNotElevenBits(w, k, i);
      }
    }
    NoRowAt(Extract(w, 21, 0x7FF));
    OwnRow(k);
  }

  lemma {:induction false} FoundHasOpcode(opcode: bv32, k: nat)
    requires k <= OPCODE_TABLE_SIZE
    ensures var e := FirstFrom(opcode, k); e.Some? ==> e.value.opcode == opcode
    decreases OPCODE_TABLE_SIZE - k
  {
    hide Row;
    if k < OPCODE_TABLE_SIZE {
      FoundHasOpcode(opcode, k + 1);
    }
  }

  /** A word that the lookup with eleven bits does not find is no branch that is read as another instruction. */
  lemma NotReadAsOther(w: bv32)
    requires FirstFrom(Extract(w, 21, 0x7FF), 0) == None
    ensures !ReadAsOther(w)
  {
    hide FirstFrom, Row, Extract;
    OwnRow(1);
    OwnRow(23);
    OwnRow(24);
  }

  /** With ten bits, the opcodes of B and of B.cond are not found: their words have been taken for padding and for B. */
  lemma TenBitsTaken(w: bv32)
    requires FirstFrom(Extract(w, 26, 0x3F), 0) == None
    ensures Extract(w, 22, 0x3FF) != Row(8).opcode && Extract(w, 22, 0x3FF) != Row(10).opcode
  {
    hide FirstFrom;
    OwnRow(8);
    PaddingFound();
  }

  lemma PaddingFound()
    ensures FirstFrom(0, 0) == Some(Row(27))
  {
    hide FirstFrom;
    RowFound(0, 0, 27);
  }

  /**
   Which words belong to which row, for all words and all rows. An opcode is found at the beginning of a word in any of
   the four widths, whatever its own is, except that B with an offset that begins with 10001, 10100 or 10101 is read as
   ADDS, CBZ or CBNZ, and that ten bits never lead to B or to B.cond.
   */
  lemma EntryIff(w: bv32, k: nat)
    requires k <= 24
    ensures EntryOf(w) == Some(Row(k)) <==> BelongsTo(w, k)
  {
    hide FirstFrom, Row, Extract, ReadAsOther;
    if BelongsTo(w, k) {
      if Extract(w, 21, 0x7FF) == Row(k).opcode {
        OwnRow(k);
      } else if Extract(w, 24, 0xFF) == Row(k).opcode {
        EightFound(w, k);
      } else if Extract(w, 26, 0x3F) == Row(k).opcode && !ReadAsOther(w) {
        SixFound(w, k);
      } else {
        TenFound(w, k);
      }
    }
    if EntryOf(w) == Some(Row(k)) {
      FoundHasOpcode(Extract(w, 21, 0x7FF), 0);
      FoundHasOpcode(Extract(w, 26, 0x3F), 0);
      FoundHasOpcode(Extract(w, 24, 0xFF), 0);
      FoundHasOpcode(Extract(w, 22, 0x3FF), 0);
      if FirstFrom(Extract(w, 21, 0x7FF), 0) == None {
        NotReadAsOther(w);
        if FirstFrom(Extract(w, 26, 0x3F), 0) == None {
          TenBitsTaken(w);
        }
      }
    }
  }

  /** The words that match the padding of the table: those that begin with six zeros, but for one kind of B. */
  lemma PaddingIff(w: bv32)
    ensures EntryOf(w) == Some(Row(27)) <==> Extract(w, 26, 0x3F) == 0 && Extract(w, 21, 0x7FF) != Row(8).opcode
  {
    hide FirstFrom, Row;
    FoundHasOpcode(Extract(w, 21, 0x7FF), 0);
    FoundHasOpcode(Extract(w, 26, 0x3F), 0);
    FoundHasOpcode(Extract(w, 24, 0xFF), 0);
    FoundHasOpcode(Extract(w, 22, 0x3FF), 0);
    PaddingFound();
    OwnRow(8);
    PaddingRow();
    if Extract(w, 26, 0x3F) == 0 && Extract(w, 21, 0x7FF) != Row(8).opcode {
      PaddingElevenBits(w);
    }
  }

  lemma PaddingRow()
    ensures Row(27).opcode == 0 && Row(8).opcode != 0 && Row(8) != Row(27)
  {
  }

  lemma PaddingElevenBits(w: bv32)
    requires Extract(w, 26, 0x3F) == 0 && Extract(w, 21, 0x7FF) != Row(8).opcode
    ensures FirstFrom(Extract(w, 21, 0x7FF), 0) == if Extract(w, 21, 0x7FF) == 0 then Some(Row(27)) else None
  {
    hide FirstFrom;
    var top := Extract(w, 21, 0x7FF);
    if top == 0 {
      PaddingFound();
    } else {
      forall i: nat | i < OPCODE_TABLE_SIZE
        ensures Row(i).opcode != top
      {
        if Row(i).opcode == top {
          SmallOpcode(w, i);
        }
      }
      NoRowAt(top);
    }
  }

  lemma SmallOpcode(w: bv32, i: nat)
    requires Extract(w, 26, 0x3F) == 0 && Extract(w, 21, 0x7FF) == Row(i).opcode
    ensures Row(i).opcode == 0 || Row(i).opcode == Row(8).opcode
  {
  }

  /**
   So a word that begins with the opcode of a row, in its own width, belongs to that row, unless it is one of the branches
   that are read as other instructions.
   */
  lemma RowIff(w: bv32, k: nat)
    requires k <= 24 && Leading(w, k) == Row(k).opcode
    ensures EntryOf(w) == Some(Row(k)) <==> !(k == 8 && ReadAsOther(w))
  {
    hide EntryOf, Row, Extract, ReadAsOther;
    EntryIff(w, k);
    if k == 8 {
      BranchBits(w);
    }
  }

  lemma BranchBits(w: bv32)
    requires Extract(w, 26, 0x3F) == Row(8).opcode
    ensures Extract(w, 21, 0x7FF) != Row(8).opcode && Extract(w, 24, 0xFF) != Row(8).opcode
  {
  }
}
