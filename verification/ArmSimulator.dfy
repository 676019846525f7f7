/** The simulator: a processor with two latches, its memory, and the commands that run it. */
module ArmSimulator {
  import opened Powers
  import opened ArmMemory
  import opened ArmDecode
  import opened ArmExecution

  /** The address of a load or store, cut to 32 bits and to a multiple of four. */
  function AlignedLow(address: U64): U64 {
    (address - address % 4) % TWO_32
  }

  /** A branch offset as the unsigned number that its sign-extended bits make. */
  function SignedOffset(field: nat, negative: bool): U64 {
    if negative then field % 0x4_0000 + 0xFFFF_FFFF_FFFC_0000 else field % 0x4_0000
  }

  function BranchAddress(pc: U64, offset: U64): U64 {
    Sum(pc, Product(offset, 4))
  }

  lemma SameTarget(pc: U64, field: nat, negative: bool)
    ensures BranchAddress(pc, SignedOffset(field, negative)) == Target(pc, Offset(field, negative))
  {
    hide Wrap;
    var offset: int := SignedOffset(field, negative);
    WrapTwice(4 * offset, pc);
    WrapAround(pc + 4 * Offset(field, negative));
  }

  lemma WrapAround(x: int)
    ensures Wrap(x + 4 * 0x1_0000_0000_0000_0000) == Wrap(x)
  {
  }

  lemma SmallOffset(field: nat)
    requires field < 64
    ensures Offset(field, Bit18(field)) == field
  {
  }

  lemma LowPart(address: U64)
    ensures var aligned := AlignedLow(address);
            aligned % 4 == 0 && aligned + address % 4 == address % TWO_32
  {
    var high, low := address / 0x1_0000_0000, address % 0x1_0000_0000;
    var quarter, rest := low / 4, low % 4;
    RemainderOfFour(address, 0x4000_0000 * high + quarter, rest);
    RemainderOfWord(address - rest, high, 4 * quarter);
    RemainderOfFour(4 * quarter, quarter, 0);
  }

  lemma RemainderOfFour(x: nat, q: nat, r: nat)
    requires x == 4 * q + r && r < 4
    ensures x % 4 == r
  {
  }

  lemma RemainderOfWord(x: nat, q: nat, r: nat)
    requires x == 0x1_0000_0000 * q + r && r < 0x1_0000_0000
    ensures x % 0x1_0000_0000 == r
  {
  }

  lemma LowEven(address: U64, halfword: nat)
    requires halfword == if address % 4 >= 2 then 2 else 0
    ensures var low := address % TWO_32;
            AlignedLow(address) + halfword == low - low % 2
  {
    hide AlignedLow;
    LowPart(address);
    EvenPart(AlignedLow(address) / 4, address % 4);
  }

  lemma EvenPart(quarter: int, rest: nat)
    requires rest < 4
    ensures var x := 4 * quarter + rest; x - x % 2 == 4 * quarter + if rest >= 2 then 2 else 0
  {
    if rest == 0 {
    } else if rest == 1 {
    } else if rest == 2 {
    } else {
    }
  }

  lemma ByteLoaded(i: Instruction, s: State, m: Image)
    requires Fits(i) && i.name == Ldurb
    ensures var address := Address(i, s);
            Value(i, s, m) == ByteValue(ByteIn(LoadWord(m, AlignedLow(address)), address % 4))
  {
    hide Address, ByteIn, ByteAt, ByteValue, LoadWord, AlignedLow;
    var address := Address(i, s);
    LowPart(address);
    ByteFromWord(m, AlignedLow(address), address % 4);
  }

  lemma ByteBounds(b: bv8)
    ensures ByteValue(b) < 0x100
  {
  }

  lemma HalfLoaded(address: U64, halfword: nat, m: Image)
    requires halfword == if address % 4 >= 2 then 2 else 0
    ensures var low, w := address % TWO_32, LoadWord(m, AlignedLow(address));
            LittleEndian(m, low - low % 2, 2) == ByteValue(ByteIn(w, halfword)) + 0x100 * ByteValue(ByteIn(w, halfword + 1))
  {
    hide AlignedLow, LoadWord, ByteIn, ByteAt, ByteValue;
    var aligned := AlignedLow(address);
    LowPart(address);
    LowEven(address, halfword);
    ByteFromWord(m, aligned, halfword);
    ByteFromWord(m, aligned, halfword + 1);
    assert LittleEndian(m, aligned + halfword + 1, 1) == ByteValue(ByteAt(m, aligned + halfword + 1));
  }

  lemma DoubleLoaded(i: Instruction, s: State, m: Image)
    requires Fits(i) && i.name == Ldur
    ensures var aligned := AlignedLow(Address(i, s));
            Value(i, s, m) ==
            DoubleWord(LoadWord(m, aligned), LoadWord(m, (aligned + 4) % TWO_32))
  {
    hide Address, LoadWord, DoubleWord, AlignedLow;
    LowPart(Address(i, s));
    LowAligned(Address(i, s));
  }

  lemma LowAligned(address: U64)
    ensures AlignedLow(address) == address % TWO_32 - address % TWO_32 % 4
  {
    hide AlignedLow;
    LowPart(address);
    var aligned := AlignedLow(address);
    RemainderOfFour(address % TWO_32, aligned / 4, address % 4);
  }

  lemma Extended(r: U64, offset: nat)
    requires offset < 0x200
    ensures var extended := if offset >= 0x100 then offset % 0x100 + 0xFFFF_FFFF_FFFF_FF00 else offset;
            Sum(r, extended) == Wrap(r + if offset >= 0x100 then offset - 0x200 else offset)
  {
  }

  class Simulator {
    const memory: Memory
    /** What the fields that decoding does not set hold when instruction k is decoded. */
    const unset: nat -> Instruction
    var current: State
    var next: State
    var running: bool
    var count: nat

    ghost function View(): Machine
      requires memory.Valid()
      reads this, memory.text, memory.data, memory.stack
    {
      Machine(current, memory.Bytes(), running)
    }

    constructor (unset: nat -> Instruction)
      ensures memory.Valid() && fresh(memory.text) && fresh(memory.data) && fresh(memory.stack)
      ensures this.unset == unset && !running && count == 0
    {
      memory := new Memory();
      this.unset := unset;
      current := State(0, seq(32, i => 0), false, false);
      next := State(0, seq(32, i => 0), false, false);
      running, count := false, 0;
    }

    // ---------- loads and stores ----------

    method EffectiveAddress(i: Instruction) returns (address: U64)
      requires i.rn < 32 && i.dtAddress < 0x200
      ensures address == Address(i, current)
    {
      hide Sum, Wrap;
      // If bit 8 of the offset is set, so are bits 8 to 63 of its extension.
      var signedOffset: U64 := if i.dtAddress >= 0x100 then i.dtAddress % 0x100 + 0xFFFF_FFFF_FFFF_FF00 else i.dtAddress;
      Extended(current.regs[i.rn], i.dtAddress);
      address := Sum(current.regs[i.rn], signedOffset);
    }

    method ImplementStur(i: Instruction)
      requires memory.Valid() && Fits(i) && i.name == Stur
      modifies memory.text, memory.data, memory.stack
      ensures memory.Bytes() == MemoryAfter(i, current, old(memory.Bytes()))
    {
      hide Address, BytesOf, LowWord, Store;
      var address := EffectiveAddress(i);
      memory.MemWrite32(address, LowWord(current.regs[i.rd]));
    }

    method ImplementSturb(i: Instruction)
      requires memory.Valid() && Fits(i) && i.name == Sturb
      modifies memory.text, memory.data, memory.stack
      ensures memory.Bytes() == MemoryAfter(i, current, old(memory.Bytes()))
    {
      hide Address, SpliceByte, BytesOf, LowByte, LoadWord, Store;
      var address := EffectiveAddress(i);
      var value := LowByte(current.regs[i.rd]);
      var alignedAddress := AlignedLow(address);
      var alignedValue := memory.MemRead32(alignedAddress);
      alignedValue := SpliceByte(alignedValue, value, address % 4);
      LowPart(address);
      ByteThroughWord(memory.Bytes(), alignedAddress, address % 4, value);
      memory.MemWrite32(alignedAddress, alignedValue);
    }

    method ImplementSturh(i: Instruction)
      requires memory.Valid() && Fits(i) && i.name == Sturh
      modifies memory.text, memory.data, memory.stack
      ensures memory.Bytes() == MemoryAfter(i, current, old(memory.Bytes()))
    {
      hide Address, SpliceHalf, BytesOf, LowHalf, HalfBytes, LoadWord, Store;
      var address := EffectiveAddress(i);
      var value := LowHalf(current.regs[i.rd]);
      var alignedAddress := AlignedLow(address);
      var alignedValue := memory.MemRead32(alignedAddress);
      var halfword := if address % 4 >= 2 then 2 else 0;
      alignedValue := SpliceHalf(alignedValue, value, halfword);
      LowPart(address);
      LowEven(address, halfword);
      HalfThroughWord(memory.Bytes(), alignedAddress, halfword, value);
      memory.MemWrite32(alignedAddress, alignedValue);
    }

    /** Loads into the latch that the end of the cycle overwrites. */
    method ImplementLdurh(i: Instruction)
      requires memory.Valid() && Fits(i) && i.name == Ldurh
      modifies this`current
      ensures var address := Address(i, old(current)) % TWO_32;
              var value := LittleEndian(memory.Bytes(), address - address % 2, 2);
              value < TWO_64 && current == old(current).(regs := old(current).regs[i.rd := value])
    {
      hide Address, AlignedLow, LoadWord, ByteIn, ByteAt, ByteValue, LittleEndian;
      var address := EffectiveAddress(i);
      var alignedAddress := AlignedLow(address);
      var alignedValue := memory.MemRead32(alignedAddress);
      var halfword := if address % 4 >= 2 then 2 else 0;
      HalfLoaded(address, halfword, memory.Bytes());
      var low, high := ByteValue(ByteIn(alignedValue, halfword)), ByteValue(ByteIn(alignedValue, halfword + 1));
      ByteBounds(ByteIn(alignedValue, halfword));
      ByteBounds(ByteIn(alignedValue, halfword + 1));
      current := current.(regs := current.regs[i.rd := 0x100 * high + low]);
    }

    // ---------- data ----------

    method ImplementAddsImmediate(i: Instruction)
      requires memory.Valid() && Fits(i) && Defined(i) && i.name == AddsImmediate
      modifies this`next
      ensures next == Written(i, Value(i, current, memory.Bytes()), old(next))
    {
      var result := Sum(current.regs[i.rn], i.aluImmediate);
      next := next.(regs := next.regs[i.rd := result]);
      next := next.(n := result >= TWO_63, z := result == 0);
    }

    method ImplementAddsExtendedRegister(i: Instruction)
      requires memory.Valid() && Fits(i) && Defined(i) && i.name == AddsExtended
      modifies this`next
      ensures next == Written(i, Value(i, current, memory.Bytes()), old(next))
    {
      var result := Sum(current.regs[i.rn], current.regs[i.rm]);
      next := next.(regs := next.regs[i.rd := result]);
      next := next.(n := result >= TWO_63, z := result == 0);
    }

    method ImplementSubsImmediate(i: Instruction)
      requires memory.Valid() && Fits(i) && Defined(i) && i.name == SubsImmediate
      modifies this`next
      ensures next == Written(i, Value(i, current, memory.Bytes()), old(next))
    {
      var result := Difference(current.regs[i.rn], i.aluImmediate);
      next := next.(n := result >= TWO_63, z := result == 0);
      if i.rd != 31 {
        next := next.(regs := next.regs[i.rd := result]);
      }
    }

    method ImplementSubsExtendedRegister(i: Instruction)
      requires memory.Valid() && Fits(i) && Defined(i) && i.name == SubsExtended
      modifies this`next
      ensures next == Written(i, Value(i, current, memory.Bytes()), old(next))
    {
      var result := Difference(current.regs[i.rn], current.regs[i.rm]);
      next := next.(n := result >= TWO_63, z := result == 0);
      if i.rd != 31 {
        next := next.(regs := next.regs[i.rd := result]);
      }
    }

    method ImplementAndsShiftedRegister(i: Instruction)
      requires memory.Valid() && Fits(i) && Defined(i) && i.name == Ands
      modifies this`next
      ensures next == Written(i, Value(i, current, memory.Bytes()), old(next))
    {
      hide And64;
      var result := And64(current.regs[i.rn], current.regs[i.rm]);
      next := next.(regs := next.regs[i.rd := result]);
      next := next.(n := result >= TWO_63, z := result == 0);
    }

    method ImplementMovz(i: Instruction)
      requires memory.Valid() && Fits(i) && Defined(i) && i.name == Movz
      modifies this`next
      ensures next == Written(i, Value(i, current, memory.Bytes()), old(next))
    {
      var result: U64 := i.movImmediate;
      next := next.(regs := next.regs[i.rd := result]);
      next := next.(n := result >= TWO_63, z := result == 0);
    }

    method ImplementLslImmediate(i: Instruction)
      requires memory.Valid() && Fits(i) && Defined(i) && i.name == Lsl
      modifies this`next
      ensures next == Written(i, Value(i, current, memory.Bytes()), old(next))
    {
      hide Pow2, Product;
      var shiftAmount := 64 - i.rm;
      var result := Product(current.regs[i.rn], Pow2(shiftAmount));
      next := next.(regs := next.regs[i.rd := result]);
      next := next.(n := result >= TWO_63, z := result == 0);
    }

    method ImplementEorShiftedRegister(i: Instruction)
      requires memory.Valid() && Fits(i) && Defined(i) && i.name == Eor
      modifies this`next
      ensures next == Written(i, Value(i, current, memory.Bytes()), old(next))
    {
      hide Xor64;
      var result := Xor64(current.regs[i.rn], current.regs[i.rm]);
      next := next.(regs := next.regs[i.rd := result]);
    }

    method ImplementOrrShiftedRegister(i: Instruction)
      requires memory.Valid() && Fits(i) && Defined(i) && i.name == Orr
      modifies this`next
      ensures next == Written(i, Value(i, current, memory.Bytes()), old(next))
    {
      hide Or64;
      var result := Or64(current.regs[i.rn], current.regs[i.shamt]);
      next := next.(regs := next.regs[i.rd := result]);
    }

    method ImplementMul(i: Instruction)
      requires memory.Valid() && Fits(i) && Defined(i) && i.name == Mul
      modifies this`next
      ensures next == Written(i, Value(i, current, memory.Bytes()), old(next))
    {
      var result := Product(current.regs[i.rn], current.regs[i.rm]);
      next := next.(regs := next.regs[i.rd := result]);
    }

    method ImplementAddImmediate(i: Instruction)
      requires memory.Valid() && Fits(i) && Defined(i) && i.name == AddImmediate
      modifies this`next
      ensures next == Written(i, Value(i, current, memory.Bytes()), old(next))
    {
      var result := Sum(current.regs[i.rn], i.aluImmediate);
      next := next.(regs := next.regs[i.rd := result]);
    }

    method ImplementLsrImmediate(i: Instruction)
      requires memory.Valid() && Fits(i) && Defined(i) && i.name == Lsr
      modifies this`next
      ensures next == Written(i, Value(i, current, memory.Bytes()), old(next))
    {
      hide Pow2;
      var shiftAmount := i.rm;
      var result := Wrap(current.regs[i.rn] / Pow2(shiftAmount));
      next := next.(regs := next.regs[i.rd := result]);
    }

    method ImplementAddExtendedRegister(i: Instruction)
      requires memory.Valid() && Fits(i) && Defined(i) && i.name == AddExtended
      modifies this`next
      ensures next == Written(i, Value(i, current, memory.Bytes()), old(next))
    {
      var result := Sum(current.regs[i.rn], current.regs[i.rm]);
      if i.rd != 31 {
        next := next.(regs := next.regs[i.rd := result]);
      }
    }

    method ImplementLdurb(i: Instruction)
      requires memory.Valid() && Fits(i) && Defined(i) && i.name == Ldurb
      modifies this`next
      ensures next == Written(i, Value(i, current, memory.Bytes()), old(next))
    {
      hide Address, ByteIn, ByteValue, LoadWord, AlignedLow, Value;
      var address := EffectiveAddress(i);
      var alignedAddress := AlignedLow(address);
      var alignedValue := memory.MemRead32(alignedAddress);
      var value := ByteIn(alignedValue, address % 4);
      ByteLoaded(i, current, memory.Bytes());
      next := next.(regs := next.regs[i.rd := ByteValue(value)]);
    }

    method ImplementLdur(i: Instruction)
      requires memory.Valid() && Fits(i) && Defined(i) && i.name == Ldur
      modifies this`next
      ensures next == Written(i, Value(i, current, memory.Bytes()), old(next))
    {
      hide Address, LoadWord, DoubleWord, AlignedLow, Value;
      var address := EffectiveAddress(i);
      var alignedAddress := AlignedLow(address);
      DoubleLoaded(i, current, memory.Bytes());
      var value := ReadDouble(alignedAddress);
      next := next.(regs := next.regs[i.rd := value]);
    }

    method ReadDouble(alignedAddress: U64) returns (value: U64)
      requires memory.Valid()
      ensures value == DoubleWord(LoadWord(memory.Bytes(), alignedAddress),
                                  LoadWord(memory.Bytes(), (alignedAddress + 4) % TWO_32))
    {
      hide LoadWord, DoubleWord;
      var alignedValue := memory.MemRead32(alignedAddress);
      var highAddress: int := alignedAddress + 4;
      var alignedHigh := memory.MemRead32(highAddress % TWO_32);
      value := DoubleWord(alignedValue, alignedHigh);
    }

    // ---------- branches ----------

    method ImplementBCond(i: Instruction)
      requires Fits(i) && i.name == BCond && next.pc == Wrap(current.pc + 4)
      modifies this`next
      ensures next == old(next).(pc := NextPc(i, current))
    {
      hide Offset, SignedOffset, BranchAddress, Target, Bit18, Wrap;
      var branch := false;
      match i.rt {
        case 0x0 => branch := current.z;
        case 0x1 => branch := !current.z;
        case 0xC => branch := !current.z && !current.n;
        case 0xB => branch := current.n;
        case 0xA => branch := !current.n;
        case 0xD => branch := current.z || current.n;
        case _ =>
      }
      if branch {
        var offset := SignedOffset(i.condBrAddress, Bit18(i.condBrAddress));
        SameTarget(current.pc, i.condBrAddress, Bit18(i.condBrAddress));
        next := next.(pc := BranchAddress(current.pc, offset));
      }
    }

    method ImplementCbz(i: Instruction)
      requires Fits(i) && i.name == Cbz && next.pc == Wrap(current.pc + 4)
      modifies this`next
      ensures next == old(next).(pc := NextPc(i, current))
    {
      hide Offset, SignedOffset, BranchAddress, Target, Bit18, Wrap;
      if current.regs[i.rt] == 0 {
        var offset := SignedOffset(i.condBrAddress, Bit18(i.condBrAddress));
        SameTarget(current.pc, i.condBrAddress, Bit18(i.condBrAddress));
        var address := BranchAddress(current.pc, offset);
        if address % 4 != 0 {
          return;
        }
        next := next.(pc := address);
      } else {
        next := next.(pc := Wrap(current.pc + 4));
      }
    }

    method ImplementCbnz(i: Instruction)
      requires Fits(i) && i.name == Cbnz && next.pc == Wrap(current.pc + 4)
      modifies this`next
      ensures next == old(next).(pc := NextPc(i, current))
    {
      hide Offset, SignedOffset, BranchAddress, Target, Bit18, Wrap;
      if current.regs[i.rt] != 0 {
        var offset := SignedOffset(i.condBrAddress, Bit18(i.brAddress));
        SameTarget(current.pc, i.condBrAddress, Bit18(i.brAddress));
        var address := BranchAddress(current.pc, offset);
        if address % 4 != 0 {
          return;
        }
        next := next.(pc := address);
      } else {
        next := next.(pc := Wrap(current.pc + 4));
      }
    }

    method ImplementB(i: Instruction)
      requires Fits(i) && i.name == B && next.pc == Wrap(current.pc + 4)
      modifies this`next
      ensures next == old(next).(pc := NextPc(i, current))
    {
      hide Offset, SignedOffset, BranchAddress, Target, Bit18, Wrap;
      var offset := SignedOffset(i.brAddress, Bit18(i.brAddress));
      SameTarget(current.pc, i.brAddress, Bit18(i.brAddress));
      SmallOffset(i.brAddress);
      next := next.(pc := BranchAddress(current.pc, offset));
    }

    method ImplementBr(i: Instruction)
      requires Fits(i) && i.name == Br && next.pc == Wrap(current.pc + 4)
      modifies this`next
      ensures next == old(next).(pc := NextPc(i, current))
    {
      var address := current.regs[i.rn];
      if address % 4 != 0 {
        return;
      }
      next := next.(pc := address);
    }

    // ---------- cycles ----------

    method ExecuteBranch(i: Instruction)
      requires Fits(i) && IsBranch(i.name) && next == current.(pc := Wrap(current.pc + 4))
      modifies this`next
      ensures next == current.(pc := NextPc(i, current))
    {
      hide NextPc, Fits, Wrap;
      match i.name {
        case B => ImplementB(i);
        case BCond => ImplementBCond(i);
        case Br => ImplementBr(i);
        case Cbz => ImplementCbz(i);
        case Cbnz => ImplementCbnz(i);
      }
    }

    method ExecuteStore(i: Instruction)
      requires memory.Valid() && Fits(i) && IsStore(i.name)
      modifies memory.text, memory.data, memory.stack
      ensures memory.Bytes() == MemoryAfter(i, current, old(memory.Bytes()))
    {
      hide MemoryAfter, Fits;
      match i.name {
        case Stur => ImplementStur(i);
        case Sturb => ImplementSturb(i);
        case Sturh => ImplementSturh(i);
      }
    }

    /** Anything else; a load of a halfword writes the other latch. */
    method ExecuteData(i: Instruction)
      requires memory.Valid() && Fits(i) && Defined(i) && !IsBranch(i.name) && !IsStore(i.name)
      modifies this`current, this`next, this`running
      ensures next == Written(i, Value(i, old(current), memory.Bytes()), old(next))
      ensures running == (old(running) && i.name != Hlt)
    {
      hide Value, Fits, Defined;
      match i.name {
        case AddsImmediate => ImplementAddsImmediate(i);
        case AddsExtended => ImplementAddsExtendedRegister(i);
        case SubsImmediate => ImplementSubsImmediate(i);
        case SubsExtended => ImplementSubsExtendedRegister(i);
        case Hlt => running := false;
        case Ands => ImplementAndsShiftedRegister(i);
        case Eor => ImplementEorShiftedRegister(i);
        case Orr => ImplementOrrShiftedRegister(i);
        case Lsl => ImplementLslImmediate(i);
        case Lsr => ImplementLsrImmediate(i);
        case Ldur => ImplementLdur(i);
        case Ldurb => ImplementLdurb(i);
        case Ldurh => ImplementLdurh(i);
        case Movz => ImplementMovz(i);
        case AddExtended => ImplementAddExtendedRegister(i);
        case AddImmediate => ImplementAddImmediate(i);
        case Mul => ImplementMul(i);
        case _ =>
      }
    }

    /** Executes the instruction at the program counter into the other latch. */
    method ProcessInstruction()
      requires memory.Valid() && current == next && CanStep(View(), unset(count))
      modifies this`current, this`next, this`running, memory.text, memory.data, memory.stack
      ensures Machine(next, memory.Bytes(), running) == Stepped(old(View()), unset(count))
    {
      hide Executed, Decoded, Fits, Defined, NextPc, MemoryAfter, Written, Value, Wrap, IsBranch, IsStore, LoadWord;
      ghost var mc := View();
      var bytecode := memory.MemRead32(current.pc);
      var decoded := Decode(bytecode, unset(count));
      DecodedFits(bytecode, unset(count));
      var i := decoded.value;
      next := next.(pc := Wrap(current.pc + 4));
      if IsBranch(i.name) {
        ExecutedBranch(i, mc);
        ExecuteBranch(i);
      } else if IsStore(i.name) {
        ExecutedStore(i, mc);
        ExecuteStore(i);
      } else {
        ExecutedData(i, mc);
        ExecuteData(i);
      }
    }

    method Cycle()
      requires memory.Valid() && current == next && CanStep(View(), unset(count))
      modifies this`current, this`next, this`running, this`count, memory.text, memory.data, memory.stack
      ensures current == next && View() == Stepped(old(View()), unset(old(count))) && count == old(count) + 1
    {
      hide Stepped, CanStep;
      ProcessInstruction();
      current := next;
      count := count + 1;
    }

    /** Executes numCycles instructions, or as many as there are before the machine halts. */
    method Run(numCycles: int)
      requires memory.Valid() && current == next && CanRun(View(), unset, count, numCycles)
      modifies this`current, this`next, this`running, this`count, memory.text, memory.data, memory.stack
      ensures current == next && View() == Ran(old(View()), unset, old(count), numCycles)
      ensures count == old(count) + Steps(old(View()), unset, old(count), numCycles)
      ensures old(current.pc) % 4 == 0 ==> current.pc % 4 == 0
    {
      hide Stepped, CanStep;
      if old(current.pc) % 4 == 0 {
        PcStaysAligned(View(), unset, count, numCycles);
      }
      if !running {
        return;
      }
      var i := 0;
      while i < numCycles
        invariant current == next && (0 < numCycles ==> i <= numCycles)
        invariant CanRun(View(), unset, count, numCycles - i)
        invariant Ran(old(View()), unset, old(count), numCycles) == Ran(View(), unset, count, numCycles - i)
        invariant old(count) + Steps(old(View()), unset, old(count), numCycles) ==
                  count + Steps(View(), unset, count, numCycles - i)
      {
        if !running {
          break;
        }
        Cycle();
        i := i + 1;
      }
    }

    /** Executes instructions until the machine halts, which it does after no more than the given number. */
    method Go(ghost most: nat)
      requires memory.Valid() && current == next && HaltsWithin(View(), unset, count, most)
      modifies this`current, this`next, this`running, this`count, memory.text, memory.data, memory.stack
      ensures current == next && !running && View() == Ran(old(View()), unset, old(count), most)
      ensures old(current.pc) % 4 == 0 ==> current.pc % 4 == 0
    {
      hide Stepped, CanStep;
      if old(current.pc) % 4 == 0 {
        PcStaysAligned(View(), unset, count, most);
      }
      ghost var left := most;
      while running
        invariant current == next && CanRun(View(), unset, count, left)
        invariant Ran(old(View()), unset, old(count), most) == Ran(View(), unset, count, left)
        decreases left
      {
        Cycle();
        left := left - 1;
      }
    }

    // ---------- starting ----------

    method LoadProgram(words: seq<bv32>)
      requires memory.Valid() && TEXT_START + 4 * |words| < 0x8000_0000
      modifies this`current, memory.text, memory.data, memory.stack
      ensures memory.Bytes() == Program(old(memory.Bytes()), words)
      ensures current == old(current).(pc := TEXT_START)
    {
      hide BytesOf, Store;
      var ii: nat := 0;
      while ii < 4 * |words|
        invariant ii <= 4 * |words| && ii % 4 == 0 && current == old(current)
        invariant memory.Bytes() == Program(old(memory.Bytes()), words[..ii / 4])
      {
        memory.MemWrite32(TEXT_START + ii, words[ii / 4]);
        assert words[..ii / 4 + 1][..ii / 4] == words[..ii / 4];
        ii := ii + 4;
      }
      assert words[..|words|] == words;
      current := current.(pc := TEXT_START);
    }

    /** Loads the programs, one over the other, and makes the latches agree. */
    method Initialize(programs: seq<seq<bv32>>)
      requires memory.Valid() && programs != []
      requires forall p :: p in programs ==> TEXT_START + 4 * |p| < 0x8000_0000
      modifies this`current, this`next, this`running, memory.text, memory.data, memory.stack
      ensures current == next == old(current).(pc := TEXT_START) && running
      ensures memory.Bytes() == Programs(old(memory.Bytes()), programs)
    {
      hide Program;
      for i := 0 to |programs|
        invariant current == if i > 0 then old(current).(pc := TEXT_START) else old(current)
        invariant memory.Bytes() == Programs(old(memory.Bytes()), programs[..i])
      {
        LoadProgram(programs[i]);
        assert programs[..i + 1][..i] == programs[..i];
      }
      assert programs[..|programs|] == programs;
      next := current;
      running := true;
    }

    /** The command that sets a register sets it in both latches. */
    method Input(registerNo: nat, value: U64)
      requires registerNo < 32 && current == next
      modifies this`current, this`next
      ensures current == next == old(current).(regs := old(current).regs[registerNo := value])
    {
      current := current.(regs := current.regs[registerNo := value]);
      next := next.(regs := next.regs[registerNo := value]);
    }
  }

  /** The memory after the words of a program have been written, one after another. */
  function Program(m: Image, words: seq<bv32>): Image {
    if words == [] then m
    else
      var n := |words| - 1;
      Store(Program(m, words[..n]), TEXT_START + 4 * n, BytesOf(words[n]))
  }

  function Programs(m: Image, programs: seq<seq<bv32>>): Image {
    if programs == [] then m
    else Program(Programs(m, programs[..|programs| - 1]), programs[|programs| - 1])
  }

  /** As far as a program fits into the text region, its words are found where they belong. */
  lemma {:induction false} ProgramLoaded(m: Image, words: seq<bv32>, k: nat)
    requires k < |words| && 4 * k < REGION_SIZE
    ensures LoadWord(Program(m, words), TEXT_START + 4 * k) == words[k]
  {
    hide Store, BytesOf, LoadWord;
    var n := |words| - 1;
    if k < n {
      ProgramLoaded(m, words[..n], k);
      WordStored(Program(m, words[..n]), TEXT_START + 4 * n, words[n], TEXT_START + 4 * k);
    } else {
      WordStored(Program(m, words[..n]), TEXT_START + 4 * n, words[n], TEXT_START + 4 * n);
      InText(k);
    }
  }

  lemma InText(k: nat)
    requires 4 * k < REGION_SIZE
    ensures RegionOf(TEXT_START + 4 * k) == 0
  {
    assert Holds(0, TEXT_START + 4 * k);
  }

  lemma WordStored(m: Image, address: int, w: bv32, other: int)
    requires address % 4 == 0 && other % 4 == 0
    ensures LoadWord(Store(m, address, BytesOf(w)), other) ==
            if other == address && RegionOf(address) < REGIONS then w else LoadWord(m, other)
  {
    hide BytesOf, WordOf, RegionOf;
    var k, j := RegionOf(address), RegionOf(other);
    if k < REGIONS && j == k {
      WordAndBytes(w);
      var from, at: nat := other - Start(k), address - Start(k);
      Slice(m[k], at, BytesOf(w), from);
    }
  }

  lemma Slice(s: seq<bv8>, at: nat, b: seq<bv8>, from: nat)
    requires |b| == 4 && at + 4 <= |s| && from + 4 <= |s| && (from + 4 <= at || at + 4 <= from || from == at)
    ensures Overwrite(s, at, b)[from..from + 4] == if from == at then b else s[from..from + 4]
  {
  }

  lemma WordAndBytes(w: bv32)
    ensures WordOf(BytesOf(w)) == w
  {
  }
}
