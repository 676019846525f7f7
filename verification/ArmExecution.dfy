/** What an instruction does to the registers, the flags, the program counter and the memory. */
module ArmExecution {
  import opened Powers
  import opened ArmMemory
  import opened ArmDecode

  type Registers = r: seq<U64> | |r| == 32 witness seq(32, i => 0)

  /** One latch of the processor. */
  datatype State = State(pc: U64, regs: Registers, n: bool, z: bool)

  datatype Machine = Machine(state: State, memory: Image, running: bool)

  function Wrap(x: int): U64 {
    x % 0x1_0000_0000_0000_0000
  }

  function Sum(x: int, y: int): U64 {
    Wrap(x + y)
  }

  function Difference(x: int, y: int): U64 {
    Wrap(x - y)
  }

  function Product(x: int, y: int): U64 {
    Wrap(x * y)
  }

  /** The signed number that a register holds. */
  function Signed(x: U64): int {
    if x >= TWO_63 then x - TWO_64 else x
  }

  function And64(a: U64, b: U64): U64 {
    ((a as bv64) & (b as bv64)) as int
  }

  function Xor64(a: U64, b: U64): U64 {
    ((a as bv64) ^ (b as bv64)) as int
  }

  function Or64(a: U64, b: U64): U64 {
    ((a as bv64) | (b as bv64)) as int
  }

  // ---------- branches ----------

  predicate Bit18(field: nat) {
    field / 0x4_0000 % 2 == 1
  }

  /** A word offset whose bit 18 is the given sign. */
  function Offset(field: nat, negative: bool): int {
    if negative then field % 0x4_0000 - 0x4_0000 else field % 0x4_0000
  }

  function Target(pc: U64, offset: int): U64 {
    Wrap(pc + 4 * offset)
  }

  function Aligned(address: U64, pc: U64): U64 {
    if address % 4 == 0 then address else Wrap(pc + 4)
  }

  /** Whether the conditions that the simulator knows hold of the flags; any other condition does not. */
  predicate Taken(cond: nat, n: bool, z: bool) {
    match cond
    case 0x0 => z
    case 0x1 => !z
    case 0xA => !n
    case 0xB => n
    case 0xC => !z && !n
    case 0xD => z || n
    case _ => false
  }

  function NextPc(i: Instruction, s: State): U64
    requires Fits(i)
  {
    match i.name
    case BCond =>
      if Taken(i.rt, s.n, s.z) then Target(s.pc, Offset(i.condBrAddress, Bit18(i.condBrAddress))) else Wrap(s.pc + 4)
    case Cbz =>
      if s.regs[i.rt] == 0 then Aligned(Target(s.pc, Offset(i.condBrAddress, Bit18(i.condBrAddress))), s.pc)
      else Wrap(s.pc + 4)
    case Cbnz =>
      if s.regs[i.rt] != 0 then Aligned(Target(s.pc, Offset(i.condBrAddress, Bit18(i.brAddress))), s.pc)
      else Wrap(s.pc + 4)
    case B => Target(s.pc, i.brAddress)
    case Br => Aligned(s.regs[i.rn], s.pc)
    case _ => Wrap(s.pc + 4)
  }

  // ---------- data ----------

  /** Where a load or store goes: a register plus a signed nine-bit offset. */
  function Address(i: Instruction, s: State): U64
    requires i.rn < 32 && i.dtAddress < 0x200
  {
    Wrap(s.regs[i.rn] + if i.dtAddress >= 0x100 then i.dtAddress - 0x200 else i.dtAddress)
  }

  /** Operands for which the C language says what happens. */
  predicate Defined(i: Instruction) {
    (i.name == AddExtended ==> i.rm < 32) && (i.name == Lsl ==> i.rm > 0)
  }

  predicate WritesRegister(i: Instruction) {
    match i.name
    case AddsExtended | AddsImmediate | Ands | Eor | Orr | Lsl | Lsr | Ldur | Ldurb | Movz | AddImmediate | Mul => true
    case SubsExtended | SubsImmediate | AddExtended => i.rd != 31
    case _ => false
  }

  predicate SetsFlags(i: Instruction) {
    match i.name
    case AddsExtended | AddsImmediate | SubsExtended | SubsImmediate | Ands | Movz | Lsl => true
    case _ => false
  }

  /** What a load finds. Its address is cut to 32 bits. */
  function Loaded(i: Instruction, s: State, m: Image): U64
    requires i.rn < 32 && i.dtAddress < 0x200
  {
    var address := Address(i, s) % TWO_32;
    if i.name == Ldurb then ByteValue(ByteAt(m, address))
    else
      var aligned := address - address % 4;
      DoubleWord(LoadWord(m, aligned), LoadWord(m, (aligned + 4) % TWO_32))
  }

  /** The value that an instruction computes. */
  function Value(i: Instruction, s: State, m: Image): U64
    requires Fits(i) && Defined(i)
  {
    match i.name
    case AddsImmediate | AddImmediate => Sum(s.regs[i.rn], i.aluImmediate)
    case AddsExtended | AddExtended => Sum(s.regs[i.rn], s.regs[i.rm])
    case SubsImmediate => Difference(s.regs[i.rn], i.aluImmediate)
    case SubsExtended => Difference(s.regs[i.rn], s.regs[i.rm])
    case Ands => And64(s.regs[i.rn], s.regs[i.rm])
    case Eor => Xor64(s.regs[i.rn], s.regs[i.rm])
    case Orr => Or64(s.regs[i.rn], s.regs[i.shamt])
    case Movz => i.movImmediate
    case Lsl => Product(s.regs[i.rn], Pow2(64 - i.rm))
    case Lsr => Wrap(s.regs[i.rn] / Pow2(i.rm))
    case Mul => Product(s.regs[i.rn], s.regs[i.rm])
    case Ldur | Ldurb => Loaded(i, s, m)
    case _ => 0
  }

  /** A latch with the value written to the register and the flags that the instruction writes. */
  function Written(i: Instruction, v: U64, s: State): State
    requires Fits(i)
  {
    s.(regs := if WritesRegister(i) then s.regs[i.rd := v] else s.regs,
       n := if SetsFlags(i) then v >= TWO_63 else s.n,
       z := if SetsFlags(i) then v == 0 else s.z)
  }

  /** A byte goes to the address cut to 32 bits, a halfword to the even address at or below it. */
  function MemoryAfter(i: Instruction, s: State, m: Image): Image
    requires Fits(i)
  {
    match i.name
    case Stur => Store(m, Address(i, s), BytesOf(LowWord(s.regs[i.rd])))
    case Sturb => Store(m, Address(i, s) % TWO_32, [LowByte(s.regs[i.rd])])
    case Sturh =>
      var address := Address(i, s) % TWO_32;
      Store(m, address - address % 2, HalfBytes(LowHalf(s.regs[i.rd])))
    case _ => m
  }

  function Executed(i: Instruction, mc: Machine): Machine
    requires Fits(i) && Defined(i)
  {
    var s := mc.state;
    Machine(Written(i, Value(i, s, mc.memory), s.(pc := NextPc(i, s))), MemoryAfter(i, s, mc.memory),
            mc.running && i.name != Hlt)
  }

  predicate IsBranch(name: Name) {
    name == BCond || name == Cbz || name == Cbnz || name == B || name == Br
  }

  predicate IsStore(name: Name) {
    name == Stur || name == Sturb || name == Sturh
  }

  lemma ExecutedBranch(i: Instruction, mc: Machine)
    requires Fits(i) && Defined(i) && IsBranch(i.name)
    ensures Executed(i, mc) == mc.(state := mc.state.(pc := NextPc(i, mc.state)))
  {
    hide NextPc, Fits;
  }

  lemma ExecutedStore(i: Instruction, mc: Machine)
    requires Fits(i) && Defined(i) && IsStore(i.name)
    ensures Executed(i, mc) ==
            mc.(state := mc.state.(pc := Wrap(mc.state.pc + 4)), memory := MemoryAfter(i, mc.state, mc.memory))
  {
    hide MemoryAfter, Wrap;
  }

  lemma ExecutedData(i: Instruction, mc: Machine)
    requires Fits(i) && Defined(i) && !IsBranch(i.name) && !IsStore(i.name)
    ensures var s := mc.state;
            Executed(i, mc) ==
            Machine(Written(i, Value(i, s, mc.memory), s.(pc := Wrap(s.pc + 4))), mc.memory, mc.running && i.name != Hlt)
  {
    hide Written, Value, Wrap, Fits, Defined;
  }

  // ---------- runs ----------

  /** The word at the program counter is an instruction, and its effect is defined. */
  predicate CanStep(mc: Machine, unset: Instruction) {
    var i := Decoded(LoadWord(mc.memory, mc.state.pc), unset);
    DecodedFits(LoadWord(mc.memory, mc.state.pc), unset);
    i.Some? && Defined(i.value)
  }

  function Stepped(mc: Machine, unset: Instruction): Machine
    requires CanStep(mc, unset)
  {
    DecodedFits(LoadWord(mc.memory, mc.state.pc), unset);
    Executed(Decoded(LoadWord(mc.memory, mc.state.pc), unset).value, mc)
  }

  /** The first n instructions, or as many as are executed before the machine halts, can all be executed. */
  predicate CanRun(mc: Machine, unset: nat -> Instruction, k: nat, n: int)
    decreases if n > 0 then n else 0
  {
    n > 0 && mc.running ==> CanStep(mc, unset(k)) && CanRun(Stepped(mc, unset(k)), unset, k + 1, n - 1)
  }

  /** The machine after them; instruction k finds the unset fields as they were left by whatever came before. */
  function Ran(mc: Machine, unset: nat -> Instruction, k: nat, n: int): Machine
    requires CanRun(mc, unset, k, n)
    decreases if n > 0 then n else 0
  {
    if n > 0 && mc.running then Ran(Stepped(mc, unset(k)), unset, k + 1, n - 1) else mc
  }

  function Steps(mc: Machine, unset: nat -> Instruction, k: nat, n: int): nat
    requires CanRun(mc, unset, k, n)
    decreases if n > 0 then n else 0
  {
    if n > 0 && mc.running then 1 + Steps(Stepped(mc, unset(k)), unset, k + 1, n - 1) else 0
  }

  /** The machine halts after no more than n instructions. */
  predicate HaltsWithin(mc: Machine, unset: nat -> Instruction, k: nat, n: int) {
    CanRun(mc, unset, k, n) && !Ran(mc, unset, k, n).running
  }

  lemma PcStepAligned(i: Instruction, s: State)
    requires Fits(i) && s.pc % 4 == 0
    ensures NextPc(i, s) % 4 == 0
  {
    hide Offset, Fits, Taken;
    TargetAligned(s.pc, 1);
    TargetAligned(s.pc, i.brAddress);
    TargetAligned(s.pc, Offset(i.condBrAddress, Bit18(i.condBrAddress)));
  }

  lemma TargetAligned(pc: U64, offset: int)
    requires pc % 4 == 0
    ensures Target(pc, offset) % 4 == 0
  {
    hide Wrap;
    WrapAligned(pc / 4 + offset);
    assert pc + 4 * offset == 4 * (pc / 4 + offset);
  }

  lemma WrapAligned(quarter: int)
    ensures Wrap(4 * quarter) % 4 == 0
  {
    var q := 4 * quarter / 0x1_0000_0000_0000_0000;
    assert Wrap(4 * quarter) == 4 * (quarter - 0x4000_0000_0000_0000 * q);
  }

  /** At the end of every run, however long, the program counter is a multiple of four if it was at its beginning. */
  lemma {:induction false} PcStaysAligned(mc: Machine, unset: nat -> Instruction, k: nat, n: int)
    requires CanRun(mc, unset, k, n) && mc.state.pc % 4 == 0
    ensures Ran(mc, unset, k, n).state.pc % 4 == 0
    decreases if n > 0 then n else 0
  {
    hide Executed, Decoded, NextPc, Fits;
    if n > 0 && mc.running {
      StepAligned(mc, unset(k));
      PcStaysAligned(Stepped(mc, unset(k)), unset, k + 1, n - 1);
    }
  }

  lemma StepAligned(mc: Machine, unset: Instruction)
    requires CanStep(mc, unset) && mc.state.pc % 4 == 0
    ensures Stepped(mc, unset).state.pc % 4 == 0
  {
    hide Decoded, NextPc, Fits, Value, MemoryAfter, Defined;
    var w := LoadWord(mc.memory, mc.state.pc);
    DecodedFits(w, unset);
    PcStepAligned(Decoded(w, unset).value, mc.state);
  }

  // ---------- a byte stored and loaded ----------

  /** A store changes the bytes it is given to store, and no other byte of the memory. */
  lemma ByteAfterStore(m: Image, address: int, v: bv8, other: int)
    ensures ByteAt(Store(m, address, [v]), other) ==
            if other == address && RegionOf(address) < REGIONS then v else ByteAt(m, other)
  {
  }

  /** A halfword stored at an even address takes two bytes, the less significant one first. */
  lemma HalfAfterStore(m: Image, address: int, v: bv16, other: int)
    requires address % 2 == 0
    ensures ByteAt(Store(m, address, HalfBytes(v)), other) ==
            if RegionOf(address) < REGIONS && address <= other <= address + 1 then HalfBytes(v)[other - address]
            else ByteAt(m, other)
  {
    hide HalfBytes;
  }

  /** A byte store reaches the address that was asked for exactly if this is not above 32 bits, or nothing is there or here. */
  lemma StoreReachesIff(address: U64)
    ensures (forall m: Image, v: bv8 :: Store(m, address % TWO_32, [v]) == Store(m, address, [v])) <==>
            address < TWO_32 || (RegionOf(address) == REGIONS && RegionOf(address % TWO_32) == REGIONS)
  {
    hide RegionOf, ByteAt;
    var low := address % TWO_32;
    if address >= TWO_32 && !(RegionOf(address) == REGIONS && RegionOf(low) == REGIONS) {
      var m: Image := seq(3, i => seq(0x10_0003, j => 0));
      var other := if RegionOf(address) < REGIONS then address else low;
      ZeroAt(m, other);
      ByteAfterStore(m, low, 1, other);
      ByteAfterStore(m, address, 1, other);
      assert Store(m, low, [1]) != Store(m, address, [1]);
    }
  }

  lemma ZeroAt(m: Image, address: int)
    requires forall k, j :: 0 <= k < 3 && 0 <= j < |m[k]| ==> m[k][j] == 0
    ensures ByteAt(m, address) == 0
  {
  }

  /** Where a store instruction puts which bytes. */
  function StoreAddress(i: Instruction, s: State): int
    requires Fits(i) && IsStore(i.name)
  {
    var address := Address(i, s);
    if i.name == Stur then address
    else if i.name == Sturb then address % TWO_32
    else address % TWO_32 - address % TWO_32 % 2
  }

  function StoredBytes(i: Instruction, s: State): (b: seq<bv8>)
    requires Fits(i) && IsStore(i.name)
    ensures |b| <= 4
  {
    if i.name == Stur then BytesOf(LowWord(s.regs[i.rd]))
    else if i.name == Sturb then [LowByte(s.regs[i.rd])]
    else HalfBytes(LowHalf(s.regs[i.rd]))
  }

  /** STUR stores the four lowest bytes of the register, STURH two and STURB one, the least significant one first. */
  lemma StoredBytesAre(i: Instruction, s: State, k: nat)
    requires Fits(i) && IsStore(i.name)
    ensures |StoredBytes(i, s)| == if i.name == Stur then 4 else if i.name == Sturh then 2 else 1
    ensures k < |StoredBytes(i, s)| ==> ByteValue(StoredBytes(i, s)[k]) == s.regs[i.rd] / Pow2(8 * k) % 0x100
  {
    hide BytesOf, HalfBytes, LowByte, LowHalf, LowWord, ByteValue, Pow2;
    if k < |StoredBytes(i, s)| {
      RegisterByte(s.regs[i.rd], k);
    }
  }

  lemma RegisterByte(r: U64, k: nat)
    requires k < 4
    ensures ByteValue(BytesOf(LowWord(r))[k]) == r / Pow2(8 * k) % 0x100
    ensures k < 2 ==> ByteValue(HalfBytes(LowHalf(r))[k]) == r / Pow2(8 * k) % 0x100
    ensures k == 0 ==> ByteValue(LowByte(r)) == r / Pow2(8 * k) % 0x100
  {
    hide BytesOf, HalfBytes, LowByte, LowHalf, LowWord, ByteValue, Pow2;
    LowWordBytes(r);
    LowHalfBytes(r);
    ByteValueBack(r);
    BytePowers();
    assert k == 0 || k == 1 || k == 2 || k == 3;
  }

  /** LDURB loads a byte, LDUR the eight bytes from the multiple of four at or below the address. */
  lemma LoadedBytesAre(i: Instruction, s: State, m: Image)
    requires Fits(i) && (i.name == Ldur || i.name == Ldurb)
    ensures var address := Address(i, s) % 0x1_0000_0000; var aligned := address - address % 4;
            Value(i, s, m) ==
            if i.name == Ldurb then LittleEndian(m, address, 1)
            else LittleEndian(m, aligned, 4) + 0x1_0000_0000 * LittleEndian(m, (aligned + 4) % 0x1_0000_0000, 4)
  {
    hide Address, ByteAt, LoadWord, ByteValue, WordValue, LittleEndian, Value, DoubleWord;
    var address := Address(i, s) % 0x1_0000_0000;
    if i.name == Ldur {
      DoubleFound(i, s, m);
      DoubleNumber(m, address);
    } else {
      ByteFound(i, s, m);
      OneLittleEndian(m, address);
    }
  }

  lemma DoubleFound(load: Instruction, s: State, m: Image)
    requires Fits(load) && load.name == Ldur
    ensures var address := Address(load, s) % 0x1_0000_0000; var aligned := address - address % 4;
            Value(load, s, m) == DoubleWord(LoadWord(m, aligned), LoadWord(m, (aligned + 4) % 0x1_0000_0000))
  {
    hide Address, LoadWord, DoubleWord;
  }

  lemma DoubleNumber(m: Image, address: nat)
    requires address < 0x1_0000_0000
    ensures var aligned := address - address % 4; var high := (aligned + 4) % 0x1_0000_0000;
            DoubleWord(LoadWord(m, aligned), LoadWord(m, high)) ==
            LittleEndian(m, aligned, 4) + 0x1_0000_0000 * LittleEndian(m, high, 4)
  {
    hide LoadWord, WordValue, LittleEndian;
    WordAligned(address);
    LoadedNumber(m, address - address % 4);
    LoadedNumber(m, (address - address % 4 + 4) % 0x1_0000_0000);
  }

  lemma OneLittleEndian(m: Image, address: int)
    ensures LittleEndian(m, address, 1) == ByteValue(ByteAt(m, address))
  {
    hide ByteAt, ByteValue;
    assert LittleEndian(m, address + 1, 0) == 0;
  }

  lemma WordAligned(address: nat)
    requires address < 0x1_0000_0000
    ensures var aligned := address - address % 4; aligned % 4 == 0 && (aligned + 4) % 0x1_0000_0000 % 4 == 0
  {
    var quarter := address / 4;
    assert address - address % 4 == 4 * quarter;
    assert 4 * quarter + 4 < 0x1_0000_0000 || 4 * quarter + 4 == 0x1_0000_0000;
  }

  /** The byte that an instruction puts at an address, if it puts any there. */
  function ByteWritten(i: Instruction, s: State, address: int): Option<bv8>
    requires Fits(i)
  {
    if IsStore(i.name) && Reaches(StoreAddress(i, s), |StoredBytes(i, s)|, address) then
      Some(StoredBytes(i, s)[address - StoreAddress(i, s)])
    else None
  }

  /** Some of the bytes that are stored from one address on go to another. */
  predicate Reaches(from: int, length: nat, address: int) {
    from <= address < from + length && RegionOf(from) == RegionOf(address) < REGIONS
  }

  lemma BytesAfterStore(m: Image, from: int, b: seq<bv8>, address: int)
    requires |b| <= 4
    ensures ByteAt(Store(m, from, b), address) ==
            if Reaches(from, |b|, address) then b[address - from] else ByteAt(m, address)
  {
  }

  lemma ByteAfterInstruction(i: Instruction, mc: Machine, address: int)
    requires Fits(i) && Defined(i)
    ensures var w := ByteWritten(i, mc.state, address);
            ByteAt(Executed(i, mc).memory, address) == if w.Some? then w.value else ByteAt(mc.memory, address)
  {
    hide Executed, Fits, Defined, ByteAt, Reaches, NextPc, Value, Written, StoreAddress, StoredBytes, Store;
    if IsBranch(i.name) {
      ExecutedBranch(i, mc);
    } else if IsStore(i.name) {
      ExecutedStore(i, mc);
      StoreIsOfBytes(i, mc.state, mc.memory);
      BytesAfterStore(mc.memory, StoreAddress(i, mc.state), StoredBytes(i, mc.state), address);
    } else {
      ExecutedData(i, mc);
    }
  }

  lemma StoreIsOfBytes(i: Instruction, s: State, m: Image)
    requires Fits(i) && IsStore(i.name)
    ensures MemoryAfter(i, s, m) == Store(m, StoreAddress(i, s), StoredBytes(i, s))
  {
    hide Store, Address, BytesOf, LowWord, LowByte, LowHalf, HalfBytes;
  }

  /** The byte that was put at an address last in a run, if any was. */
  function LastWritten(mc: Machine, unset: nat -> Instruction, k: nat, n: int, address: int): Option<bv8>
    requires CanRun(mc, unset, k, n)
    decreases if n > 0 then n else 0
  {
    if n > 0 && mc.running then
      var later := LastWritten(Stepped(mc, unset(k)), unset, k + 1, n - 1, address);
      if later.Some? then later else WrittenByStep(mc, unset(k), address)
    else None
  }

  function WrittenByStep(mc: Machine, unset: Instruction, address: int): Option<bv8>
    requires CanStep(mc, unset)
  {
    DecodedFits(LoadWord(mc.memory, mc.state.pc), unset);
    ByteWritten(Decoded(LoadWord(mc.memory, mc.state.pc), unset).value, mc.state, address)
  }

  lemma ByteAfterStep(mc: Machine, unset: Instruction, address: int)
    requires CanStep(mc, unset)
    ensures var w := WrittenByStep(mc, unset, address);
            ByteAt(Stepped(mc, unset).memory, address) == if w.Some? then w.value else ByteAt(mc.memory, address)
  {
    hide Decoded, Executed, ByteWritten, ByteAt, LoadWord, Fits, Defined;
    var word := LoadWord(mc.memory, mc.state.pc);
    DecodedFits(word, unset);
    ByteAfterInstruction(Decoded(word, unset).value, mc, address);
  }

  /** After every run each byte of the memory is the one that was put there last, or the one that was there before. */
  lemma {:induction false} ByteAfterRun(mc: Machine, unset: nat -> Instruction, k: nat, n: int, address: int)
    requires CanRun(mc, unset, k, n)
    ensures var w := LastWritten(mc, unset, k, n, address);
            ByteAt(Ran(mc, unset, k, n).memory, address) == if w.Some? then w.value else ByteAt(mc.memory, address)
    decreases if n > 0 then n else 0
  {
    hide Stepped, CanStep, WrittenByStep, ByteAt;
    if n > 0 && mc.running {
      ByteAfterStep(mc, unset(k), address);
      ByteAfterRun(Stepped(mc, unset(k)), unset, k + 1, n - 1, address);
    }
  }

  /**
   The byte that an STURB has put into a region is what an LDURB from the same address finds after any number of further
   instructions, provided that none of them puts a byte there.
   */
  lemma StoreThenLoad(store: Instruction, load: Instruction, mc: Machine, unset: nat -> Instruction, k: nat, n: int)
    requires Fits(store) && Fits(load) && store.name == Sturb && load.name == Ldurb
    requires var after := Executed(store, mc); var address := Address(store, mc.state) % TWO_32;
             && RegionOf(address) < REGIONS && CanRun(after, unset, k, n)
             && LastWritten(after, unset, k, n, address) == None
             && Address(load, Ran(after, unset, k, n).state) % TWO_32 == address
    ensures Executed(load, Ran(Executed(store, mc), unset, k, n)).state.regs[load.rd] == mc.state.regs[store.rd] % 0x100
  {
    hide Store, LowByte, ByteValue, ByteAt, RegionOf, Executed, Address, CanRun, Ran, LastWritten;
    var after, address := Executed(store, mc), Address(store, mc.state) % TWO_32;
    ByteStored(store, mc);
    ByteAfterRun(after, unset, k, n, address);
    ByteLoadExecuted(load, Ran(after, unset, k, n));
    ByteAfterStore(mc.memory, address, LowByte(mc.state.regs[store.rd]), address);
    ByteValueBack(mc.state.regs[store.rd]);
  }

  lemma ByteStored(store: Instruction, mc: Machine)
    requires Fits(store) && store.name == Sturb
    ensures Executed(store, mc).state == mc.state.(pc := Wrap(mc.state.pc + 4))
    ensures Executed(store, mc).memory ==
            Store(mc.memory, Address(store, mc.state) % TWO_32, [LowByte(mc.state.regs[store.rd])])
  {
    hide Address, LowByte, Executed, Wrap, Store;
    ExecutedStore(store, mc);
  }

  lemma ByteLoadExecuted(load: Instruction, mc: Machine)
    requires Fits(load) && load.name == Ldurb
    ensures Executed(load, mc) ==
            mc.(state := mc.state.(pc := Wrap(mc.state.pc + 4),
                regs := mc.state.regs[load.rd := ByteValue(ByteAt(mc.memory, Address(load, mc.state) % TWO_32))]))
  {
    hide Executed, ByteValue, ByteAt, Wrap, Address, Value;
    ExecutedData(load, mc);
    ByteFound(load, mc.state, mc.memory);
  }

  lemma ByteFound(load: Instruction, s: State, m: Image)
    requires Fits(load) && load.name == Ldurb
    ensures Value(load, s, m) == ByteValue(ByteAt(m, Address(load, s) % TWO_32))
  {
    hide ByteValue, ByteAt, Address;
  }

  // ---------- compare and branch ----------

  /** The relation that a condition asks for (DDI 0487, section C1.2.4). */
  predicate Relation(cond: nat, x: int, y: int)
    requires cond in {0x0, 0x1, 0xA, 0xB, 0xC, 0xD}
  {
    match cond
    case 0x0 => x == y
    case 0x1 => x != y
    case 0xA => x >= y
    case 0xB => x < y
    case 0xC => x > y
    case _ => x <= y
  }

  predicate InRange(x: int) {
    -TWO_63 <= x < TWO_63
  }

  /** The flags of a comparison tell the relation unless the condition is an order and the difference overflows. */
  lemma TakenIff(cond: nat, a: U64, b: U64)
    requires cond in {0x0, 0x1, 0xA, 0xB, 0xC, 0xD}
    ensures var v := Difference(a, b);
            Taken(cond, v >= TWO_63, v == 0) == Relation(cond, Signed(a), Signed(b)) <==>
            cond <= 1 || InRange(Signed(a) - Signed(b))
  {
  }

  /** The smallest number less one is taken to be the larger one. */
  lemma OverflowMisleads()
    ensures var a, b: U64 := TWO_63, 1; var v := Difference(a, b);
            Signed(a) < Signed(b) && !Taken(0xB, v >= TWO_63, v == 0)
  {
  }

  function Compared(i: Instruction, s: State): U64
    requires Fits(i) && (i.name == SubsImmediate || i.name == SubsExtended)
  {
    if i.name == SubsImmediate then i.aluImmediate else s.regs[i.rm]
  }

  /**
    * A comparison followed by a conditional branch: the branch goes to its target exactly if the relation holds of the
    * operands as signed numbers, provided that the condition is no order or the difference does not overflow.
    */
  lemma CompareThenBranch(compare: Instruction, branch: Instruction, mc: Machine)
    requires Fits(compare) && (compare.name == SubsImmediate || compare.name == SubsExtended)
    requires Fits(branch) && branch.name == BCond && branch.rt in {0x0, 0x1, 0xA, 0xB, 0xC, 0xD}
    requires var x, y := Signed(mc.state.regs[compare.rn]), Signed(Compared(compare, mc.state));
             branch.rt <= 1 || InRange(x - y)
    ensures var x, y := Signed(mc.state.regs[compare.rn]), Signed(Compared(compare, mc.state));
            Executed(branch, Executed(compare, mc)).state.pc ==
            Wrap(mc.state.pc + 4 + if Relation(branch.rt, x, y) then 4 * BranchOffset(branch) else 4)
  {
    hide Relation, Taken, Signed, Executed, InRange, Wrap;
    TakenIff(branch.rt, mc.state.regs[compare.rn], Compared(compare, mc.state));
    CompareStep(compare, mc);
    BranchStep(branch, Executed(compare, mc));
    WrapTwice(mc.state.pc + 4, 4);
    WrapTwice(mc.state.pc + 4, 4 * BranchOffset(branch));
  }

  lemma CompareStep(compare: Instruction, mc: Machine)
    requires Fits(compare) && (compare.name == SubsImmediate || compare.name == SubsExtended)
    ensures var s, v := Executed(compare, mc).state, Difference(mc.state.regs[compare.rn], Compared(compare, mc.state));
            s.pc == Wrap(mc.state.pc + 4) && s.n == (v >= TWO_63) && s.z == (v == 0)
  {
    hide Difference, Wrap;
  }

  /** The 19 bits of the offset as a signed number. */
  function BranchOffset(branch: Instruction): int {
    if branch.condBrAddress >= 0x4_0000 then branch.condBrAddress - 0x8_0000 else branch.condBrAddress
  }

  /**
   Where the other branches go from an instruction at a multiple of four: CBZ to a signed offset, BR to the register, B
   forward to its six-bit offset.
   */
  lemma BranchTargets(i: Instruction, s: State)
    requires Fits(i) && s.pc % 4 == 0
    ensures i.name == Cbz ==> NextPc(i, s) == Wrap(s.pc + if s.regs[i.rt] == 0 then 4 * BranchOffset(i) else 4)
    ensures i.name == Br ==> NextPc(i, s) == if s.regs[i.rn] % 4 == 0 then s.regs[i.rn] else Wrap(s.pc + 4)
    ensures i.name == B ==> NextPc(i, s) == Wrap(s.pc + 4 * i.brAddress)
  {
    hide Wrap, Bit18, Offset;
    TargetAligned(s.pc, Offset(i.condBrAddress, Bit18(i.condBrAddress)));
    Bit18Is(i.condBrAddress);
  }

  /**
   CBNZ takes the sign of its offset from the field of B, as an earlier instruction has left it, and so goes to its own
   signed offset exactly if that field has the same sign.
   */
  lemma CbnzTargetIff(i: Instruction, s: State)
    requires Fits(i) && i.name == Cbnz && s.pc % 4 == 0
    ensures NextPc(i, s) == Wrap(s.pc + if s.regs[i.rt] != 0 then 4 * BranchOffset(i) else 4) <==>
            s.regs[i.rt] == 0 || (i.brAddress % 0x8_0000 >= 0x4_0000 <==> i.condBrAddress >= 0x4_0000)
  {
    hide Wrap, Bit18, Offset;
    TargetAligned(s.pc, Offset(i.condBrAddress, Bit18(i.brAddress)));
    Bit18Is(i.condBrAddress);
    Bit18Is(i.brAddress);
    TargetsDiffer(s.pc, i.condBrAddress);
  }

  lemma Bit18Is(field: nat)
    ensures Bit18(field) <==> field % 0x8_0000 >= 0x4_0000
    ensures field < 0x8_0000 ==> Offset(field, Bit18(field)) == if field >= 0x4_0000 then field - 0x8_0000 else field
  {
  }

  lemma TargetsDiffer(pc: U64, field: nat)
    ensures Target(pc, Offset(field, true)) != Target(pc, Offset(field, false))
  {
  }

  lemma BranchStep(branch: Instruction, mc: Machine)
    requires Fits(branch) && branch.name == BCond
    ensures Executed(branch, mc).state.pc ==
            Wrap(mc.state.pc + if Taken(branch.rt, mc.state.n, mc.state.z) then 4 * BranchOffset(branch) else 4)
  {
    hide Taken, Wrap;
  }

  lemma WrapTwice(x: int, y: int)
    ensures Wrap(Wrap(x) + y) == Wrap(x + y)
  {
    assert x == x / 0x1_0000_0000_0000_0000 * 0x1_0000_0000_0000_0000 + Wrap(x);
  }
}
