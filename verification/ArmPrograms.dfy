/** What short programs do, from the words that they are in memory. */
module ArmPrograms {
  import opened Powers
  import opened WordNumbers
  import opened ArmMemory
  import opened ArmDecode
  import opened ArmFields
  import opened ArmExecution

  /** The number of the word at an address. */
  function NumberAt(m: Image, address: int): nat {
    Number(LoadWord(m, address))
  }

  /** An instruction that is found by its leading bits can be executed, unless its operands are not defined. */
  lemma StepDecoded(mc: Machine, unset: Instruction, name: Name)
    requires Begins(name, NumberAt(mc.memory, mc.state.pc)) && name != AddExtended && name != Lsl
    ensures var x, i := NumberAt(mc.memory, mc.state.pc), Decoded(LoadWord(mc.memory, mc.state.pc), unset);
            && i.Some? && i.value.name == name && Fits(i.value) && Defined(i.value) && HasFields(i.value, x)
            && CanStep(mc, unset) && Stepped(mc, unset) == Executed(i.value, mc)
  {
    hide LoadWord, Number, Decoded, Executed, Begins, HasFields, KeepsOthers, Fits;
    DecodedAs(LoadWord(mc.memory, mc.state.pc), name, unset);
  }

  // ---------- a branch to itself ----------

  /** A branch B to itself goes on for ever: it can be executed any number of times, and the machine does not halt. */
  lemma {:induction false} JumpToItself(mc: Machine, unset: nat -> Instruction, k: nat, n: int)
    requires var x := NumberAt(mc.memory, mc.state.pc); Begins(B, x) && x % 64 == 0
    requires mc.running
    ensures CanRun(mc, unset, k, n) && Ran(mc, unset, k, n) == mc && !HaltsWithin(mc, unset, k, n)
    decreases if n > 0 then n else 0
  {
    hide NumberAt, Begins, Executed, Decoded, CanStep, Stepped;
    if n > 0 {
      JumpStep(mc, unset(k));
      JumpToItself(mc, unset, k + 1, n - 1);
    }
  }

  lemma JumpStep(mc: Machine, unset: Instruction)
    requires var x := NumberAt(mc.memory, mc.state.pc); Begins(B, x) && x % 64 == 0
    ensures CanStep(mc, unset) && Stepped(mc, unset) == mc
  {
    hide NumberAt, LoadWord, Executed, Decoded, Begins, Fits, CanStep, Stepped;
    StepDecoded(mc, unset, B);
    ExecutedBranch(Decoded(LoadWord(mc.memory, mc.state.pc), unset).value, mc);
  }

  // ---------- two instructions ----------

  lemma TwoSteps(mc: Machine, unset: nat -> Instruction, k: nat)
    requires mc.running && CanStep(mc, unset(k))
    requires var between := Stepped(mc, unset(k)); between.running && CanStep(between, unset(k + 1))
    ensures CanRun(mc, unset, k, 2) && Ran(mc, unset, k, 2) == Stepped(Stepped(mc, unset(k)), unset(k + 1))
  {
    hide Stepped, CanStep;
    var between := Stepped(mc, unset(k));
    var after := Stepped(between, unset(k + 1));
    assert CanRun(after, unset, k + 2, 0) && Ran(after, unset, k + 2, 0) == after;
    assert CanRun(between, unset, k + 1, 1) && Ran(between, unset, k + 1, 1) == after;
  }

  /** A nine-bit or 19-bit field as a signed number. */
  function SignedField(field: nat, top: nat): int {
    if field >= top then field - 2 * top else field
  }

  /** SUBS with either kind of operand, from the number of the word. */
  predicate IsCompare(x: nat) {
    x / 0x100_0000 == 0xF1 || x / 0x40_0000 == 0x3AC
  }

  predicate IsConditionalBranch(x: nat) {
    x / 0x100_0000 == 0x54
  }

  /** The number that a comparison compares with a register: its immediate operand or another register. */
  function SecondOperand(x: nat, s: State): U64
    requires IsCompare(x)
  {
    if x / 0x100_0000 == 0xF1 then x / 1024 % 4096 else s.regs[x / 0x1_0000 % 32]
  }

  lemma CompareDecoded(mc: Machine, unset: Instruction)
    requires IsCompare(NumberAt(mc.memory, mc.state.pc))
    ensures var x, i := NumberAt(mc.memory, mc.state.pc), Decoded(LoadWord(mc.memory, mc.state.pc), unset);
            && i.Some? && Fits(i.value) && (i.value.name == SubsImmediate || i.value.name == SubsExtended)
            && Defined(i.value) && CanStep(mc, unset) && Stepped(mc, unset) == Executed(i.value, mc)
            && i.value.rn == x / 32 % 32 && Compared(i.value, mc.state) == SecondOperand(x, mc.state)
  {
    hide NumberAt, LoadWord, Executed, Decoded, CanStep, Stepped;
    if NumberAt(mc.memory, mc.state.pc) / 0x100_0000 == 0xF1 {
      StepDecoded(mc, unset, SubsImmediate);
    } else {
      StepDecoded(mc, unset, SubsExtended);
    }
  }

  lemma BranchDecoded(mc: Machine, unset: Instruction)
    requires IsConditionalBranch(NumberAt(mc.memory, mc.state.pc))
    ensures var x, i := NumberAt(mc.memory, mc.state.pc), Decoded(LoadWord(mc.memory, mc.state.pc), unset);
            && i.Some? && Fits(i.value) && i.value.name == BCond
            && Defined(i.value) && CanStep(mc, unset) && Stepped(mc, unset) == Executed(i.value, mc)
            && i.value.rt == x % 32 && BranchOffset(i.value) == SignedField(x / 32 % 0x8_0000, 0x4_0000)
  {
    hide NumberAt, LoadWord, Executed, Decoded, CanStep, Stepped;
    StepDecoded(mc, unset, BCond);
  }

  /**
    * Two cycles from two words in memory, whatever their other bits and wherever they are: the machine can execute them,
    * and then goes on at the branch target exactly if the relation holds.
    */
  lemma TwoCycles(mc: Machine, unset: nat -> Instruction, k: nat)
    requires mc.running
    requires IsCompare(NumberAt(mc.memory, mc.state.pc))
    requires IsConditionalBranch(NumberAt(mc.memory, Wrap(mc.state.pc + 4)))
    requires var x, y := NumberAt(mc.memory, mc.state.pc), NumberAt(mc.memory, Wrap(mc.state.pc + 4));
             var a, b, cond := Signed(mc.state.regs[x / 32 % 32]), Signed(SecondOperand(x, mc.state)), y % 32;
             cond in {0x0, 0x1} || (cond in {0xA, 0xB, 0xC, 0xD} && InRange(a - b))
    ensures CanRun(mc, unset, k, 2)
    ensures var x, y := NumberAt(mc.memory, mc.state.pc), NumberAt(mc.memory, Wrap(mc.state.pc + 4));
            var a, b, cond := Signed(mc.state.regs[x / 32 % 32]), Signed(SecondOperand(x, mc.state)), y % 32;
            var offset := SignedField(y / 32 % 0x8_0000, 0x4_0000);
            Ran(mc, unset, k, 2).state.pc == Wrap(mc.state.pc + 4 + if Relation(cond, a, b) then 4 * offset else 4)
  {
    hide NumberAt, LoadWord, Decoded, Executed, Relation, InRange, Signed, Wrap, IsCompare, IsConditionalBranch,
         SecondOperand, Compared, Fits, Defined, CanStep, Stepped, CanRun, Ran, SignedField, BranchOffset;
    CompareDecoded(mc, unset(k));
    var compare := Decoded(LoadWord(mc.memory, mc.state.pc), unset(k)).value;
    AfterCompare(compare, mc);
    var between := Stepped(mc, unset(k));
    BranchDecoded(between, unset(k + 1));
    TwoSteps(mc, unset, k);
    CompareThenBranch(compare, Decoded(LoadWord(mc.memory, between.state.pc), unset(k + 1)).value, mc);
  }

  lemma AfterCompare(compare: Instruction, mc: Machine)
    requires Fits(compare) && Defined(compare) && (compare.name == SubsImmediate || compare.name == SubsExtended)
    ensures var between := Executed(compare, mc);
            between.state.pc == Wrap(mc.state.pc + 4) && between.memory == mc.memory && between.running == mc.running
  {
    hide Written, Value, Wrap;
    ExecutedData(compare, mc);
    CompareStep(compare, mc);
  }

  // ---------- a byte stored and loaded ----------

  /** The address that a load or store reaches: a register plus a signed offset, cut to 32 bits. */
  function LowAddress(x: nat, s: State): int {
    Wrap(s.regs[x / 32 % 32] + SignedField(x / 4096 % 512, 0x100)) % 0x1_0000_0000
  }

  lemma ByteStoreDecoded(mc: Machine, unset: Instruction)
    requires NumberAt(mc.memory, mc.state.pc) / 0x20_0000 == 0x1C0
    ensures var x := NumberAt(mc.memory, mc.state.pc);
            && CanStep(mc, unset)
            && Stepped(mc, unset) ==
               Machine(mc.state.(pc := Wrap(mc.state.pc + 4)),
                       Store(mc.memory, LowAddress(x, mc.state), [LowByte(mc.state.regs[x % 32])]), mc.running)
  {
    hide NumberAt, LoadWord, Executed, Decoded, CanStep, Stepped, LowByte, Wrap, Store, Address, LowAddress, Fits, HasFields;
    StepDecoded(mc, unset, Sturb);
    var store := Decoded(LoadWord(mc.memory, mc.state.pc), unset).value;
    ReachedAddress(store, NumberAt(mc.memory, mc.state.pc), mc.state);
    ExecutedStore(store, mc);
  }

  lemma ReachedAddress(i: Instruction, x: nat, s: State)
    requires Fits(i) && HasFields(i, x) && FormatOf(i.name) == D
    ensures i.rd == x % 32 && i.rn < 32 && i.dtAddress < 0x200
    ensures Address(i, s) % TWO_32 == LowAddress(x, s)
  {
    hide Wrap;
  }

  lemma ByteLoadDecoded(mc: Machine, unset: Instruction)
    requires NumberAt(mc.memory, mc.state.pc) / 0x40_0000 == 0xE1
    ensures var x := NumberAt(mc.memory, mc.state.pc);
            && CanStep(mc, unset)
            && Stepped(mc, unset) ==
               mc.(state := mc.state.(pc := Wrap(mc.state.pc + 4),
                   regs := mc.state.regs[x % 32 := ByteValue(ByteAt(mc.memory, LowAddress(x, mc.state)))]))
  {
    hide NumberAt, LoadWord, Executed, Decoded, CanStep, Stepped, ByteValue, ByteAt, Wrap, Address, LowAddress, Fits, HasFields;
    StepDecoded(mc, unset, Ldurb);
    var load := Decoded(LoadWord(mc.memory, mc.state.pc), unset).value;
    ReachedAddress(load, NumberAt(mc.memory, mc.state.pc), mc.state);
    ByteLoadExecuted(load, mc);
  }

  /** A byte stored elsewhere does not change a word. */
  lemma WordAfterByte(m: Image, address: int, v: bv8, other: int)
    requires address < other || other + 4 <= address
    ensures LoadWord(Store(m, address, [v]), other) == LoadWord(m, other)
  {
    hide WordOf, Overwrite, RegionOf;
    var k := RegionOf(other);
    if RegionOf(address) == k < REGIONS {
      SliceAfterOverwrite(m[k], address - Start(k), v, other - Start(k));
    }
  }

  lemma SliceAfterOverwrite(s: seq<bv8>, at: nat, v: bv8, offset: nat)
    requires at < |s| && offset + 4 <= |s| && (at < offset || offset + 4 <= at)
    ensures Overwrite(s, at, [v])[offset..offset + 4] == s[offset..offset + 4]
  {
  }

  /**
    * The byte of the register that word x names has gone to the address that it names, if there is memory, and no other
    * byte has changed. The register that word y names holds the byte at the address that this one names, which is the byte
    * just stored if the addresses are the same. No other register has changed, and no flag.
    */
  ghost predicate StoredAndLoaded(s: State, m: Image, x: nat, y: nat, end: Machine) {
    var to, from, byte := LowAddress(x, s), LowAddress(y, s), s.regs[x % 32] % 256;
    var stored := RegionOf(to) < REGIONS;
    && (forall address :: ByteValue(ByteAt(end.memory, address)) ==
          if address == to && stored then byte else ByteValue(ByteAt(m, address)))
    && end.state.regs == s.regs[y % 32 := if to == from && stored then byte else ByteValue(ByteAt(m, from))]
    && end.state.n == s.n && end.state.z == s.z
  }

  /**
    * STURB and then LDURB, from two words in memory: the machine can execute them, unless the byte is stored over the
    * second word, and stores and loads exactly the bytes that the words name.
    */
  lemma StoreThenLoadCycles(mc: Machine, unset: nat -> Instruction, k: nat)
    requires mc.running
    requires NumberAt(mc.memory, mc.state.pc) / 0x20_0000 == 0x1C0
    requires NumberAt(mc.memory, Wrap(mc.state.pc + 4)) / 0x40_0000 == 0xE1
    requires var to := LowAddress(NumberAt(mc.memory, mc.state.pc), mc.state);
             to < Wrap(mc.state.pc + 4) || Wrap(mc.state.pc + 4) + 4 <= to
    ensures CanRun(mc, unset, k, 2)
    ensures var x, y := NumberAt(mc.memory, mc.state.pc), NumberAt(mc.memory, Wrap(mc.state.pc + 4));
            var end := Ran(mc, unset, k, 2);
            StoredAndLoaded(mc.state, mc.memory, x, y, end) && end.running && end.state.pc == Wrap(mc.state.pc + 8)
  {
    hide NumberAt, LoadWord, Decoded, Executed, Wrap, CanStep, Stepped, CanRun, Ran, LowAddress, ByteAt, ByteValue,
         LowByte, Store, RegionOf;
    var s, x := mc.state, NumberAt(mc.memory, mc.state.pc);
    var to, v := LowAddress(x, s), LowByte(s.regs[x % 32]);
    ByteStoreDecoded(mc, unset(k));
    var between := Stepped(mc, unset(k));
    WordAfterByte(mc.memory, to, v, Wrap(s.pc + 4));
    SameNumber(between.memory, mc.memory, Wrap(s.pc + 4));
    ByteLoadDecoded(between, unset(k + 1));
    TwoSteps(mc, unset, k);
    ByteValueBack(s.regs[x % 32]);
    forall address
      ensures ByteValue(ByteAt(between.memory, address)) ==
              if address == to && RegionOf(to) < REGIONS then s.regs[x % 32] % 256 else ByteValue(ByteAt(mc.memory, address))
    {
      ByteAfterStore(mc.memory, to, v, address);
    }
    SameAddress(NumberAt(mc.memory, Wrap(s.pc + 4)), s, between.state);
    WrapTwice(s.pc + 4, 4);
  }

  lemma SameNumber(m: Image, m': Image, address: int)
    requires LoadWord(m, address) == LoadWord(m', address)
    ensures NumberAt(m, address) == NumberAt(m', address)
  {
  }

  lemma SameAddress(x: nat, s: State, s': State)
    requires s.regs == s'.regs
    ensures LowAddress(x, s) == LowAddress(x, s')
  {
  }
}
