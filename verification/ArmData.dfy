/** What the data instructions compute: bit by bit, and as signed numbers. */
module ArmData {
  import opened Powers
  import opened WordNumbers
  import opened ArmMemory
  import opened ArmDecode
  import opened ArmExecution

  function Number64(w: bv64): U64 {
    w as int
  }

  function Word64(x: U64): bv64 {
    x as bv64
  }

  function Half64(w: bv64): bv64 { w >> 1 }

  function Last64(w: bv64): bv64 { w & 1 }

  function AppendBit64(hi: bv63, lo: bv1): bv64 {
    ((hi as bv64) << 1) | (lo as bv64)
  }

  lemma NumberOfAppended64(hi: bv63, lo: bv1)
    ensures Number64(AppendBit64(hi, lo)) == 2 * (hi as nat) + (lo as nat)
  {
  }

  lemma NumberOfParts64(w: bv64)
    ensures Number64(Half64(w)) == (w >> 1) as bv63 as nat && Number64(Last64(w)) == (w & 1) as bv1 as nat
  {
  }

  lemma NumberByBits64(w: bv64)
    ensures Number64(w) == 2 * Number64(Half64(w)) + Number64(Last64(w)) && Number64(Last64(w)) < 2
  {
    hide Number64;
    NumberOfAppended64((w >> 1) as bv63, (w & 1) as bv1);
    assert AppendBit64((w >> 1) as bv63, (w & 1) as bv1) == w;
    NumberOfParts64(w);
  }

  // ---------- every number is the number of a word ----------

  lemma WordOfNumber64(w: bv64)
    ensures Word64(Number64(w)) == w
  {
  }

  lemma SmallNumbers64()
    ensures Number64(0) == 0
  {
  }

  lemma TopBitCounts(w: bv64)
    requires w & 0x8000_0000_0000_0000 != 0
    ensures Number64(w) >= 0x8000_0000_0000_0000
  {
  }

  lemma AppendedParts(h: bv64, lo: bv1)
    requires h & 0x8000_0000_0000_0000 == 0
    ensures h < 0x8000_0000_0000_0000
    ensures Half64(AppendBit64(h as bv63, lo)) == h && Last64(AppendBit64(h as bv63, lo)) == lo as bv64
  {
  }

  lemma BitNumber(b: nat) returns (lo: bv1)
    requires b < 2
    ensures Number64(lo as bv64) == b
  {
    lo := if b == 0 then 0 else 1;
  }

  lemma {:induction false} WordWithNumber64(x: U64) returns (w: bv64)
    ensures Number64(w) == x
    decreases x
  {
    hide Number64, Half64, Last64, AppendBit64;
    if x == 0 {
      w := 0;
      SmallNumbers64();
    } else {
      var h := WordWithNumber64(x / 2);
      if h & 0x8000_0000_0000_0000 != 0 {
        TopBitCounts(h);
      }
      var lo := BitNumber(x % 2);
      AppendedParts(h, lo);
      w := AppendBit64(h as bv63, lo);
      NumberByBits64(w);
    }
  }

  lemma NumberOfWord64(x: U64)
    ensures Number64(Word64(x)) == x
  {
    hide Number64, Word64;
    var w := WordWithNumber64(x);
    WordOfNumber64(w);
  }

  /** Halving a number shifts its bits. */
  lemma HalfWord(x: U64)
    ensures Word64(x / 2) == Half64(Word64(x)) && Number64(Last64(Word64(x))) == x % 2
  {
    hide Number64, Word64, Half64, Last64;
    NumberOfWord64(x);
    NumberByBits64(Word64(x));
    WordOfNumber64(Half64(Word64(x)));
  }

  // ---------- bit by bit ----------

  datatype Operation = And | Or | Xor

  function Combined(op: Operation, u: bv64, v: bv64): bv64 {
    match op
    case And => u & v
    case Or => u | v
    case Xor => u ^ v
  }

  predicate CombinedBit(op: Operation, p: bool, q: bool) {
    match op
    case And => p && q
    case Or => p || q
    case Xor => p != q
  }

  lemma LastIs(w: bv64)
    ensures Last64(w) == 0 || Last64(w) == 1
    ensures Number64(Last64(w)) == 1 <==> Last64(w) == 1
    ensures Number64(Last64(w)) < 2
  {
  }

  lemma CombinedParts(op: Operation, u: bv64, v: bv64)
    ensures Half64(Combined(op, u, v)) == Combined(op, Half64(u), Half64(v))
    ensures Last64(Combined(op, u, v)) == 1 <==> CombinedBit(op, Last64(u) == 1, Last64(v) == 1)
  {
    hide Half64, Last64;
    AndParts(u, v);
    OrParts(u, v);
    XorParts(u, v);
  }

  lemma AndParts(u: bv64, v: bv64)
    ensures Half64(u & v) == Half64(u) & Half64(v)
    ensures Last64(u & v) == 1 <==> Last64(u) == 1 && Last64(v) == 1
  {
  }

  lemma OrParts(u: bv64, v: bv64)
    ensures Half64(u | v) == Half64(u) | Half64(v)
    ensures Last64(u | v) == 1 <==> Last64(u) == 1 || Last64(v) == 1
  {
  }

  lemma XorParts(u: bv64, v: bv64)
    ensures Half64(u ^ v) == Half64(u) ^ Half64(v)
    ensures Last64(u ^ v) == 1 <==> (Last64(u) == 1) != (Last64(v) == 1)
  {
  }

  lemma {:induction false} CombinedBits(op: Operation, a: U64, b: U64, k: nat)
    ensures Bit(Number64(Combined(op, Word64(a), Word64(b))), k) <==> CombinedBit(op, Bit(a, k), Bit(b, k))
  {
    hide Number64, Word64, Half64, Last64, Combined, CombinedBit;
    var u, v := Word64(a), Word64(b);
    HalfWord(a);
    HalfWord(b);
    NumberByBits64(Combined(op, u, v));
    CombinedParts(op, u, v);
    LastIs(u);
    LastIs(v);
    LastIs(Combined(op, u, v));
    if k > 0 {
      CombinedBits(op, a / 2, b / 2, k - 1);
    }
  }

  lemma AreCombined(a: U64, b: U64)
    ensures And64(a, b) == Number64(Combined(And, Word64(a), Word64(b)))
    ensures Or64(a, b) == Number64(Combined(Or, Word64(a), Word64(b)))
    ensures Xor64(a, b) == Number64(Combined(Xor, Word64(a), Word64(b)))
  {
  }

  /** Bit k of the result of ANDS, ORR or EOR is set exactly if bit k of both operands is, of one of them, or of only one. */
  lemma LogicalBits(a: U64, b: U64, k: nat)
    ensures Bit(And64(a, b), k) <==> Bit(a, k) && Bit(b, k)
    ensures Bit(Or64(a, b), k) <==> Bit(a, k) || Bit(b, k)
    ensures Bit(Xor64(a, b), k) <==> Bit(a, k) != Bit(b, k)
  {
    hide And64, Or64, Xor64, Number64, Combined, Word64;
    AreCombined(a, b);
    CombinedBits(And, a, b, k);
    CombinedBits(Or, a, b, k);
    CombinedBits(Xor, a, b, k);
  }

  lemma LogicalInstruction(i: Instruction, s: State, m: Image, k: nat)
    requires Fits(i) && Defined(i)
    ensures i.name == Ands ==> (Bit(Value(i, s, m), k) <==> Bit(s.regs[i.rn], k) && Bit(s.regs[i.rm], k))
    ensures i.name == Eor ==> (Bit(Value(i, s, m), k) <==> Bit(s.regs[i.rn], k) != Bit(s.regs[i.rm], k))
    ensures i.name == Orr ==> (Bit(Value(i, s, m), k) <==> Bit(s.regs[i.rn], k) || Bit(s.regs[i.shamt], k))
  {
    hide And64, Or64, Xor64, Bit;
    if i.name == Ands || i.name == Eor {
      LogicalBits(s.regs[i.rn], s.regs[i.rm], k);
    } else if i.name == Orr {
      LogicalBits(s.regs[i.rn], s.regs[i.shamt], k);
    }
  }

  // ---------- shifts ----------

  lemma HalfOfProduct(x: nat, p: nat)
    ensures x * (2 * p) == 2 * (x * p)
    ensures x * (2 * p) / 2 == x * p && x * (2 * p) % 2 == 0
  {
  }

  lemma {:induction false} BitOfMultiple(x: nat, n: nat, k: nat)
    ensures Bit(x * Pow2(n), k) <==> k >= n && Bit(x, k - n)
    decreases k
  {
    if n == 0 {
      assert x * Pow2(0) == x;
    } else {
      HalfOfProduct(x, Pow2(n - 1));
      if k > 0 {
        BitOfMultiple(x, n - 1, k - 1);
      }
    }
  }

  lemma QuotientOfHalf(x: nat, p: nat)
    requires p > 0
    ensures x / (2 * p) == x / 2 / p
  {
    var h, b := x / 2, x % 2;
    var q, r := h / p, h % p;
    assert x == 2 * (p * q + r) + b;
    assert 2 * (p * q) == 2 * p * q;
    Divided(x, 2 * p, q, 2 * r + b);
  }

  function Quotient(x: nat, p: nat): nat
    requires p > 0
  {
    x / p
  }

  lemma {:induction false} BitOfQuotient(x: nat, n: nat, k: nat)
    ensures Bit(Quotient(x, Pow2(n)), k) <==> Bit(x, k + n)
    decreases n
  {
    if n == 0 {
      assert x / Pow2(0) == x;
    } else {
      QuotientOfHalf(x, Pow2(n - 1));
      BitOfQuotient(x / 2, n - 1, k);
    }
  }

  lemma HalfOfRemainder(x: nat, p: nat)
    requires p > 0
    ensures x % (2 * p) / 2 == x / 2 % p && x % (2 * p) % 2 == x % 2
  {
    RemainderByBits(x / 2, x % 2, p);
  }

  lemma {:induction false} BitOfRemainder(x: nat, n: nat, k: nat)
    requires k < n
    ensures Bit(x % Pow2(n), k) <==> Bit(x, k)
    decreases n
  {
    HalfOfRemainder(x, Pow2(n - 1));
    if k > 0 {
      BitOfRemainder(x / 2, n - 1, k - 1);
    }
  }

  /** LSL moves the bits up and LSR moves them down, by as many places as the instruction says, and bits that leave are lost. */
  lemma ShiftedBits(i: Instruction, s: State, m: Image, k: nat)
    requires Fits(i) && Defined(i) && (i.name == Lsl || i.name == Lsr) && k < 64
    ensures i.name == Lsl ==> (Bit(Value(i, s, m), k) <==> k >= 64 - i.rm && Bit(s.regs[i.rn], k - (64 - i.rm)))
    ensures i.name == Lsr ==> (Bit(Value(i, s, m), k) <==> Bit(s.regs[i.rn], k + i.rm))
  {
    hide Bit, Pow2;
    var x := s.regs[i.rn];
    if i.name == Lsl {
      BitOfMultiple(x, 64 - i.rm, k);
      Pow2At64();
      MulMonotone(0, x, Pow2(64 - i.rm));
      BitOfRemainder(x * Pow2(64 - i.rm), 64, k);
    } else {
      BitOfQuotient(x, i.rm, k);
      Shrinks(x, Pow2(i.rm));
    }
  }

  lemma Shrinks(x: U64, p: nat)
    requires p > 0
    ensures Wrap(x / p) == x / p
  {
    MulMonotone(1, p, x / p);
  }

  // ---------- signed arithmetic ----------

  lemma SignedOfWrap(x: int)
    ensures Signed(Wrap(x)) == x <==> InRange(x)
  {
  }

  /** Numbers that differ by a multiple of 2^64 wrap to the same. */
  lemma WrapOfEqual(x: int, y: int, q: int)
    requires x == y + q * 0x1_0000_0000_0000_0000
    ensures Wrap(x) == Wrap(y)
  {
    assert y == y / 0x1_0000_0000_0000_0000 * 0x1_0000_0000_0000_0000 + Wrap(y);
    assert x == (q + y / 0x1_0000_0000_0000_0000) * 0x1_0000_0000_0000_0000 + Wrap(y);
  }

  function Turns(a: U64): nat { if a >= TWO_63 then 1 else 0 }

  lemma SignedTurns(a: U64)
    ensures a == Signed(a) + Turns(a) * TWO_64
  {
  }

  lemma ProductTurns(a: int, b: int, x: int, y: int, p: int, q: int, t: int)
    requires a == x + p * t && b == y + q * t
    ensures a * b == x * y + (x * q + p * y + p * q * t) * t
  {
    assert a * b == a * y + a * (q * t);
    assert a * y == x * y + p * t * y;
    assert a * (q * t) == x * (q * t) + p * t * (q * t);
    assert p * t * y == p * y * t;
    assert x * (q * t) == x * q * t;
    assert p * t * (q * t) == p * q * t * t;
  }

  /** Sums, differences and products are those of the signed numbers exactly if these are in the range of 64 bits. */
  lemma SignedResults(a: U64, b: U64)
    ensures Signed(Sum(a, b)) == Signed(a) + Signed(b) <==> InRange(Signed(a) + Signed(b))
    ensures Signed(Difference(a, b)) == Signed(a) - Signed(b) <==> InRange(Signed(a) - Signed(b))
    ensures Signed(Product(a, b)) == Signed(a) * Signed(b) <==> InRange(Signed(a) * Signed(b))
  {
    hide Wrap, Signed, InRange, Turns;
    var x, y, p, q := Signed(a), Signed(b), Turns(a), Turns(b);
    SignedTurns(a);
    SignedTurns(b);
    WrapOfEqual(a + b, x + y, p + q);
    WrapOfEqual(a - b, x - y, p - q);
    ProductTurns(a, b, x, y, p, q, TWO_64);
    WrapOfEqual(a * b, x * y, x * q + p * y + p * q * TWO_64);
    SignedOfWrap(x + y);
    SignedOfWrap(x - y);
    SignedOfWrap(x * y);
  }

  /** The operand that is added, subtracted or multiplied: a register, or the immediate field. */
  function Operand(i: Instruction, s: State): U64
    requires Fits(i) && Defined(i)
  {
    match i.name
    case AddsImmediate | AddImmediate | SubsImmediate => i.aluImmediate
    case AddsExtended | AddExtended | SubsExtended | Mul => s.regs[i.rm]
    case _ => 0
  }

  predicate IsArithmetic(name: Name) {
    name == AddsImmediate || name == AddImmediate || name == AddsExtended || name == AddExtended
    || name == SubsImmediate || name == SubsExtended || name == Mul
  }

  lemma ArithmeticInstruction(i: Instruction, s: State, m: Image)
    requires Fits(i) && Defined(i) && IsArithmetic(i.name)
    ensures var a, b, v := Signed(s.regs[i.rn]), Signed(Operand(i, s)), Signed(Value(i, s, m));
            if i.name == Mul then v == a * b <==> InRange(a * b)
            else if i.name == SubsImmediate || i.name == SubsExtended then v == a - b <==> InRange(a - b)
            else v == a + b <==> InRange(a + b)
  {
    hide Signed, InRange, Sum, Difference, Product;
    SignedResults(s.regs[i.rn], Operand(i, s));
  }

  // ---------- registers and flags ----------

  predicate KeepsRegisters(name: Name) {
    name == Hlt || name == Stur || name == Sturb || name == Sturh || name == Ldurh || name == B || name == Br
    || name == BCond || name == Cbz || name == Cbnz
  }

  predicate KeepsFlags(name: Name) {
    KeepsRegisters(name) || name == Eor || name == Orr || name == Lsr || name == Ldur || name == Ldurb
    || name == AddExtended || name == AddImmediate || name == Mul
  }

  predicate Discards31(name: Name) {
    name == SubsExtended || name == SubsImmediate || name == AddExtended
  }

  predicate IsReachable(name: Name) {
    name != SubImmediate && name != AndImmediate && name != Padding
  }

  /**
   An instruction changes no register but its destination, which gets the value computed unless it is register 31 of SUBS
   or of ADD with registers; and the flags, if it changes them, say whether that value is negative or zero.
   */
  lemma DataEffect(i: Instruction, mc: Machine, r: nat)
    requires Fits(i) && Defined(i) && IsReachable(i.name) && r < 32
    ensures var s, s', v := mc.state, Executed(i, mc).state, Value(i, mc.state, mc.memory);
            && s'.regs[r] == (if KeepsRegisters(i.name) || r != i.rd || (r == 31 && Discards31(i.name)) then s.regs[r] else v)
            && s'.n == (if KeepsFlags(i.name) then s.n else Signed(v) < 0)
            && s'.z == (if KeepsFlags(i.name) then s.z else v == 0)
            && (i.name == Movz ==> v == i.movImmediate)
  {
    hide Value, NextPc, MemoryAfter, Fits, Defined;
    var v := Value(i, mc.state, mc.memory);
    if i.name == Movz {
      ImmediateMoved(i, mc.state, mc.memory);
    }
    WrittenIs(i, v, mc.state.(pc := NextPc(i, mc.state)), r);
  }

  lemma ImmediateMoved(i: Instruction, s: State, m: Image)
    requires Fits(i) && Defined(i) && i.name == Movz
    ensures Value(i, s, m) == i.movImmediate
  {
  }

  lemma WrittenIs(i: Instruction, v: U64, s: State, r: nat)
    requires Fits(i) && IsReachable(i.name) && r < 32
    ensures var s' := Written(i, v, s);
            && s'.regs[r] == (if KeepsRegisters(i.name) || r != i.rd || (r == 31 && Discards31(i.name)) then s.regs[r] else v)
            && s'.n == (if KeepsFlags(i.name) then s.n else Signed(v) < 0)
            && s'.z == (if KeepsFlags(i.name) then s.z else v == 0)
  {
    hide Fits;
  }
}
