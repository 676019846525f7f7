/** The simulator's memory: three regions of bytes, reached only through 32-bit little-endian words. */
module ArmMemory {
  import opened Powers
  import opened WordNumbers

  /** An unsigned 64-bit value: an address, or the contents of a register. */
  type U64 = x: int | 0 <= x < 0x1_0000_0000_0000_0000

  // ---------- words and their bytes ----------

  function WordOf(b: seq<bv8>): bv32
    requires |b| == 4
  {
    Pack(b[0], b[1], b[2], b[3])
  }

  function Pack(b0: bv8, b1: bv8, b2: bv8, b3: bv8): bv32 {
    ((b3 as bv32) << 24) | ((b2 as bv32) << 16) | ((b1 as bv32) << 8) | (b0 as bv32)
  }

  function BytesOf(w: bv32): (b: seq<bv8>)
    ensures |b| == 4
  {
    [ByteIn(w, 0), ByteIn(w, 1), ByteIn(w, 2), ByteIn(w, 3)]
  }

  function ByteIn(w: bv32, k: nat): bv8
    requires k < 4
  {
    ((w >> Shift(k)) & 0xFF) as bv8
  }

  /** How far byte k of a word has to be shifted. */
  function Shift(k: nat): (s: bv32)
    requires k < 4
    ensures s < 32
  {
    if k == 0 then 0 else if k == 1 then 8 else if k == 2 then 16 else 24
  }

  /** Replaces some bits of a word. */
  function Splice(w: bv32, v: bv32, mask: bv32, shift: bv32): bv32
    requires shift < 32
  {
    (w & !(mask << shift)) | (v << shift)
  }

  function SpliceByte(w: bv32, v: bv8, k: nat): bv32
    requires k < 4
  {
    Splice(w, v as bv32, 0xFF, Shift(k))
  }

  function SpliceHalf(w: bv32, v: bv16, k: nat): bv32
    requires k < 4
  {
    Splice(w, v as bv32, 0xFFFF, Shift(k))
  }

  function ByteNumbered(x: int): bv8
    requires 0 <= x < 0x100
  {
    x as bv8
  }

  function LowByte(r: U64): bv8 {
    ByteNumbered(r % 0x100)
  }

  function LowHalf(r: U64): bv16 {
    (r % 0x1_0000) as bv16
  }

  function LowWord(r: U64): bv32 {
    (r % TWO_32) as bv32
  }

  function HalfBytes(v: bv16): (b: seq<bv8>)
    ensures |b| == 2
  {
    [(v & 0xFF) as bv8, (v >> 8) as bv8]
  }

  function ByteValue(b: bv8): U64 {
    b as int
  }

  function WordValue(w: bv32): (r: U64)
    ensures r < TWO_32
  {
    w as int
  }

  /** A 64-bit value from its two halves. */
  function DoubleWord(low: bv32, high: bv32): U64 {
    0x1_0000_0000 * WordValue(high) + WordValue(low)
  }

  lemma WordsAndBytes(b: seq<bv8>)
    requires |b| == 4
    ensures BytesOf(WordOf(b)) == b
  {
    hide Pack, ByteIn;
    PackedBytes(b[0], b[1], b[2], b[3]);
  }

  lemma PackedBytes(b0: bv8, b1: bv8, b2: bv8, b3: bv8)
    ensures var w := Pack(b0, b1, b2, b3);
            ByteIn(w, 0) == b0 && ByteIn(w, 1) == b1 && ByteIn(w, 2) == b2 && ByteIn(w, 3) == b3
  {
  }

  lemma SpliceByte0(w: bv32, v: bv8)
    ensures ByteIn(SpliceByte(w, v, 0), 0) == v && ByteIn(SpliceByte(w, v, 0), 1) == ByteIn(w, 1)
    ensures ByteIn(SpliceByte(w, v, 0), 2) == ByteIn(w, 2) && ByteIn(SpliceByte(w, v, 0), 3) == ByteIn(w, 3)
  {
  }

  lemma SpliceByte1(w: bv32, v: bv8)
    ensures ByteIn(SpliceByte(w, v, 1), 0) == ByteIn(w, 0) && ByteIn(SpliceByte(w, v, 1), 1) == v
    ensures ByteIn(SpliceByte(w, v, 1), 2) == ByteIn(w, 2) && ByteIn(SpliceByte(w, v, 1), 3) == ByteIn(w, 3)
  {
  }

  lemma SpliceByte2(w: bv32, v: bv8)
    ensures ByteIn(SpliceByte(w, v, 2), 0) == ByteIn(w, 0) && ByteIn(SpliceByte(w, v, 2), 1) == ByteIn(w, 1)
    ensures ByteIn(SpliceByte(w, v, 2), 2) == v && ByteIn(SpliceByte(w, v, 2), 3) == ByteIn(w, 3)
  {
  }

  lemma SpliceByte3(w: bv32, v: bv8)
    ensures ByteIn(SpliceByte(w, v, 3), 0) == ByteIn(w, 0) && ByteIn(SpliceByte(w, v, 3), 1) == ByteIn(w, 1)
    ensures ByteIn(SpliceByte(w, v, 3), 2) == ByteIn(w, 2) && ByteIn(SpliceByte(w, v, 3), 3) == v
  {
  }

  /** The masks and shifts of a byte store replace one byte of the word. */
  lemma SpliceByteReplaces(w: bv32, v: bv8, k: nat)
    requires k < 4
    ensures BytesOf(SpliceByte(w, v, k)) == BytesOf(w)[k := v]
  {
    hide ByteIn, SpliceByte;
    if k == 0 {
      SpliceByte0(w, v);
    } else if k == 1 {
      SpliceByte1(w, v);
    } else if k == 2 {
      SpliceByte2(w, v);
    } else {
      SpliceByte3(w, v);
    }
  }

  lemma SpliceHalf0(w: bv32, v: bv16)
    ensures ByteIn(SpliceHalf(w, v, 0), 0) == HalfBytes(v)[0] && ByteIn(SpliceHalf(w, v, 0), 1) == HalfBytes(v)[1]
    ensures ByteIn(SpliceHalf(w, v, 0), 2) == ByteIn(w, 2) && ByteIn(SpliceHalf(w, v, 0), 3) == ByteIn(w, 3)
  {
  }

  lemma SpliceHalf2(w: bv32, v: bv16)
    ensures ByteIn(SpliceHalf(w, v, 2), 0) == ByteIn(w, 0) && ByteIn(SpliceHalf(w, v, 2), 1) == ByteIn(w, 1)
    ensures ByteIn(SpliceHalf(w, v, 2), 2) == HalfBytes(v)[0] && ByteIn(SpliceHalf(w, v, 2), 3) == HalfBytes(v)[1]
  {
  }

  lemma SpliceHalfReplaces(w: bv32, v: bv16, k: nat)
    requires k == 0 || k == 2
    ensures BytesOf(SpliceHalf(w, v, k)) == BytesOf(w)[..k] + HalfBytes(v) + BytesOf(w)[k + 2..]
  {
    hide ByteIn, SpliceHalf, HalfBytes;
    if k == 0 {
      SpliceHalf0(w, v);
    } else {
      SpliceHalf2(w, v);
    }
  }

  lemma ByteValueBack(r: U64)
    ensures ByteValue(LowByte(r)) == r % 0x100
  {
    hide ByteValue, ByteNumbered;
    var b := ByteWithValue(r % 0x100);
    ValueNumbered(b);
  }

  /** Every number below 256 is the value of a byte. */
  lemma {:induction false} ByteWithValue(x: nat) returns (b: bv8)
    requires x < 0x100
    ensures ByteValue(b) == x
  {
    b := 0;
    if x > 0 {
      b := ByteWithValue(x - 1);
      NextByte(b);
      b := b + 1;
    }
  }

  lemma NextByte(b: bv8)
    requires ByteValue(b) < 0xFF
    ensures ByteValue(b + 1) == ByteValue(b) + 1
  {
  }

  lemma ValueNumbered(b: bv8)
    ensures ByteNumbered(ByteValue(b)) == b
  {
  }

  lemma PackedNumber(b0: bv8, b1: bv8, b2: bv8, b3: bv8)
    ensures WordValue(Pack(b0, b1, b2, b3)) ==
            ByteValue(b0) + 0x100 * ByteValue(b1) + 0x1_0000 * ByteValue(b2) + 0x100_0000 * ByteValue(b3)
  {
  }

  function PackHalf(b0: bv8, b1: bv8): bv16 {
    ((b1 as bv16) << 8) | (b0 as bv16)
  }

  function HalfValue(v: bv16): nat {
    v as nat
  }

  lemma PackedHalf(b0: bv8, b1: bv8)
    ensures HalfValue(PackHalf(b0, b1)) == ByteValue(b0) + 0x100 * ByteValue(b1)
    ensures HalfBytes(PackHalf(b0, b1)) == [b0, b1]
  {
  }

  lemma WordNumbered(w: bv32)
    ensures WordValue(w) as bv32 == w
  {
  }

  lemma HalfNumbered(v: bv16)
    ensures HalfValue(v) < 0x1_0000 && HalfValue(v) as bv16 == v
  {
  }

  /** The low word of a register consists of its four lowest bytes, the least significant one first. */
  lemma LowWordBytes(r: U64)
    ensures WordValue(LowWord(r)) == r % 0x1_0000_0000
    ensures var b := BytesOf(LowWord(r));
            && ByteValue(b[0]) == r % 0x100 && ByteValue(b[1]) == r / 0x100 % 0x100
            && ByteValue(b[2]) == r / 0x1_0000 % 0x100 && ByteValue(b[3]) == r / 0x100_0000 % 0x100
  {
    hide BytesOf, ByteValue, WordValue;
    var b := FourBytes(r % 0x100, r / 0x100 % 0x100, r / 0x1_0000 % 0x100, r / 0x100_0000 % 0x100);
    FourDigits(r);
    WordNumbered(WordOf(b));
  }

  lemma FourBytes(d0: nat, d1: nat, d2: nat, d3: nat) returns (b: seq<bv8>)
    requires d0 < 0x100 && d1 < 0x100 && d2 < 0x100 && d3 < 0x100
    ensures |b| == 4 && BytesOf(WordOf(b)) == b
    ensures ByteValue(b[0]) == d0 && ByteValue(b[1]) == d1 && ByteValue(b[2]) == d2 && ByteValue(b[3]) == d3
    ensures WordValue(WordOf(b)) == d0 + 0x100 * d1 + 0x1_0000 * d2 + 0x100_0000 * d3
  {
    hide Pack, BytesOf, ByteValue, WordValue;
    var b0 := ByteWithValue(d0);
    var b1 := ByteWithValue(d1);
    var b2 := ByteWithValue(d2);
    var b3 := ByteWithValue(d3);
    PackedNumber(b0, b1, b2, b3);
    b := [b0, b1, b2, b3];
    WordsAndBytes(b);
  }

  lemma FourDigits(r: U64)
    ensures r % 0x1_0000_0000 ==
            r % 0x100 + 0x100 * (r / 0x100 % 0x100) + 0x1_0000 * (r / 0x1_0000 % 0x100) + 0x100_0000 * (r / 0x100_0000 % 0x100)
    ensures r % 0x1_0000 == r % 0x100 + 0x100 * (r / 0x100 % 0x100)
  {
    NextDigit(r, 0x100, 0x100);
    NextDigit(r, 0x1_0000, 0x100);
    NextDigit(r, 0x100_0000, 0x100);
  }

  lemma NextDigit(x: nat, p: nat, q: nat)
    requires p > 0 && q > 0
    ensures p * q > 0 && x % (p * q) == x % p + p * (x / p % q)
  {
    var a, b := Split(x, p);
    var c, d := Split(a, q);
    TwoDigits(p, q, c, d, b);
    Divided(x, p * q, c, p * d + b);
  }

  lemma Split(x: nat, p: nat) returns (a: nat, b: nat)
    requires p > 0
    ensures a == x / p && b == x % p && x == p * a + b && b < p
  {
    a, b := x / p, x % p;
  }

  lemma TwoDigits(p: nat, q: nat, c: nat, d: nat, b: nat)
    requires b < p && d < q
    ensures p * q > 0 && p * d + b < p * q
    ensures p * (q * c + d) + b == p * q * c + (p * d + b)
  {
    MulMonotone(1, p, q);
    MulMonotone(d + 1, q, p);
  }

  lemma LowHalfBytes(r: U64)
    ensures HalfValue(LowHalf(r)) == r % 0x1_0000
    ensures var b := HalfBytes(LowHalf(r)); ByteValue(b[0]) == r % 0x100 && ByteValue(b[1]) == r / 0x100 % 0x100
  {
    hide PackHalf, HalfBytes, ByteValue, HalfValue;
    var b0 := ByteWithValue(r % 0x100);
    var b1 := ByteWithValue(r / 0x100 % 0x100);
    PackedHalf(b0, b1);
    FourDigits(r);
    HalfNumbered(PackHalf(b0, b1));
  }

  // ---------- regions ----------

  const REGIONS := 3
  const REGION_SIZE := 0x10_0000

  const TEXT_START := 0x40_0000

  function Start(k: nat): int {
    if k == 0 then TEXT_START else if k == 1 then 0x1000_0000 else 0xFFFF_FFFC
  }

  predicate Holds(k: nat, address: int) {
    Start(k) <= address < Start(k) + REGION_SIZE
  }

  /** The region of an address, or REGIONS if there is none. */
  function RegionOf(address: int): (k: nat)
    ensures k <= REGIONS
    ensures k < REGIONS <==> exists j: nat :: j < REGIONS && Holds(j, address)
    ensures forall j: nat :: j < REGIONS && Holds(j, address) ==> j == k
  {
    if Holds(0, address) then 0
    else if Holds(1, address) then 1
    else if Holds(2, address) then 2
    else assert !Holds(0, address) && !Holds(1, address) && !Holds(2, address); 3
  }

  /** Text, data and stack: a mebibyte each. */
  lemma RegionsAre(address: int)
    ensures RegionOf(address) == 0 <==> 0x40_0000 <= address < 0x50_0000
    ensures RegionOf(address) == 1 <==> 0x1000_0000 <= address < 0x1010_0000
    ensures RegionOf(address) == 2 <==> 0xFFFF_FFFC <= address < 0x1_000F_FFFC
  {
  }

  /** The bytes of the regions; each has three more of them than it has addresses. */
  type Image = m: seq<seq<bv8>> | |m| == 3 && forall k :: 0 <= k < 3 ==> |m[k]| == 0x10_0003
    witness seq(3, i => seq(0x10_0003, j => 0))

  function LoadWord(m: Image, address: int): bv32 {
    var k := RegionOf(address);
    if k == REGIONS then 0
    else
      var offset := address - Start(k);
      WordOf(m[k][offset..offset + 4])
  }

  function Overwrite(s: seq<bv8>, offset: nat, b: seq<bv8>): (r: seq<bv8>)
    requires offset + |b| <= |s|
    ensures |r| == |s|
  {
    s[..offset] + b + s[offset + |b|..]
  }

  /** Bytes that are stored at an address without a region are lost. */
  function Store(m: Image, address: int, b: seq<bv8>): Image
    requires |b| <= 4
  {
    var k := RegionOf(address);
    if k == REGIONS then m else m[k := Overwrite(m[k], address - Start(k), b)]
  }

  // ---------- bytes through words ----------

  lemma SameRegion(address: int, k: nat)
    requires address % 4 == 0 && k < 4
    ensures RegionOf(address + k) == RegionOf(address)
  {
    forall j: nat | j < REGIONS
      ensures Holds(j, address) <==> Holds(j, address + k)
    {
    }
  }

  lemma OverwriteInside(s: seq<bv8>, offset: nat, b: seq<bv8>, k: nat, c: seq<bv8>)
    requires k + |c| <= |b| && offset + |b| <= |s| && s[offset..offset + |b|] == b
    ensures Overwrite(s, offset, b[..k] + c + b[k + |c|..]) == Overwrite(s, offset + k, c)
  {
    assert s[..offset + k] == s[..offset] + b[..k];
    assert s[offset + k + |c|..] == b[k + |c|..] + s[offset + |b|..];
  }

  /** Reading, splicing and writing back an aligned word stores one byte, and nothing else. */
  lemma ByteThroughWord(m: Image, address: int, k: nat, v: bv8)
    requires address % 4 == 0 && k < 4
    ensures Store(m, address, BytesOf(SpliceByte(LoadWord(m, address), v, k))) == Store(m, address + k, [v])
  {
    hide BytesOf, SpliceByte, WordOf, RegionOf, Overwrite;
    SameRegion(address, k);
    var r := RegionOf(address);
    if r < REGIONS {
      var offset: nat := address - Start(r);
      var b := m[r][offset..offset + 4];
      WordsAndBytes(b);
      SpliceByteReplaces(WordOf(b), v, k);
      assert b[k := v] == b[..k] + [v] + b[k + 1..];
      OverwriteInside(m[r], offset, b, k, [v]);
    }
  }

  lemma HalfThroughWord(m: Image, address: int, k: nat, v: bv16)
    requires address % 4 == 0 && (k == 0 || k == 2)
    ensures Store(m, address, BytesOf(SpliceHalf(LoadWord(m, address), v, k))) == Store(m, address + k, HalfBytes(v))
  {
    hide BytesOf, SpliceHalf, WordOf, RegionOf, HalfBytes, Overwrite;
    SameRegion(address, k);
    var r := RegionOf(address);
    if r < REGIONS {
      var offset: nat := address - Start(r);
      var b := m[r][offset..offset + 4];
      WordsAndBytes(b);
      SpliceHalfReplaces(WordOf(b), v, k);
      OverwriteInside(m[r], offset, b, k, HalfBytes(v));
    }
  }

  /** The byte at an address; addresses without a region read as zero. */
  function ByteAt(m: Image, address: int): bv8 {
    var k := RegionOf(address);
    if k == REGIONS then 0 else m[k][address - Start(k)]
  }

  lemma ByteFromWord(m: Image, address: int, k: nat)
    requires address % 4 == 0 && k < 4
    ensures ByteIn(LoadWord(m, address), k) == ByteAt(m, address + k)
  {
    hide BytesOf, ByteIn, WordOf, RegionOf;
    SameRegion(address, k);
    var r := RegionOf(address);
    InBytes(LoadWord(m, address), k);
    if r < REGIONS {
      var offset: nat := address - Start(r);
      WordsAndBytes(m[r][offset..offset + 4]);
    } else {
      ZeroBytes(k);
    }
  }

  /** The number that n bytes make, the least significant one first. */
  function LittleEndian(m: Image, address: int, n: nat): nat
    decreases n
  {
    if n == 0 then 0 else ByteValue(ByteAt(m, address)) + 0x100 * LittleEndian(m, address + 1, n - 1)
  }

  lemma FourLittleEndian(m: Image, address: int)
    ensures LittleEndian(m, address, 4) ==
            ByteValue(ByteAt(m, address)) + 0x100 * ByteValue(ByteAt(m, address + 1))
            + 0x1_0000 * ByteValue(ByteAt(m, address + 2)) + 0x100_0000 * ByteValue(ByteAt(m, address + 3))
  {
    hide ByteAt, ByteValue;
    assert LittleEndian(m, address + 3, 1) == ByteValue(ByteAt(m, address + 3));
    assert LittleEndian(m, address + 2, 2) ==
           ByteValue(ByteAt(m, address + 2)) + 0x100 * ByteValue(ByteAt(m, address + 3));
  }

  /** A word read at a multiple of four is made of the four bytes there. */
  lemma LoadedNumber(m: Image, address: int)
    requires address % 4 == 0
    ensures WordValue(LoadWord(m, address)) == LittleEndian(m, address, 4)
  {
    hide ByteIn, ByteAt, LoadWord, Pack, WordValue, ByteValue, LittleEndian;
    FourLittleEndian(m, address);
    var w := LoadWord(m, address);
    ByteFromWord(m, address, 0);
    ByteFromWord(m, address, 1);
    ByteFromWord(m, address, 2);
    ByteFromWord(m, address, 3);
    Repacked(w);
    PackedNumber(ByteIn(w, 0), ByteIn(w, 1), ByteIn(w, 2), ByteIn(w, 3));
  }

  lemma Repacked(w: bv32)
    ensures Pack(ByteIn(w, 0), ByteIn(w, 1), ByteIn(w, 2), ByteIn(w, 3)) == w
  {
  }

  lemma InBytes(w: bv32, k: nat)
    requires k < 4
    ensures BytesOf(w)[k] == ByteIn(w, k)
  {
    hide ByteIn;
    assert k == 0 || k == 1 || k == 2 || k == 3;
  }

  lemma ZeroBytes(k: nat)
    requires k < 4
    ensures BytesOf(0)[k] == 0
  {
  }

  // ---------- the memory ----------

  method NewRegion() returns (r: array<bv8>)
    ensures fresh(r) && r.Length == REGION_SIZE + 3
    ensures forall i :: 0 <= i < REGION_SIZE ==> r[i] == 0
  {
    r := new bv8[REGION_SIZE + 3];
    for i := 0 to REGION_SIZE
      invariant forall j :: 0 <= j < i ==> r[j] == 0
    {
      r[i] := 0;
    }
  }

  method PutWord(mem: array<bv8>, offset: nat, value: bv32)
    requires offset + 4 <= mem.Length
    modifies mem
    ensures mem[..] == Overwrite(old(mem[..]), offset, BytesOf(value))
  {
    hide BytesOf;
    var b := BytesOf(value);
    mem[offset + 3] := b[3];
    mem[offset + 2] := b[2];
    mem[offset + 1] := b[1];
    mem[offset] := b[0];
  }

  class Memory {
    const text: array<bv8>
    const data: array<bv8>
    const stack: array<bv8>

    ghost predicate Valid() {
      && text.Length == data.Length == stack.Length == REGION_SIZE + 3
      && text != data && data != stack && stack != text
    }

    ghost function Bytes(): Image
      requires Valid()
      reads text, data, stack
    {
      [text[..], data[..], stack[..]]
    }

    function Region(k: nat): (r: array<bv8>) {
      if k == 0 then text else if k == 1 then data else stack
    }

    constructor ()
      ensures Valid() && fresh(text) && fresh(data) && fresh(stack)
      ensures forall address :: ByteAt(Bytes(), address) == 0
    {
      var region0 := NewRegion();
      var region1 := NewRegion();
      var region2 := NewRegion();
      text, data, stack := region0, region1, region2;
    }

    method MemRead32(address: U64) returns (value: bv32)
      requires Valid()
      ensures value == LoadWord(Bytes(), address)
    {
      hide WordOf;
      for i := 0 to REGIONS
        invariant forall j: nat :: j < i ==> !Holds(j, address)
      {
        if Start(i) <= address < Start(i) + REGION_SIZE {
          assert Holds(i, address);
          var offset: nat := address - Start(i);
          var mem := Region(i);
          value := WordOf([mem[offset], mem[offset + 1], mem[offset + 2], mem[offset + 3]]);
          assert [mem[offset], mem[offset + 1], mem[offset + 2], mem[offset + 3]] == mem[..][offset..offset + 4];
          return;
        }
      }
      value := 0;
    }

    method MemWrite32(address: U64, value: bv32)
      requires Valid()
      modifies text, data, stack
      ensures Bytes() == Store(old(Bytes()), address, BytesOf(value))
    {
      hide BytesOf;
      for i := 0 to REGIONS
        invariant forall j: nat :: j < i ==> !Holds(j, address)
        invariant Bytes() == old(Bytes())
      {
        if Start(i) <= address < Start(i) + REGION_SIZE {
          assert Holds(i, address);
          PutWord(Region(i), address - Start(i), value);
          return;
        }
      }
    }
  }
}
