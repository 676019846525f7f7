/** Powers of two and the place of the most significant set bit. */
module Powers {

  const TWO_32: int := 0x1_0000_0000
  const TWO_63: int := 0x8000_0000_0000_0000
  const TWO_64: int := 0x1_0000_0000_0000_0000

  /** An unsigned 32-bit word of a profile data file. */
  type Word = w: int | 0 <= w < 0x1_0000_0000

  /** A non-negative value of a 64-bit profile counter. */
  type Count = c: int | 0 <= c < 0x8000_0000_0000_0000

  /** A signed 64-bit profile counter. */
  type Counter = c: int | -0x8000_0000_0000_0000 <= c < 0x8000_0000_0000_0000

  function Pow2(n: nat): (p: nat)
    ensures p > 0
  {
    if n == 0 then 1 else 2 * Pow2(n - 1)
  }

  /** Bit k of a number. */
  predicate Bit(x: nat, k: nat) {
    if k == 0 then x % 2 == 1 else Bit(x / 2, k - 1)
  }

  /** The place of the most significant set bit of a positive number. */
  function FloorLog2(v: nat): (r: nat)
    requires v > 0
    ensures Pow2(r) <= v < 2 * Pow2(r)
  {
    if v == 1 then 0 else 1 + FloorLog2(v / 2)
  }

  lemma {:induction false} Pow2Monotone(m: nat, n: nat)
    requires m <= n
    ensures Pow2(m) <= Pow2(n)
    decreases n
  {
    if m < n {
      Pow2Monotone(m, n - 1);
    }
  }

  lemma Pow2Order(m: nat, n: nat)
    requires Pow2(m) < 2 * Pow2(n)
    ensures m <= n
  {
    if n < m {
      Pow2Monotone(n + 1, m);
    }
  }

  /** A number lies in exactly one interval between adjacent powers of two. */
  lemma FloorLog2Unique(v: nat, r: nat)
    requires Pow2(r) <= v < 2 * Pow2(r)
    ensures FloorLog2(v) == r
  {
    Pow2Order(r, FloorLog2(v));
    Pow2Order(FloorLog2(v), r);
  }

  lemma Pow2At64()
    ensures Pow2(32) == TWO_32 && Pow2(63) == TWO_63 && Pow2(64) == TWO_64
  {
    assert Pow2(8) == 0x100;
    assert Pow2(16) == 0x1_0000;
    assert Pow2(24) == 0x100_0000;
    assert Pow2(32) == 0x1_0000_0000;
    assert Pow2(40) == 0x100_0000_0000;
    assert Pow2(48) == 0x1_0000_0000_0000;
    assert Pow2(56) == 0x100_0000_0000_0000;
    assert Pow2(63) == 0x8000_0000_0000_0000;
  }

  lemma BytePowers()
    ensures Pow2(0) == 1 && Pow2(8) == 0x100 && Pow2(16) == 0x1_0000 && Pow2(24) == 0x100_0000
  {
    assert Pow2(4) == 0x10 && Pow2(12) == 0x1000 && Pow2(20) == 0x10_0000;
  }

  /** The quotient of a number between lo * d and hi * d. */
  lemma QuotientRange(a: nat, d: nat, lo: nat, hi: nat)
    requires d > 0 && lo * d <= a < hi * d
    ensures lo <= a / d < hi
    ensures a / d * d <= a < a / d * d + d
  {
    var q := a / d;
    assert a == q * d + a % d;
    if q < lo {
      MulMonotone(q + 1, lo, d);
    }
    if hi <= q {
      MulMonotone(hi, q, d);
    }
  }

  lemma MulMonotone(a: int, b: int, c: nat)
    requires a <= b
    ensures a * c <= b * c && c * a <= c * b
  {
  }
}
