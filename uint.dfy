/** The fixed-width unsigned integers of the C sources, as bounded integers. */
module Uint {
  const TWO_8: int := 0x100
  const TWO_16: int := 0x1_0000
  const TWO_32: int := 0x1_0000_0000
  const TWO_64: int := 0x1_0000_0000_0000_0000

  /** uint64 / unsigned long */
  type U64 = x: int | 0 <= x < TWO_64
  /** unsigned int */
  type U32 = x: int | 0 <= x < TWO_32

  /** 2^n */
  function Pow2(n: nat): (p: nat)
    ensures p >= 1
  {
    if n == 0 then 1 else 2 * Pow2(n - 1)
  }

  /**
    The bit pattern of a uint64 value, built one bit at a time so that no
    conversion of a full-width integer is needed.
   */
  function Bits64(x: U64): bv64
    decreases x
  {
    if x == 0 then 0 else (Bits64(x / 2) << 1) | LowBit(x)
  }

  function LowBit(x: nat): (b: bv64)
    ensures b <= 1
  {
    if x % 2 == 0 then 0 else 1
  }

  /** Every pattern is the pattern of half the value shifted up, with the low bit appended. */
  lemma BitsStep(x: U64)
    ensures Bits64(x) == (Bits64(x / 2) << 1) | LowBit(x)
  {
  }

  /** An even value ends in a zero bit, and adding one sets that bit. */
  lemma Bits64Even(x: U64)
    requires x % 2 == 0 && x < TWO_64 - 1
    ensures Bits64(x) & 1 == 0
    ensures Bits64(x + 1) == Bits64(x) + 1
  {
    assert (x + 1) / 2 == x / 2;
    SetLowBit(Bits64(x / 2));
  }

  lemma SetLowBit(h: bv64)
    ensures ((h << 1) | 0) & 1 == 0
    ensures (h << 1) | 1 == ((h << 1) | 0) + 1
  {
  }

  /** The bit positions k and above. */
  function High(k: nat): bv64 {
    if k == 0 then 0xFFFF_FFFF_FFFF_FFFF else High(k - 1) << 1
  }

  /** A value below 2^k sets no bit at position k or above. */
  lemma {:induction false} BitsBelow(z: U64, k: nat)
    requires z < Pow2(k)
    ensures Bits64(z) & High(k) == 0
    decreases z
  {
    if z > 0 {
      assert k > 0 && z / 2 < Pow2(k - 1);
      BitsBelow(z / 2, k - 1);
      BitsStep(z);
      ShiftInClear(Bits64(z / 2), LowBit(z), High(k - 1));
    }
  }

  lemma ShiftInClear(h: bv64, b: bv64, m: bv64)
    requires h & m == 0 && b <= 1
    ensures ((h << 1) | b) & (m << 1) == 0
  {
  }

  lemma Position63()
    ensures Pow2(63) == 0x8000_0000_0000_0000
    ensures High(63) == 0x8000_0000_0000_0000
  {
    assert Pow2(8) == 0x100;
    assert Pow2(16) == 0x1_0000;
    assert Pow2(24) == 0x100_0000;
    assert Pow2(32) == 0x1_0000_0000;
    assert Pow2(40) == 0x100_0000_0000;
    assert Pow2(48) == 0x1_0000_0000_0000;
    assert Pow2(56) == 0x100_0000_0000_0000;
    assert High(8) == 0xFFFF_FFFF_FFFF_FF00;
    assert High(16) == 0xFFFF_FFFF_FFFF_0000;
    assert High(24) == 0xFFFF_FFFF_FF00_0000;
    assert High(32) == 0xFFFF_FFFF_0000_0000;
    assert High(40) == 0xFFFF_FF00_0000_0000;
    assert High(48) == 0xFFFF_0000_0000_0000;
    assert High(56) == 0xFF00_0000_0000_0000;
  }

  /** A value below 2^63 leaves the top bit clear. */
  lemma TopClear(z: U64)
    requires z < 0x8000_0000_0000_0000
    ensures Bits64(z) & 0x8000_0000_0000_0000 == 0
  {
    Position63();
    BitsBelow(z, 63);
  }

  /** The low bit of the pattern is the parity, and shifting it out gives the pattern of the half. */
  lemma Halve(x: U64)
    ensures Bits64(x) & 1 == LowBit(x) && Bits64(x) >> 1 == Bits64(x / 2)
  {
    TopClear(x / 2);
    BitsStep(x);
    ShiftOut(Bits64(x / 2), LowBit(x));
  }

  lemma ShiftOut(h: bv64, b: bv64)
    requires h & 0x8000_0000_0000_0000 == 0 && b <= 1
    ensures ((h << 1) | b) & 1 == b && ((h << 1) | b) >> 1 == h
  {
  }

  /** Different uint64 values have different bit patterns. */
  lemma {:induction false} Bits64Injective(x: U64, y: U64)
    requires Bits64(x) == Bits64(y)
    ensures x == y
    decreases x + y
  {
    if x + y > 0 {
      Halve(x);
      Halve(y);
      Bits64Injective(x / 2, y / 2);
      assert x % 2 == y % 2;
    }
  }

  /** Values up to 256 keep their pattern within nine bits. */
  lemma BitsSmall(x: U64)
    requires x <= 256
    ensures Bits64(x) <= 256
    ensures x < 256 ==> Bits64(x) <= 255
  {
    if x < 256 {
      assert Pow2(8) == 256;
      BitsBelow(x, 8);
      assert High(8) == 0xFFFF_FFFF_FFFF_FF00;
      Below256(Bits64(x));
    } else {
      Bits256();
    }
  }

  lemma Bits256()
    ensures Bits64(256) == 256
  {
    assert Bits64(4) == 4;
    assert Bits64(16) == 16;
    assert Bits64(64) == 64;
  }

  lemma Below256(h: bv64)
    requires h & 0xFFFF_FFFF_FFFF_FF00 == 0
    ensures h <= 255
  {
  }

  // ---------------------------------------------------------------------------
  // uint64 arithmetic on integers: every result is reduced modulo 2^64.

  lemma Position64()
    ensures Pow2(64) == TWO_64
  {
    Position63();
  }

  /** Exclusive or of the binary digits of two naturals. */
  function Xor(x: nat, y: nat): nat
    decreases x + y
  {
    if x == 0 && y == 0 then 0 else 2 * Xor(x / 2, y / 2) + (if x % 2 == y % 2 then 0 else 1)
  }

  /** Exclusive or sets no bit that neither operand sets. */
  lemma {:induction false} XorBelow(x: nat, y: nat, k: nat)
    requires x < Pow2(k) && y < Pow2(k)
    ensures Xor(x, y) < Pow2(k)
    decreases x + y
  {
    if x + y > 0 {
      assert k > 0;
      XorBelow(x / 2, y / 2, k - 1);
    }
  }

  /** Exclusive or with the same operand undoes itself. */
  lemma {:induction false} XorInverse(x: nat, y: nat)
    ensures Xor(Xor(x, y), y) == x
    decreases x + y
  {
    if x + y > 0 {
      XorInverse(x / 2, y / 2);
    }
  }

  lemma XorBelow64(x: U64, y: U64)
    ensures Xor(x, y) < TWO_64
  {
    Position64();
    XorBelow(x, y, 64);
  }

  /** `x + y` on uint64 */
  function Add64(x: U64, y: U64): U64 {
    (x + y) % TWO_64
  }

  /** `x - y` on uint64 */
  function Sub64(x: U64, y: U64): U64 {
    (x - y) % TWO_64
  }

  /** `x ^ y` on uint64 */
  function Xor64(x: U64, y: U64): U64 {
    XorBelow64(x, y);
    Xor(x, y)
  }

  /** `~x` on uint64 */
  function Not64(x: U64): U64 {
    TWO_64 - 1 - x
  }

  /** `x << k` on uint64, for the power `p` = 2^k. */
  function Shl64(x: U64, p: nat): U64 {
    (x * p) % TWO_64
  }

  /** `x >> k` on uint64, for the power `p` = 2^k (at least 1). */
  function Shr64(x: U64, p: nat): U64
    requires p >= 1
  {
    x / p
  }
}
