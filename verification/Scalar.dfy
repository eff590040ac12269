/** Numbers modulo the group order, and the bits of a number. */
module Scalar {
  import opened Arithmetic

  /** Group order and field size of secp256k1, SEC 2 section 2.7.1. */
  const N: nat := 0xFFFFFFFF_FFFFFFFF_FFFFFFFF_FFFFFFFE_BAAEDCE6_AF48A03B_BFD25E8C_D0364141
  const P: nat := 0xFFFFFFFF_FFFFFFFF_FFFFFFFF_FFFFFFFF_FFFFFFFF_FFFFFFFF_FFFFFFFE_FFFFFC2F
  const PMinusOrder: nat := 0x1_45512319_50B75FC4_402DA172_2FC9BAEE

  const Two255: nat := 0x80000000_00000000_00000000_00000000_00000000_00000000_00000000_00000000

  /** scalar_negate */
  function Negate(a: nat): (r: nat)
    requires a < N
    ensures r < N && (r + a) % N == 0
  {
    if a == 0 then 0 else N - a
  }

  /** scalar_is_high: above half the order. */
  predicate IsHigh(a: nat) { a > N / 2 }

  lemma Pow2Of255()
    ensures Pow2(255) == Two255 && Pow2(256) == 2 * Two255
  {
    assert Pow2(32) == 2 * Pow2(31) && Pow2(256) == 2 * Pow2(255);
    hide Pow2;
    Pow2Of32();
    Pow2Adds(32, 32);
    Pow2Adds(64, 64);
    Pow2Adds(128, 127);
    Pow2Adds(64, 63);
    Pow2Adds(32, 31);
  }

  lemma LimbWeights()
    ensures Pow2(32) == 0x1_00000000 && Pow2(64) == 0x1_00000000_00000000
    ensures Pow2(128) == 0x1_00000000_00000000_00000000_00000000
    ensures Pow2(192) == 0x1_00000000_00000000_00000000_00000000_00000000_00000000
  {
    Pow2Of32();
    Pow2Adds(32, 32);
    Pow2Adds(64, 64);
    Pow2Adds(128, 64);
  }

  /** The order and half of it by their 64-bit limbs, the field size by its distance from a power of two. */
  lemma Parameters()
    ensures N == 0xBFD25E8CD0364141 + Pow2(64) * 0xBAAEDCE6AF48A03B
                 + Pow2(128) * 0xFFFFFFFFFFFFFFFE + Pow2(192) * 0xFFFFFFFFFFFFFFFF
    ensures N / 2 == 0xDFE92F46681B20A0 + Pow2(64) * 0x5D576E7357A4501D
                     + Pow2(128) * 0xFFFFFFFFFFFFFFFF + Pow2(192) * 0x7FFFFFFFFFFFFFFF
    ensures P == Pow2(256) - Pow2(32) - 977 && PMinusOrder == P - N
  {
    hide Pow2;
    LimbWeights();
    Pow2Of255();
  }

  /** What is left of `s` when the lowest `bit` bits are shifted out. */
  function High(s: nat, bit: nat): nat { if bit == 0 then s else High(s / 2, bit - 1) }

  /** The number that the lowest `count` bits make. */
  function Low(s: nat, count: nat): nat { if count == 0 then 0 else s % 2 + 2 * Low(s / 2, count - 1) }

  /** scalar_get_bits */
  function Bits(s: nat, bit: nat, count: nat): nat { Low(High(s, bit), count) }

  /** `s` with the lowest `bit` bits cleared. */
  function Rest(s: nat, bit: nat): nat { if bit == 0 then s else 2 * Rest(s / 2, bit - 1) }

  lemma {:induction false} HighOfHigh(s: nat, bit: nat, count: nat)
    ensures High(s, bit + count) == High(High(s, bit), count)
    decreases bit
  {
    if bit > 0 { HighOfHigh(s / 2, bit - 1, count); }
  }

  /** Quotient and remainder by a power of two. */
  lemma {:induction false} HighAndLow(s: nat, count: nat)
    ensures s == High(s, count) * Pow2(count) + Low(s, count) && Low(s, count) < Pow2(count)
    ensures s == Rest(s, count) + Low(s, count)
    decreases count
  {
    if count > 0 {
      HighAndLow(s / 2, count - 1);
      Doubled(High(s, count), Pow2(count - 1));
    }
  }

  lemma Doubled(h: int, p: int)
    ensures h * (2 * p) == 2 * (h * p)
  {
  }

  lemma BitsSplit(s: nat, bit: nat, count: nat)
    ensures High(s, bit) == High(s, bit + count) * Pow2(count) + Bits(s, bit, count)
    ensures Bits(s, bit, count) < Pow2(count)
  {
    HighOfHigh(s, bit, count);
    HighAndLow(High(s, bit), count);
  }

  /** Taking `count` bits off the rest. */
  lemma {:induction false} RestTaken(s: nat, bit: nat, count: nat)
    ensures Rest(s, bit) == Rest(s, bit + count) + Pow2(bit) * Bits(s, bit, count)
    decreases bit
  {
    if bit == 0 {
      HighAndLow(s, count);
    } else {
      RestTaken(s / 2, bit - 1, count);
      MulAssociates(2, Pow2(bit - 1), Bits(s, bit, count));
    }
  }

  /** scalar_add_bit, seen from the bit on. */
  lemma {:induction false} HighCarries(s: nat, bit: nat)
    ensures High(s + Pow2(bit), bit) == High(s, bit) + 1
    ensures Rest(s + Pow2(bit), bit) == Rest(s, bit) + Pow2(bit)
    decreases bit
  {
    if bit > 0 {
      assert (s + Pow2(bit)) / 2 == s / 2 + Pow2(bit - 1);
      HighCarries(s / 2, bit - 1);
    }
  }

  /** A single bit is the parity of what is left. */
  lemma OneBit(s: nat, bit: nat)
    ensures Bits(s, bit, 1) == High(s, bit) % 2 && High(s, bit + 1) == High(s, bit) / 2
    ensures Rest(s, bit) == Rest(s, bit + 1) + Pow2(bit) * Bits(s, bit, 1)
  {
    var h := High(s, bit);
    HighOfHigh(s, bit, 1);
    assert High(h, 1) == High(h / 2, 0);
    assert Low(h, 1) == h % 2 + 2 * Low(h / 2, 0);
    RestTaken(s, bit, 1);
  }
}
