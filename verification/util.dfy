/** 64-bit helpers of the value representation: the shift used to build every
    mask and signature, and the xor-shift/multiply avalanche mixer. */
module Util {

  type Byte = bv8

  /** A `size_t` result of a hash function. */
  datatype HashValue = HashValue(bits: bv64)

  /** Unsigned 64-bit left shift. Shifting by 64 or more is undefined
      behaviour in C++, hence the precondition. */
  function Lshift(val: bv64, amount: bv64): bv64
    requires amount < 64
  {
    val << amount
  }

  /** The `amount` low bits a shift vacates are zero. */
  lemma LshiftClearsLowBits(val: bv64, amount: bv64)
    requires amount < 64
    ensures Lshift(val, amount) & ((1 << amount) - 1) == 0
  {
  }

  /** A 16-bit value shifted into the top of the word occupies bits 48..63
      only, and can be shifted back down unchanged: this is how every tag and
      signature of the layout is built. */
  lemma LshiftTopSixteen(k: bv64)
    requires k <= 0xFFFF
    ensures Lshift(k, 48) & 0xFFFF_FFFF_FFFF == 0
    ensures Lshift(k, 48) >> 48 == k
  {
  }

  /** Bits shifted past bit 63 are lost, not wrapped around. */
  lemma LshiftDiscardsOverflow(val: bv64)
    ensures Lshift(val, 48) == Lshift(val & 0xFFFF, 48)
    ensures Lshift(val, 63) == Lshift(val & 1, 63)
  {
  }

  /** One `x ^ (x >> k)` round of the mixer. The top `k` bits pass through
      unchanged. */
  function XorShift(x: bv64, k: bv64): (r: bv64)
    requires k == 27 || k == 30 || k == 31
    ensures r >> (64 - k) == x >> (64 - k)
  {
    x ^ (x >> k)
  }

  const MagicMul1: bv64 := 0xbf58476d1ce4e5b9
  const MagicMul2: bv64 := 0x94d049bb133111eb
  /** The avalanche finaliser: three xor-shift rounds separated by two
      wrapping 64-bit multiplications. Total on every 64-bit input. */
  function MagicHash(x: bv64): (r: bv64)
    ensures x == 0 ==> r == 0
  {
    var x1 := XorShift(x, 30) * MagicMul1;
    var x2 := XorShift(x1, 27) * MagicMul2;
    XorShift(x2, 31)
  }

}
