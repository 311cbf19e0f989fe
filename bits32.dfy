/** The two kinds of step the xorshift-multiply hash is built from, on
    `uint32_t` values (`bv32`, where every operation wraps modulo 2^32), and
    the steps that undo them.

    Each inverse lemma below states one fact and proves it on the literal
    expression: the solver settles such bit-vector identities by rewriting,
    and the hash-level proofs then only chain these facts. */
module Bits32 {

  /** `x ^= x >> k`. */
  function XorShiftRight(x: bv32, k: nat): bv32
    requires k < 32
  {
    x ^ (x >> k)
  }

  /** `x *= c`, wrapping modulo 2^32. */
  function MulWrap(x: bv32, c: bv32): bv32 {
    x * c
  }

  // Inverses of the xorshift steps with the shift amounts the hash uses. For
  // a shift `k` with `3 * k >= 32`, `y ^ (y >> k) ^ (y >> 2k)` recovers every
  // bit, and `y ^ (y >> k)` alone does once `2 * k >= 32`.

  function UnXorShift11(y: bv32): bv32 { y ^ (y >> 11) ^ (y >> 22) }
  function UnXorShift14(y: bv32): bv32 { y ^ (y >> 14) ^ (y >> 28) }
  function UnXorShift15(y: bv32): bv32 { y ^ (y >> 15) ^ (y >> 30) }
  function UnXorShift17(y: bv32): bv32 { y ^ (y >> 17) }

  lemma UnXorShift11Left(x: bv32)
    ensures UnXorShift11(XorShiftRight(x, 11)) == x
  {
    assert UnXorShift11(x ^ (x >> 11)) == x;
  }

  lemma UnXorShift11Right(y: bv32)
    ensures XorShiftRight(UnXorShift11(y), 11) == y
  {
    assert XorShiftRight(y ^ (y >> 11) ^ (y >> 22), 11) == y;
  }

  lemma UnXorShift14Left(x: bv32)
    ensures UnXorShift14(XorShiftRight(x, 14)) == x
  {
    assert UnXorShift14(x ^ (x >> 14)) == x;
  }

  lemma UnXorShift14Right(y: bv32)
    ensures XorShiftRight(UnXorShift14(y), 14) == y
  {
    assert XorShiftRight(y ^ (y >> 14) ^ (y >> 28), 14) == y;
  }

  lemma UnXorShift15Left(x: bv32)
    ensures UnXorShift15(XorShiftRight(x, 15)) == x
  {
    assert UnXorShift15(x ^ (x >> 15)) == x;
  }

  lemma UnXorShift15Right(y: bv32)
    ensures XorShiftRight(UnXorShift15(y), 15) == y
  {
    assert XorShiftRight(y ^ (y >> 15) ^ (y >> 30), 15) == y;
  }

  lemma UnXorShift17Left(x: bv32)
    ensures UnXorShift17(XorShiftRight(x, 17)) == x
  {
    assert UnXorShift17(x ^ (x >> 17)) == x;
  }

  lemma UnXorShift17Right(y: bv32)
    ensures XorShiftRight(UnXorShift17(y), 17) == y
  {
    assert XorShiftRight(y ^ (y >> 17), 17) == y;
  }

  // The hash's odd multipliers and their inverses modulo 2^32: multiplying
  // by one undoes multiplying by the other, in either order.

  const M1: bv32 := 0xed5ad4bb
  const M2: bv32 := 0xac4c1b51
  const M3: bv32 := 0x31848bab
  const M1Inverse: bv32 := 0x79a85073
  const M2Inverse: bv32 := 0x469e0db1
  const M3Inverse: bv32 := 0x32b21703

  lemma MulM1Left(x: bv32)
    ensures MulWrap(MulWrap(x, M1), M1Inverse) == x
  {
    assert MulWrap(x * 0xed5ad4bb, 0x79a85073) == x;
  }

  lemma MulM1Right(y: bv32)
    ensures MulWrap(MulWrap(y, M1Inverse), M1) == y
  {
    assert MulWrap(y * 0x79a85073, 0xed5ad4bb) == y;
  }

  lemma MulM2Left(x: bv32)
    ensures MulWrap(MulWrap(x, M2), M2Inverse) == x
  {
    assert MulWrap(x * 0xac4c1b51, 0x469e0db1) == x;
  }

  lemma MulM2Right(y: bv32)
    ensures MulWrap(MulWrap(y, M2Inverse), M2) == y
  {
    assert MulWrap(y * 0x469e0db1, 0xac4c1b51) == y;
  }

  lemma MulM3Left(x: bv32)
    ensures MulWrap(MulWrap(x, M3), M3Inverse) == x
  {
    assert MulWrap(x * 0x31848bab, 0x32b21703) == x;
  }

  lemma MulM3Right(y: bv32)
    ensures MulWrap(MulWrap(y, M3Inverse), M3) == y
  {
    assert MulWrap(y * 0x32b21703, 0x31848bab) == y;
  }
}
