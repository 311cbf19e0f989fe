/** The integer helpers and the hash of `src/MicroTof.h` (namespace `MicroTof`).
    `ResizableArray`, from the same header, is in module `MicroTofArray`. */
module MicroTof {
  import opened Int32
  import opened Bits32

  // ---------------------------------------------------------------------
  // wrapExclusive: wrap `value` into the half-open range [min, max)
  // ---------------------------------------------------------------------

  /** The inputs for which every `int` operation of `wrapExclusive` stays in
      range (signed overflow is undefined in C++): `max - min`, then, unless
      the range is empty, `value - min`, the remainder, the correction by
      `range` and the final `+ min`. */
  predicate WrapExclusiveDefined(value: int32, min: int32, max: int32) {
    var range := max as int - min as int;
    InRange(range) &&
    (range != 0 ==>
      var d := value as int - min as int;
      InRange(d) && !(d == MIN && range == -1) &&
      var r := CRem(d, range);
      var corrected := if r < 0 then r + range else r;
      InRange(corrected) && InRange(corrected + min as int))
  }

  /** `wrapExclusive(value, min, max)`: the truncating `%` can leave a
      negative remainder, which the code lifts by one `range`. An empty
      range gives `min`. */
  function WrapExclusive(value: int32, min: int32, max: int32): (r: int32)
    requires WrapExclusiveDefined(value, min, max)
    ensures max == min ==> r == min
  {
    var range := max - min;
    if range == 0 then
      min
    else
      var result := Rem(value - min, range);
      var result := if result < 0 then result + range else result;
      result + min
  }

  /** For an ordered range nothing overflows once `max - min` and
      `value - min` are representable. */
  lemma WrapExclusiveDefinedWhenOrdered(value: int32, min: int32, max: int32)
    requires min < max
    requires InRange(max as int - min as int) && InRange(value as int - min as int)
    ensures WrapExclusiveDefined(value, min, max)
  {
    var range, d := max as int - min as int, value as int - min as int;
    var r := CRem(d, range);
    assert -range < r < range;
  }

  /** The correction of the negative remainder is exactly right: the result
      is `min` plus the Euclidean remainder of `value - min` by the range. */
  lemma WrapExclusiveIsEuclidean(value: int32, min: int32, max: int32)
    requires min < max && WrapExclusiveDefined(value, min, max)
    ensures WrapExclusive(value, min, max) as int
            == min as int + (value as int - min as int) % (max as int - min as int)
  {
    CRemEuclid(value as int - min as int, max as int - min as int);
  }

  /** The result lies in `[min, max)` and differs from `value` by a multiple
      of the range. */
  lemma WrapExclusiveInRange(value: int32, min: int32, max: int32)
    requires min < max && WrapExclusiveDefined(value, min, max)
    ensures min <= WrapExclusive(value, min, max) < max
    ensures (value as int - WrapExclusive(value, min, max) as int) % (max as int - min as int) == 0
  {
    var range, d := max as int - min as int, value as int - min as int;
    WrapExclusiveIsEuclidean(value, min, max);
    EuclidUnique(d - d % range, range, d / range, 0);
  }

  /** Values already in `[min, max)` come back unchanged. */
  lemma WrapExclusiveFixesInRange(value: int32, min: int32, max: int32)
    requires min <= value < max && InRange(max as int - min as int)
    ensures WrapExclusiveDefined(value, min, max)
    ensures WrapExclusive(value, min, max) == value
  {
    WrapExclusiveDefinedWhenOrdered(value, min, max);
    WrapExclusiveIsEuclidean(value, min, max);
    EuclidUnique(value as int - min as int, max as int - min as int, 0, value as int - min as int);
  }

  /** Wrapping twice is wrapping once. */
  lemma WrapExclusiveIdempotent(value: int32, min: int32, max: int32)
    requires min < max && WrapExclusiveDefined(value, min, max)
    ensures WrapExclusiveDefined(WrapExclusive(value, min, max), min, max)
    ensures WrapExclusive(WrapExclusive(value, min, max), min, max) == WrapExclusive(value, min, max)
  {
    WrapExclusiveInRange(value, min, max);
    WrapExclusiveFixesInRange(WrapExclusive(value, min, max), min, max);
  }

  // ---------------------------------------------------------------------
  // clampExclusive: clamp `value` to [min, max - 1]
  // ---------------------------------------------------------------------

  /** `clampExclusive(value, min, max)`. `max - 1` is evaluated only when
      `value > min` and `value >= max`; it overflows only for
      `max == INT32_MIN`, which is then excluded. */
  function ClampExclusive(value: int32, min: int32, max: int32): (r: int32)
    requires max as int > MIN || value <= min
    ensures min < max ==> min <= r < max
    ensures min <= value < max ==> r == value
    ensures min < max && value < min ==> r == min
    ensures min < max && value >= max ==> r == max - 1
  {
    if value <= min then min
    else if value >= max then max - 1
    else value
  }

  /** Clamping twice is clamping once. */
  lemma ClampExclusiveIdempotent(value: int32, min: int32, max: int32)
    requires min < max
    ensures ClampExclusive(ClampExclusive(value, min, max), min, max) == ClampExclusive(value, min, max)
  {
  }

  // ---------------------------------------------------------------------
  // randomHash32: the xorshift-multiply mixer
  // ---------------------------------------------------------------------

  /** `randomHash32(x)`: seven steps, each wrapping modulo 2^32. Every step
      can be undone, so `RandomHash32Inverse` recovers the input. */
  function RandomHash32(x: bv32): (h: bv32)
    ensures RandomHash32Inverse(h) == x
  {
    var a := XorShiftRight(x, 17);
    var b := MulWrap(a, 0xed5ad4bb);
    var c := XorShiftRight(b, 11);
    var d := MulWrap(c, 0xac4c1b51);
    var e := XorShiftRight(d, 15);
    var f := MulWrap(e, 0x31848bab);
    var g := XorShiftRight(f, 14);
    UnXorShift14Left(f);
    MulM3Left(e);
    UnXorShift15Left(d);
    MulM2Left(c);
    UnXorShift11Left(b);
    MulM1Left(a);
    UnXorShift17Left(x);
    g
  }

  /** The seven steps undone in reverse order. */
  function RandomHash32Inverse(y: bv32): bv32 {
    var y := UnXorShift14(y);
    var y := MulWrap(y, M3Inverse);
    var y := UnXorShift15(y);
    var y := MulWrap(y, M2Inverse);
    var y := UnXorShift11(y);
    var y := MulWrap(y, M1Inverse);
    var y := UnXorShift17(y);
    y
  }

  /** Every 32-bit value is the hash of its inverse. */
  lemma RandomHash32RightInverse(y: bv32)
    ensures RandomHash32(RandomHash32Inverse(y)) == y
  {
    var a := UnXorShift14(y);
    var b := MulWrap(a, M3Inverse);
    var c := UnXorShift15(b);
    var d := MulWrap(c, M2Inverse);
    var e := UnXorShift11(d);
    var f := MulWrap(e, M1Inverse);
    UnXorShift17Right(f);
    MulM1Right(e);
    UnXorShift11Right(d);
    MulM2Right(c);
    UnXorShift15Right(b);
    MulM3Right(a);
    UnXorShift14Right(y);
  }

  /** The hash is a permutation of the 32-bit values: distinct inputs never
      collide. */
  lemma RandomHash32Injective(x: bv32, y: bv32)
    ensures RandomHash32(x) == RandomHash32(y) <==> x == y
  {
    assert RandomHash32Inverse(RandomHash32(x)) == x;
    assert RandomHash32Inverse(RandomHash32(y)) == y;
  }

  /** Zero is a fixed point, and a few outputs pinned down bit for bit; each
      is evaluated one step at a time. */
  lemma RandomHash32Values()
    ensures RandomHash32(0) == 0
    ensures RandomHash32(1) == 0x042741d6
    ensures RandomHash32(42) == 0x9a675f94
    ensures RandomHash32(0xFFFF_FFFF) == 0x127f588f
  {
    assert RandomHash32(0) == 0 by {
      assert XorShiftRight(0x0, 17) == 0x0;
      assert MulWrap(0x0, 0xed5ad4bb) == 0x0;
      assert XorShiftRight(0x0, 11) == 0x0;
      assert MulWrap(0x0, 0xac4c1b51) == 0x0;
      assert XorShiftRight(0x0, 15) == 0x0;
      assert MulWrap(0x0, 0x31848bab) == 0x0;
      assert XorShiftRight(0x0, 14) == 0x0;
    }
    assert RandomHash32(1) == 0x042741d6 by {
      assert XorShiftRight(0x1, 17) == 0x1;
      assert MulWrap(0x1, 0xed5ad4bb) == 0xed5ad4bb;
      assert XorShiftRight(0xed5ad4bb, 11) == 0xed477fe1;
      assert MulWrap(0xed477fe1, 0xac4c1b51) == 0xc0e83131;
      assert XorShiftRight(0xc0e83131, 15) == 0xc0e9b0e1;
      assert MulWrap(0xc0e9b0e1, 0x31848bab) == 0x427514b;
      assert XorShiftRight(0x427514b, 14) == 0x042741d6;
    }
    assert RandomHash32(42) == 0x9a675f94 by {
      assert XorShiftRight(0x2a, 17) == 0x2a;
      assert MulWrap(0x2a, 0xed5ad4bb) == 0xf0e6e6ae;
      assert XorShiftRight(0xf0e6e6ae, 11) == 0xf0f8fa72;
      assert MulWrap(0xf0f8fa72, 0xac4c1b51) == 0x73094412;
      assert XorShiftRight(0x73094412, 15) == 0x7309a200;
      assert MulWrap(0x7309a200, 0x31848bab) == 0x9a653600;
      assert XorShiftRight(0x9a653600, 14) == 0x9a675f94;
    }
    assert RandomHash32(0xFFFF_FFFF) == 0x127f588f by {
      assert XorShiftRight(0xffffffff, 17) == 0xffff8000;
      assert MulWrap(0xffff8000, 0xed5ad4bb) == 0x95a28000;
      assert XorShiftRight(0x95a28000, 11) == 0x95b03450;
      assert MulWrap(0x95b03450, 0xac4c1b51) == 0x3a04fd50;
      assert XorShiftRight(0x3a04fd50, 15) == 0x3a048959;
      assert MulWrap(0x3a048959, 0x31848bab) == 0x127f1173;
      assert XorShiftRight(0x127f1173, 14) == 0x127f588f;
    }
  }
}
