/** How the copies and near-copies across the three headers relate: the three
    hash functions are one function, and the exclusive helpers of
    `src/MicroTof.h` are the inclusive ones of `src/MicroCommon.h` with the
    upper bound moved by one. */
module Agreement {
  import opened Int32
  import MicroTof
  import MicroCommon
  import MicroTofVariant

  /** `randomHash32` (both `MicroTof` headers) and `microRandomHash32` are the
      same function, so every property proved of one holds of all three. */
  lemma RandomHash32CopiesAgree(x: bv32)
    ensures MicroCommon.RandomHash32(x) == MicroTof.RandomHash32(x)
    ensures MicroTofVariant.RandomHash32(x) == MicroTof.RandomHash32(x)
  {
  }

  /** The hash of `src/MicroCommon.h` is a bijection on 32-bit values too:
      injective, and every value is the hash of its `RandomHash32Inverse`. */
  lemma MicroRandomHash32Bijective(x: bv32, y: bv32)
    ensures MicroCommon.RandomHash32(x) == MicroCommon.RandomHash32(y) <==> x == y
    ensures MicroCommon.RandomHash32(MicroTof.RandomHash32Inverse(y)) == y
  {
    RandomHash32CopiesAgree(x);
    RandomHash32CopiesAgree(y);
    MicroTof.RandomHash32Injective(x, y);
    RandomHash32CopiesAgree(MicroTof.RandomHash32Inverse(y));
    MicroTof.RandomHash32RightInverse(y);
  }

  /** `clampExclusive(v, min, max)` is `microClamp(v, min, max - 1)`. */
  lemma ClampExclusiveIsClampBelowMax(value: int32, min: int32, max: int32)
    requires max as int > MIN
    ensures MicroTof.ClampExclusive(value, min, max) == MicroCommon.Clamp(value, min, max - 1)
  {
  }

  /** For `min < max`, `microWrap(v, min, max)` is
      `wrapExclusive(v, min, max + 1)`, which is defined wherever `microWrap`
      is. */
  lemma WrapIsWrapExclusiveAboveMax(value: int32, min: int32, max: int32)
    requires min < max && max as int < MAX
    requires MicroCommon.WrapDefined(value, min, max)
    ensures MicroTof.WrapExclusiveDefined(value, min, max + 1)
    ensures MicroCommon.Wrap(value, min, max) == MicroTof.WrapExclusive(value, min, max + 1)
  {
    MicroTof.WrapExclusiveDefinedWhenOrdered(value, min, max + 1);
    MicroTof.WrapExclusiveIsEuclidean(value, min, max + 1);
  }

  /** The two wraps part ways on a reversed range: `microWrap` returns `min`
      whenever `max - min + 1 <= 1`, while `wrapExclusive` with a negative
      range keeps C's nonnegative remainder and returns `min` plus it. */
  lemma WrapDiffersFromWrapExclusiveBelowMin()
    ensures MicroCommon.WrapDefined(6, 5, 2) && MicroCommon.Wrap(6, 5, 2) == 5
    ensures MicroTof.WrapExclusiveDefined(6, 5, 3) && MicroTof.WrapExclusive(6, 5, 3) == 6
  {
  }
}
