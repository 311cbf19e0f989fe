/** `src/MicroTOF.h`, a second header declaring the namespace `MicroTof`:
    its own copies of the half-open wrap (`wrap`) and of `randomHash32`. */
module MicroTofVariant {
  import opened Int32
  import opened Bits32
  import MicroTof

  /** `wrap(value, min, max_exclusive)`: the same steps as `wrapExclusive`,
      so it is defined (free of signed overflow) on the same inputs. */
  function Wrap(value: int32, min: int32, maxExclusive: int32): (r: int32)
    requires MicroTof.WrapExclusiveDefined(value, min, maxExclusive)
    ensures maxExclusive == min ==> r == min
  {
    var range := maxExclusive - min;
    if range == 0 then
      min
    else
      var result := Rem(value - min, range);
      var result := if result < 0 then result + range else result;
      result + min
  }

  /** `wrap` and `wrapExclusive` of `src/MicroTof.h` compute the same value
      on every input where either is defined. */
  lemma WrapAgreesWithWrapExclusive(value: int32, min: int32, maxExclusive: int32)
    requires MicroTof.WrapExclusiveDefined(value, min, maxExclusive)
    ensures Wrap(value, min, maxExclusive) == MicroTof.WrapExclusive(value, min, maxExclusive)
  {
  }

  /** The result lies in `[min, max_exclusive)`, congruent to `value`. */
  lemma WrapInRange(value: int32, min: int32, maxExclusive: int32)
    requires min < maxExclusive && MicroTof.WrapExclusiveDefined(value, min, maxExclusive)
    ensures min <= Wrap(value, min, maxExclusive) < maxExclusive
    ensures (value as int - Wrap(value, min, maxExclusive) as int) % (maxExclusive as int - min as int) == 0
  {
    WrapAgreesWithWrapExclusive(value, min, maxExclusive);
    MicroTof.WrapExclusiveInRange(value, min, maxExclusive);
  }

  /** Values already in `[min, max_exclusive)` come back unchanged. */
  lemma WrapFixesInRange(value: int32, min: int32, maxExclusive: int32)
    requires min <= value < maxExclusive && InRange(maxExclusive as int - min as int)
    ensures MicroTof.WrapExclusiveDefined(value, min, maxExclusive)
    ensures Wrap(value, min, maxExclusive) == value
  {
    MicroTof.WrapExclusiveFixesInRange(value, min, maxExclusive);
    WrapAgreesWithWrapExclusive(value, min, maxExclusive);
  }

  /** Wrapping twice is wrapping once. */
  lemma WrapIdempotent(value: int32, min: int32, maxExclusive: int32)
    requires min < maxExclusive && MicroTof.WrapExclusiveDefined(value, min, maxExclusive)
    ensures MicroTof.WrapExclusiveDefined(Wrap(value, min, maxExclusive), min, maxExclusive)
    ensures Wrap(Wrap(value, min, maxExclusive), min, maxExclusive) == Wrap(value, min, maxExclusive)
  {
    WrapInRange(value, min, maxExclusive);
    WrapFixesInRange(Wrap(value, min, maxExclusive), min, maxExclusive);
  }

  /** `randomHash32(x)` of this header. */
  function RandomHash32(x: bv32): bv32 {
    var x := XorShiftRight(x, 17);
    var x := MulWrap(x, 0xed5ad4bb);
    var x := XorShiftRight(x, 11);
    var x := MulWrap(x, 0xac4c1b51);
    var x := XorShiftRight(x, 15);
    var x := MulWrap(x, 0x31848bab);
    var x := XorShiftRight(x, 14);
    x
  }

  /** Zero hashes to zero: every step maps 0 to 0. */
  lemma RandomHash32Zero()
    ensures RandomHash32(0) == 0
  {
    assert XorShiftRight(0, 17) == 0;
    assert MulWrap(0, 0xed5ad4bb) == 0;
    assert XorShiftRight(0, 11) == 0;
    assert MulWrap(0, 0xac4c1b51) == 0;
    assert XorShiftRight(0, 15) == 0;
    assert MulWrap(0, 0x31848bab) == 0;
    assert XorShiftRight(0, 14) == 0;
  }
}
