/** The helpers of `src/MicroCommon.h`: integer modulo, wrap, clamp and map
    (the templates taken at `int32_t`), the xorshift-multiply hash, and the
    FNV-1a hash of a NUL-terminated string. */
module MicroCommon {
  import opened Int32
  import opened Bits32

  // ---------------------------------------------------------------------
  // microModulo
  // ---------------------------------------------------------------------

  /** The inputs on which `(value % modulus + modulus) % modulus` is defined
      at `int32_t`: a nonzero modulus, not `INT32_MIN % -1`, and no overflow
      in the intermediate sum. (The outer `%` is then always defined.) */
  predicate ModuloDefined(value: int32, modulus: int32) {
    && modulus != 0
    && !(value as int == MIN && modulus == -1)
    && InRange(CRem(value as int, modulus as int) + modulus as int)
  }

  /** `microModulo(value, modulus)`: for a positive modulus, adding the
      modulus to the truncated remainder and taking the remainder again is
      Euclidean modulo. */
  function Modulo(value: int32, modulus: int32): (r: int32)
    requires ModuloDefined(value, modulus)
    ensures modulus > 0 ==> r as int == value as int % modulus as int
  {
    TruncatedModuloIsEuclidean(value as int, modulus as int);
    Rem(Rem(value, modulus) + modulus, modulus)
  }

  /** The formula of `microModulo` on mathematical integers: for a positive
      modulus the sum `value % modulus + modulus` is nonnegative, so the
      outer truncated remainder is Euclidean and equals `value mod modulus`. */
  lemma TruncatedModuloIsEuclidean(value: int, modulus: int)
    ensures modulus > 0 ==> CRem(CRem(value, modulus) + modulus, modulus) == value % modulus
  {
    if modulus > 0 {
      var m := modulus;
      CRemEuclid(value, m);
      var s := CRem(value, m) + m;
      EuclidUnique(s, m, if CRem(value, m) < 0 then 0 else 1, value % m);
    }
  }

  /** The result lies in `[0, modulus)` and is congruent to `value`. */
  lemma ModuloInRange(value: int32, modulus: int32)
    requires modulus > 0 && ModuloDefined(value, modulus)
    ensures 0 <= Modulo(value, modulus) < modulus
    ensures (value as int - Modulo(value, modulus) as int) % modulus as int == 0
  {
    var v, m := value as int, modulus as int;
    EuclidUnique(v - v % m, m, v / m, 0);
  }

  /** The intermediate sum overflows for a large modulus:
      `microModulo(0x7FFFFFFE, 0x7FFFFFFF)` has a positive modulus but computes
      `0x7FFFFFFE + 0x7FFFFFFF`. */
  lemma ModuloOverflowsForWideModulus()
    ensures !ModuloDefined(0x7FFF_FFFE, 0x7FFF_FFFF)
  {
    assert CRem(0x7FFF_FFFE, 0x7FFF_FFFF) == 0x7FFF_FFFE;
  }

  /** A Euclidean modulo that never overflows: one conditional correction of
      the truncated remainder instead of the unconditional sum. */
  function ModuloFixed(value: int32, modulus: int32): (r: int32)
    requires modulus > 0
    ensures r as int == value as int % modulus as int
  {
    CRemEuclid(value as int, modulus as int);
    var rem := Rem(value, modulus);
    if rem < 0 then rem + modulus else rem
  }

  /** Wherever `microModulo` is defined with a positive modulus, the fixed
      version agrees with it. */
  lemma ModuloFixedAgrees(value: int32, modulus: int32)
    requires modulus > 0 && ModuloDefined(value, modulus)
    ensures ModuloFixed(value, modulus) == Modulo(value, modulus)
  {
  }

  // ---------------------------------------------------------------------
  // microWrap: wrap into the inclusive range [min, max]
  // ---------------------------------------------------------------------

  /** The inputs on which `microWrap` is defined: `max - min + 1` fits and,
      when the range has more than one value, `value - min` fits and
      `microModulo` is defined on it. (The final `+ min` then fits.) */
  predicate WrapDefined(value: int32, min: int32, max: int32) {
    var range := max as int - min as int + 1;
    && InRange(range - 1)
    && InRange(range)
    && (range > 1 ==>
          && InRange(value as int - min as int)
          && ModuloDefined((value as int - min as int) as int32, range as int32))
  }

  /** `microWrap(value, min, max)`, on the inputs where the header's own
      computation is defined. The remainder is taken with `ModuloFixed`,
      which equals `microModulo` there (`ModuloFixedAgrees`). */
  function Wrap(value: int32, min: int32, max: int32): (r: int32)
    requires WrapDefined(value, min, max)
    ensures max <= min ==> r == min
    ensures max > min ==>
      r as int == min as int + (value as int - min as int) % (max as int - min as int + 1)
  {
    var range := max - min + 1;
    if range <= 1 then min
    else ModuloFixed(value - min, range) + min
  }

  /** On its domain `Wrap` is exactly the header's expression
      `microModulo(value - min, range) + min`. */
  lemma WrapMatchesHeader(value: int32, min: int32, max: int32)
    requires WrapDefined(value, min, max) && max > min
    ensures ModuloDefined(value - min, max - min + 1)
    ensures Wrap(value, min, max) == Modulo(value - min, max - min + 1) + min
  {
    ModuloFixedAgrees(value - min, max - min + 1);
  }

  /** With at most `2^30` values in the range nothing overflows once
      `value - min` fits. */
  lemma WrapDefinedForNarrowRange(value: int32, min: int32, max: int32)
    requires min < max && max as int - min as int < 0x4000_0000
    requires InRange(value as int - min as int)
    ensures WrapDefined(value, min, max)
  {
  }

  /** The result lies in `[min, max]` (inclusive) and differs from `value`
      by a multiple of `max - min + 1`. */
  lemma WrapInRange(value: int32, min: int32, max: int32)
    requires min < max && WrapDefined(value, min, max)
    ensures min <= Wrap(value, min, max) <= max
    ensures (value as int - Wrap(value, min, max) as int) % (max as int - min as int + 1) == 0
  {
    var d, range := value as int - min as int, max as int - min as int + 1;
    EuclidUnique(d - d % range, range, d / range, 0);
  }

  /** Values in `[min, max]` come back unchanged. */
  lemma WrapFixesInRange(value: int32, min: int32, max: int32)
    requires min <= value <= max && WrapDefined(value, min, max)
    ensures Wrap(value, min, max) == value
  {
    if min < max {
      var d, range := value as int - min as int, max as int - min as int + 1;
      EuclidUnique(d, range, 0, d);
    }
  }

  /** Wrapping twice is wrapping once, wherever the second wrap is defined
      (for a range of more than `2^30` values even an in-range value can
      overflow the intermediate sum of `microModulo`). */
  lemma WrapIdempotent(value: int32, min: int32, max: int32)
    requires min < max && WrapDefined(value, min, max)
    requires WrapDefined(Wrap(value, min, max), min, max)
    ensures Wrap(Wrap(value, min, max), min, max) == Wrap(value, min, max)
  {
    WrapInRange(value, min, max);
    WrapFixesInRange(Wrap(value, min, max), min, max);
  }

  /** For a range of at most `2^30` values the second wrap is always defined. */
  lemma WrapIdempotentForNarrowRange(value: int32, min: int32, max: int32)
    requires min < max && max as int - min as int < 0x4000_0000
    requires WrapDefined(value, min, max)
    ensures WrapDefined(Wrap(value, min, max), min, max)
    ensures Wrap(Wrap(value, min, max), min, max) == Wrap(value, min, max)
  {
    WrapInRange(value, min, max);
    WrapDefinedForNarrowRange(Wrap(value, min, max), min, max);
    WrapIdempotent(value, min, max);
  }

  /** Shifting `value` by one whole range does not change the result. */
  lemma WrapShiftInvariant(value: int32, min: int32, max: int32)
    requires min < max && WrapDefined(value, min, max)
    requires InRange(value as int + (max as int - min as int + 1))
    requires WrapDefined((value as int + (max as int - min as int + 1)) as int32, min, max)
    ensures Wrap((value as int + (max as int - min as int + 1)) as int32, min, max) == Wrap(value, min, max)
  {
    var d, range := value as int - min as int, max as int - min as int + 1;
    EuclidUnique(d + range, range, d / range + 1, d % range);
  }

  // ---------------------------------------------------------------------
  // microClamp: clamp into the inclusive range [min, max]
  // ---------------------------------------------------------------------

  /** `microClamp<int32_t>(value, min, max)`. */
  function Clamp(value: int32, min: int32, max: int32): (r: int32)
    ensures min <= max ==> min <= r <= max
    ensures min <= value <= max ==> r == value
    ensures min <= max && value < min ==> r == min
    ensures min <= max && value > max ==> r == max
  {
    if value <= min then min
    else if value >= max then max
    else value
  }

  /** Clamping twice is clamping once. */
  lemma ClampIdempotent(value: int32, min: int32, max: int32)
    requires min <= max
    ensures Clamp(Clamp(value, min, max), min, max) == Clamp(value, min, max)
  {
  }

  // ---------------------------------------------------------------------
  // microMap: linear map from [in_min, in_max] to [out_min, out_max]
  // ---------------------------------------------------------------------

  /** The inputs on which `microMap<int32_t>` is defined: every difference,
      the product `delta * rise`, the quotient and the final sum fit. */
  predicate MapDefined(value: int32, inMin: int32, inMax: int32, outMin: int32, outMax: int32) {
    var run := inMax as int - inMin as int;
    && InRange(run)
    && (run != 0 ==>
          var rise, delta := outMax as int - outMin as int, value as int - inMin as int;
          && InRange(rise) && InRange(delta) && InRange(delta * rise)
          && !(delta * rise == MIN && run == -1)
          && InRange(CDiv(delta * rise, run) + outMin as int))
  }

  /** `microMap<int32_t>(value, in_min, in_max, out_min, out_max)`: an empty
      input range gives 0, otherwise `(delta * rise) / run + out_min` with
      C's truncating division. */
  function Map(value: int32, inMin: int32, inMax: int32, outMin: int32, outMax: int32): (r: int32)
    requires MapDefined(value, inMin, inMax, outMin, outMax)
    ensures inMax == inMin ==> r == 0
  {
    var run := inMax - inMin;
    if run == 0 then
      0
    else
      var rise := outMax - outMin;
      var delta := value - inMin;
      Div(delta * rise, run) + outMin
  }

  /** The ends of the input range map to the ends of the output range. */
  lemma MapEndpoints(inMin: int32, inMax: int32, outMin: int32, outMax: int32)
    requires inMin != inMax
    requires MapDefined(inMin, inMin, inMax, outMin, outMax)
    requires MapDefined(inMax, inMin, inMax, outMin, outMax)
    ensures Map(inMin, inMin, inMax, outMin, outMax) == outMin
    ensures Map(inMax, inMin, inMax, outMin, outMax) == outMax
  {
    MapAtInMin(inMin, inMax, outMin, outMax);
    MapAtInMax(inMin, inMax, outMin, outMax);
  }

  lemma MapAtInMin(inMin: int32, inMax: int32, outMin: int32, outMax: int32)
    requires inMin != inMax
    requires MapDefined(inMin, inMin, inMax, outMin, outMax)
    ensures Map(inMin, inMin, inMax, outMin, outMax) == outMin
  {
    var run, rise := inMax as int - inMin as int, outMax as int - outMin as int;
    assert 0 * rise == 0;
    assert CDiv(0, run) == 0;
  }

  lemma MapAtInMax(inMin: int32, inMax: int32, outMin: int32, outMax: int32)
    requires inMin != inMax
    requires MapDefined(inMax, inMin, inMax, outMin, outMax)
    ensures Map(inMax, inMin, inMax, outMin, outMax) == outMax
  {
    var run, rise := inMax as int - inMin as int, outMax as int - outMin as int;
    DivExact(rise, run);
    assert run * rise == rise * run;
    assert Map(inMax, inMin, inMax, outMin, outMax) as int == CDiv(run * rise, run) + outMin as int;
  }

  /** An input inside an increasing input range maps into the output range
      (between `out_min` and `out_max`, whichever way round they are). */
  lemma MapWithinOutputRange(value: int32, inMin: int32, inMax: int32, outMin: int32, outMax: int32)
    requires inMin < inMax && inMin <= value <= inMax
    requires MapDefined(value, inMin, inMax, outMin, outMax)
    ensures outMin <= outMax ==> outMin <= Map(value, inMin, inMax, outMin, outMax) <= outMax
    ensures outMax <= outMin ==> outMax <= Map(value, inMin, inMax, outMin, outMax) <= outMin
  {
    var run, rise, delta := inMax as int - inMin as int, outMax as int - outMin as int, value as int - inMin as int;
    ProductBetween(delta, run, rise);
    DivBetween(delta * rise, run, rise);
  }

  /** For `0 <= delta <= run`, `delta * rise` lies between 0 and `rise * run`. */
  lemma ProductBetween(delta: int, run: int, rise: int)
    requires 0 <= delta <= run
    ensures rise >= 0 ==> 0 <= delta * rise <= rise * run
    ensures rise <= 0 ==> rise * run <= delta * rise <= 0
  {
    var gap: nat := run - delta;
    assert rise * run == delta * rise + gap * rise;
    if rise >= 0 {
      MulNonneg(delta, rise);
      MulNonneg(gap, rise);
    } else {
      MulNonneg(delta, -rise);
      MulNonneg(gap, -rise);
    }
  }

  // ---------------------------------------------------------------------
  // microRandomHash32
  // ---------------------------------------------------------------------

  /** `microRandomHash32(x)`: the same seven wrapping steps as
      `randomHash32` in `src/MicroTof.h`. */
  function RandomHash32(x: bv32): bv32 {
    var x := XorShiftRight(x, 17);
    var x := MulWrap(x, 0xed5ad4bb);
    var x := XorShiftRight(x, 11);
    var x := MulWrap(x, 0xac4c1b51);
    var x := XorShiftRight(x, 15);
    var x := MulWrap(x, 0x31848bab);
    var x := XorShiftRight(x, 14);
    x
  }

  // ---------------------------------------------------------------------
  // microHashFnv1a: 32-bit FNV-1a over a NUL-terminated byte string
  // ---------------------------------------------------------------------

  const FnvOffsetBasis: bv32 := 2166136261
  const FnvPrime: bv32 := 16777619

  /** One FNV-1a round: `hash ^= byte; hash *= 16777619`, with the byte
      zero-extended and the product wrapping modulo 2^32. */
  function FnvStep(hash: bv32, b: bv8): bv32 {
    MulWrap(hash ^ (b as bv32), FnvPrime)
  }

  /** The FNV-1a hash of a byte string, folding the bytes from the first to
      the last. */
  function Fnv1a(bytes: seq<bv8>): bv32 {
    if |bytes| == 0 then FnvOffsetBasis
    else FnvStep(Fnv1a(bytes[..|bytes| - 1]), bytes[|bytes| - 1])
  }

  /** The string a `const char *` denotes: the bytes before the first NUL
      (all of `s` when it holds none). */
  function CString(s: seq<bv8>): (str: seq<bv8>)
    ensures |str| <= |s| && str == s[..|str|]
    ensures forall i :: 0 <= i < |str| ==> str[i] != 0
    ensures |str| < |s| ==> s[|str|] == 0
  {
    if |s| == 0 || s[0] == 0 then [] else [s[0]] + CString(s[1..])
  }

  /** `microHashFnv1a(s)` for a buffer `s` that holds the terminating NUL:
      reads bytes and advances until the NUL, folding each into the hash. */
  method HashFnv1a(s: seq<bv8>) returns (hash: bv32)
    requires 0 in s
    ensures hash == Fnv1a(CString(s))
  {
    ghost var str := CString(s);
    ghost var nul :| 0 <= nul < |s| && s[nul] == 0;
    CStringStopsAtNul(s, nul);
    hash := FnvOffsetBasis;
    var i := 0;
    while s[i] != 0
      invariant i <= |str|
      invariant hash == Fnv1a(str[..i])
      decreases |str| - i
    {
      assert str[..i + 1][..i] == str[..i];
      hash := FnvStep(hash, s[i]);
      i := i + 1;
    }
    assert str[..i] == str;
  }

  /** A NUL at position `j` ends the string at `j` or before. */
  lemma {:induction false} CStringStopsAtNul(s: seq<bv8>, j: nat)
    requires j < |s| && s[j] == 0
    ensures |CString(s)| <= j
  {
    if s[0] != 0 {
      CStringStopsAtNul(s[1..], j - 1);
    }
  }

  /** The empty string hashes to the offset basis. */
  lemma Fnv1aEmpty(rest: seq<bv8>)
    ensures Fnv1a(CString([0] + rest)) == 2166136261
  {
  }

  /** The bytes of a NUL-free string followed by a NUL and anything at all
      denote exactly that string. */
  lemma {:induction false} CStringOfTerminated(str: seq<bv8>, rest: seq<bv8>)
    requires forall i :: 0 <= i < |str| ==> str[i] != 0
    ensures CString(str + [0] + rest) == str
  {
    if |str| > 0 {
      assert (str + [0] + rest)[1..] == str[1..] + [0] + rest;
      CStringOfTerminated(str[1..], rest);
    }
  }

  /** Appending a nonzero byte `c` to a string xors `c` into its hash and
      multiplies by the FNV prime modulo 2^32. */
  lemma {:induction false} Fnv1aAppend(str: seq<bv8>, c: bv8)
    requires forall i :: 0 <= i < |str| ==> str[i] != 0
    requires c != 0
    ensures Fnv1a(CString(str + [c] + [0])) == FnvStep(Fnv1a(CString(str + [0])), c)
  {
    CStringOfTerminatedExactly(str + [c]);
    CStringOfTerminatedExactly(str);
    Fnv1aSnoc(str, c);
  }

  /** A NUL-free string followed by its terminator denotes itself. */
  lemma CStringOfTerminatedExactly(str: seq<bv8>)
    requires forall i :: 0 <= i < |str| ==> str[i] != 0
    ensures CString(str + [0]) == str
  {
    CStringOfTerminated(str, []);
    assert str + [0] == str + [0] + [];
  }

  /** The hash of `bytes + [b]` is one round on from the hash of `bytes`. */
  lemma Fnv1aSnoc(bytes: seq<bv8>, b: bv8)
    ensures Fnv1a(bytes + [b]) == FnvStep(Fnv1a(bytes), b)
  {
    assert (bytes + [b])[..|bytes|] == bytes;
  }

  /** Two of the published FNV-1a 32-bit test vectors, as C strings:
      "a" and "foobar". */
  lemma Fnv1aKnownVectors()
    ensures Fnv1a(CString([0x61, 0])) == 0xe40c292c
    ensures Fnv1a(CString([0x66, 0x6f, 0x6f, 0x62, 0x61, 0x72, 0])) == 0xbf9cf968
  {
    CStringOfTerminatedExactly([0x61]);
    assert [0x61 as bv8] == [] + [0x61];
    Fnv1aSnoc([], 0x61);
    assert FnvStep(FnvOffsetBasis, 0x61) == 0xe40c292c;

    var foobar: seq<bv8> := [0x66, 0x6f, 0x6f, 0x62, 0x61, 0x72];
    CStringOfTerminatedExactly(foobar);
    assert foobar + [0] == [0x66, 0x6f, 0x6f, 0x62, 0x61, 0x72, 0];
    assert Fnv1a(foobar[..1]) == 0xe30c2799 by {
      Fnv1aSnoc([], 0x66);
      assert foobar[..1] == [] + [0x66];
      assert FnvStep(FnvOffsetBasis, 0x66) == 0xe30c2799;
    }
    assert Fnv1a(foobar[..2]) == 0x6222e842 by {
      Fnv1aSnoc(foobar[..1], 0x6f);
      assert foobar[..2] == foobar[..1] + [0x6f];
      assert FnvStep(0xe30c2799, 0x6f) == 0x6222e842;
    }
    assert Fnv1a(foobar[..3]) == 0xa9f37ed7 by {
      Fnv1aSnoc(foobar[..2], 0x6f);
      assert foobar[..3] == foobar[..2] + [0x6f];
      assert FnvStep(0x6222e842, 0x6f) == 0xa9f37ed7;
    }
    assert Fnv1a(foobar[..4]) == 0x3f5076ef by {
      Fnv1aSnoc(foobar[..3], 0x62);
      assert foobar[..4] == foobar[..3] + [0x62];
      assert FnvStep(0xa9f37ed7, 0x62) == 0x3f5076ef;
    }
    assert Fnv1a(foobar[..5]) == 0x39aaa18a by {
      Fnv1aSnoc(foobar[..4], 0x61);
      assert foobar[..5] == foobar[..4] + [0x61];
      assert FnvStep(0x3f5076ef, 0x61) == 0x39aaa18a;
    }
    Fnv1aSnoc(foobar[..5], 0x72);
    assert foobar == foobar[..5] + [0x72];
    assert FnvStep(0x39aaa18a, 0x72) == 0xbf9cf968;
  }

  /** The hash depends only on the bytes before the first NUL: whatever
      follows the terminator is never read. */
  lemma Fnv1aIgnoresAfterNul(str: seq<bv8>, rest1: seq<bv8>, rest2: seq<bv8>)
    requires forall i :: 0 <= i < |str| ==> str[i] != 0
    ensures Fnv1a(CString(str + [0] + rest1)) == Fnv1a(CString(str + [0] + rest2)) == Fnv1a(str)
  {
    CStringOfTerminated(str, rest1);
    CStringOfTerminated(str, rest2);
  }
}
