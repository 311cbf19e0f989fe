# MicroTof helpers in Dafny

The three MicroTof headers (`src/MicroTof.h`, `src/MicroTOF.h` and
`src/MicroCommon.h`) hold small deterministic helpers for microcontroller
code:

- integer range helpers: a half-open wrap, an exclusive clamp, an inclusive
  wrap built on a Euclidean modulo, an inclusive clamp and a linear map;
- a 32-bit xorshift-multiply hash, which appears in three copies;
- the 32-bit FNV-1a hash of a NUL-terminated string;
- `ResizableArray<T>`, an owning buffer that grows by four slots whenever
  an `add` finds it full.

This project models them and proves what they promise.

The code is organised in the following modules:

- `Int32` (`int32.dfy`): signed 32-bit integers and C's truncating `/` and
  `%`. The headers' `int` and `int32_t` are taken as 32 bits. Every
  operation that C leaves undefined is a precondition: overflow,
  `INT32_MIN % -1`, division by zero. The wrap, modulo and map functions
  each have a `...Defined` predicate that states exactly where the header's
  computation is free of undefined behaviour. `ClampExclusive` states its
  single overflow case (`max - 1` at `max == INT32_MIN`) directly in its
  precondition. `Clamp` cannot overflow and has none.
- `Bits32` (`bits32.dfy`): the hash's steps on `bv32`, which wraps modulo
  2^32 as `uint32_t` does, and the inverse of every step.
- `MicroTof` (`micro_tof.dfy`): `wrapExclusive`, `clampExclusive` and
  `randomHash32` of `src/MicroTof.h`. The hash is proved to be a bijection
  on 32-bit values, through an explicit inverse.
- `MicroTofArray` (`resizable_array.dfy`): `ResizableArray<T>` as a class
  over a Dafny `array<T>`. Whether `malloc` succeeds during growth is the
  `allocOk` parameter of `Add`.
- `MicroCommon` (`micro_common.dfy`): the helpers of `src/MicroCommon.h` at
  `int32_t`, and `microHashFnv1a`. The hash's loop is a method proved
  against a recursive specification `Fnv1a`, applied to the bytes before
  the first NUL.
- `MicroTofVariant` (`micro_tof_variant.dfy`): `wrap` and `randomHash32` of
  `src/MicroTOF.h`. It also proves that `wrap` is `wrapExclusive`.
- `Agreement` (`agreement.dfy`): how the copies relate:
  - the three hashes are one function;
  - `clampExclusive(v, min, max)` is `microClamp(v, min, max - 1)`;
  - for `min < max` (and `max < INT32_MAX`, so that `max + 1` fits),
    `microWrap(v, min, max)` is `wrapExclusive(v, min, max + 1)`; on a
    range reversed by more than one the two differ.

## Model

| member | source | states |
|---|---|---|
| Int32.Rem | src/MicroTof.h:35 | C's `%` at `int32_t`: defined unless the divisor is 0 or the pair is `INT32_MIN % -1`; the result is smaller than the divisor in magnitude and has the dividend's sign |
| Int32.Div | src/MicroCommon.h:45 | C's `/` at `int32_t`, on the same domain; `(a / b) * b + a % b == a` |
| MicroTof.WrapExclusiveDefined | src/MicroTof.h:31-39 | the inputs on which none of `max - min`, `value - min`, the `%`, the `+= range` or the final `+ min` overflows |
| MicroTof.WrapExclusive | src/MicroTof.h:29-40 | an empty range (`max == min`) returns `min`; defined exactly where no `int` operation overflows |
| MicroTof.WrapExclusiveDefinedWhenOrdered | src/MicroTof.h:31-39 | for `min < max`, representable `max - min` and `value - min` are enough for the whole computation to stay in range |
| MicroTof.WrapExclusiveIsEuclidean | src/MicroTof.h:35-39 | lifting a negative truncated remainder by one range gives exactly `min + (value - min) mod (max - min)` |
| MicroTof.WrapExclusiveInRange | src/MicroTof.h:29-40 | for `min < max` the result lies in `[min, max)` and differs from `value` by a multiple of the range |
| MicroTof.WrapExclusiveFixesInRange | src/MicroTof.h:29-40 | when `max - min` fits in `int32_t`, a value already in `[min, max)` is defined and returned unchanged |
| MicroTof.WrapExclusiveIdempotent | src/MicroTof.h:29-40 | wrapping twice is defined and equals wrapping once |
| MicroTof.ClampExclusive | src/MicroTof.h:42-50 | for `min < max` the result lies in `[min, max - 1]`; values strictly inside are unchanged; below `min` gives `min`, at or above `max` gives `max - 1` |
| MicroTof.ClampExclusiveIdempotent | src/MicroTof.h:43-50 | for `min < max`, clamping twice equals clamping once (on a reversed range the header is not idempotent) |
| MicroTof.RandomHash32 | src/MicroTof.h:76-86 | the seven steps, each wrapping modulo 2^32; undoing them in reverse order (`RandomHash32Inverse`) recovers every input |
| MicroTof.RandomHash32RightInverse | src/MicroTof.h:76-86 | every 32-bit value is the hash of some input |
| MicroTof.RandomHash32Injective | src/MicroTof.h:76-86 | two inputs hash alike if and only if they are equal |
| MicroTof.RandomHash32Values | src/MicroTof.h:76-86 | 0 hashes to 0; the hashes of 1, 42 and `0xFFFFFFFF` are pinned bit for bit |
| MicroTofArray.CapacityFor | src/MicroTof.h:142-153 | the growth policy: the least `initial + 4k` that holds `n` elements |
| MicroTofArray.CapacityForNext | src/MicroTof.h:142-153 | one more element grows the capacity by 4 exactly when the array is full |
| MicroTofArray.ResizableArray.constructor | src/MicroTof.h:115-119 | a fresh buffer of `initialCapacity` slots (default 4), `count == 0`, no elements |
| MicroTofArray.ResizableArray.GetCount | src/MicroTof.h:127 | the number of elements added |
| MicroTofArray.ResizableArray.At | src/MicroTof.h:129-138 | reading slot `index < count` gives the `index`-th element |
| MicroTofArray.ResizableArray.SetAt | src/MicroTof.h:129-133 | writing through the returned reference replaces that element and no other |
| MicroTofArray.ResizableArray.Raw | src/MicroTof.h:158 | the buffer itself: `capacity` slots that begin with the elements |
| MicroTofArray.ResizableArray.Add | src/MicroTof.h:140-156 | with room: same buffer and capacity, item appended; full with successful allocation: fresh buffer, capacity + 4, old elements in order then the item; full with failed allocation: buffer, contents, count and capacity unchanged; `count <= capacity` is kept |
| MicroTofArray.GrowOnFifthAdd | src/MicroTof.h:112-156 | default capacity, then five adds: capacity 8, five elements in order, the original buffer replaced |
| MicroTofArray.AddAllFromEmpty | src/MicroTof.h:115-156 | for every initial capacity (0 included, where the first add already grows), after `n` successful adds from empty, slot `i` holds the `i`-th item added and the capacity follows the growth policy |
| MicroCommon.ModuloDefined | src/MicroCommon.h:10 | the inputs on which `microModulo` is defined: a nonzero modulus, not `INT32_MIN % -1`, and no overflow in `value % modulus + modulus` |
| MicroCommon.Modulo | src/MicroCommon.h:8-11 | for a positive modulus the result is Euclidean `value mod modulus` |
| MicroCommon.TruncatedModuloIsEuclidean | src/MicroCommon.h:10 | on unbounded integers, `(v % m + m) % m` with truncating `%` is `v mod m` for every `m > 0` |
| MicroCommon.ModuloInRange | src/MicroCommon.h:8-11 | for a positive modulus, wherever the header is defined, the result lies in `[0, modulus)` and is congruent to `value` |
| MicroCommon.ModuloOverflowsForWideModulus | src/MicroCommon.h:10 | `microModulo(0x7FFFFFFE, 0x7FFFFFFF)` overflows in the intermediate sum |
| MicroCommon.ModuloFixed | src/MicroCommon.h:8-11 | a modulo defined for every positive modulus, equal to Euclidean `value mod modulus` |
| MicroCommon.ModuloFixedAgrees | src/MicroCommon.h:8-11 | where `microModulo` is defined with a positive modulus, the corrected modulo gives the same value |
| MicroCommon.WrapDefined | src/MicroCommon.h:16-20 | the inputs on which `max - min + 1` fits and, for a range of more than one value, `value - min` fits and `microModulo` on it is defined |
| MicroCommon.Wrap | src/MicroCommon.h:13-21 | `max - min + 1 <= 1` returns `min`; otherwise `min + (value - min) mod (max - min + 1)` |
| MicroCommon.WrapMatchesHeader | src/MicroCommon.h:16-20 | on its domain, `Wrap` is `microModulo` defined at `value - min` and equal to `microModulo(value - min, max - min + 1) + min` |
| MicroCommon.WrapDefinedForNarrowRange | src/MicroCommon.h:16-20 | with at most 2^30 values in the range nothing overflows once `value - min` fits |
| MicroCommon.WrapInRange | src/MicroCommon.h:14-21 | for `max > min` the result lies in `[min, max]` and differs from `value` by a multiple of `max - min + 1` |
| MicroCommon.WrapFixesInRange | src/MicroCommon.h:14-21 | wherever the header is defined, values in `[min, max]` are returned unchanged |
| MicroCommon.WrapIdempotent | src/MicroCommon.h:14-21 | wherever the second wrap is defined, wrapping twice equals wrapping once |
| MicroCommon.WrapIdempotentForNarrowRange | src/MicroCommon.h:14-21 | for a range of at most 2^30 values the second wrap is always defined and changes nothing |
| MicroCommon.WrapShiftInvariant | src/MicroCommon.h:14-21 | for `max > min`, wherever both wraps are defined, shifting `value` by `max - min + 1` leaves the result unchanged |
| MicroCommon.Clamp | src/MicroCommon.h:23-32 | for `min <= max` the result lies in `[min, max]`; inside values unchanged; below gives `min`, above gives `max` |
| MicroCommon.ClampIdempotent | src/MicroCommon.h:24-32 | for `min <= max`, clamping twice equals clamping once (on a reversed range the header is not idempotent) |
| MicroCommon.MapDefined | src/MicroCommon.h:38-45 | the inputs on which `run`, `rise`, `delta`, `delta * rise`, the division and the final `+ out_min` are all defined at `int32_t` |
| MicroCommon.Map | src/MicroCommon.h:34-46 | an empty input range returns 0, not `out_min` |
| MicroCommon.MapEndpoints | src/MicroCommon.h:34-46 | `in_min` maps to `out_min` and `in_max` to `out_max` when `in_max != in_min` |
| MicroCommon.MapAtInMin | src/MicroCommon.h:38-45 | when `in_max != in_min` and the header is defined there, `in_min` maps to `out_min` |
| MicroCommon.MapAtInMax | src/MicroCommon.h:38-45 | when `in_max != in_min` and the header is defined there, `in_max` maps to `out_max`: the product divides back exactly |
| MicroCommon.MapWithinOutputRange | src/MicroCommon.h:34-46 | an input in an increasing input range maps between `out_min` and `out_max`, whichever way round those are |
| MicroCommon.RandomHash32 | src/MicroCommon.h:51-61 | `microRandomHash32`: the same seven wrapping steps; `Agreement.RandomHash32CopiesAgree` proves it equal to `MicroTof.RandomHash32` |
| MicroCommon.FnvStep | src/MicroCommon.h:89-90 | one FNV-1a round: xor in the zero-extended byte, then multiply by 16777619 modulo 2^32 |
| MicroCommon.Fnv1a | src/MicroCommon.h:86-91 | FNV-1a of a byte string: the offset basis 2166136261 for no bytes, otherwise one round on from the hash of all but the last byte |
| MicroCommon.CString | src/MicroCommon.h:84-87 | the string a `const char *` denotes: the bytes before the first NUL, none of them NUL |
| MicroCommon.CStringStopsAtNul | src/MicroCommon.h:87 | a NUL at position `j` ends the string at or before `j` |
| MicroCommon.HashFnv1a | src/MicroCommon.h:84-93 | the loop returns the FNV-1a hash (offset basis 2166136261, prime 16777619) of the bytes before the first NUL |
| MicroCommon.Fnv1aEmpty | src/MicroCommon.h:86-87 | the empty string hashes to 2166136261 |
| MicroCommon.CStringOfTerminated | src/MicroCommon.h:87-91 | a NUL-free string followed by a NUL and anything else denotes exactly that string |
| MicroCommon.CStringOfTerminatedExactly | src/MicroCommon.h:87-91 | a NUL-free string followed by its terminator denotes itself |
| MicroCommon.Fnv1aSnoc | src/MicroCommon.h:89-90 | one more byte is one more round: xor the byte in, multiply by 16777619 modulo 2^32 |
| MicroCommon.Fnv1aAppend | src/MicroCommon.h:87-91 | appending a nonzero byte `c` gives `(hash(s) ^ c) * 16777619 mod 2^32` |
| MicroCommon.Fnv1aKnownVectors | src/MicroCommon.h:84-93 | the published FNV-1a 32-bit vectors: `"a"` hashes to `0xe40c292c` and `"foobar"` to `0xbf9cf968` |
| MicroCommon.Fnv1aIgnoresAfterNul | src/MicroCommon.h:87-91 | the hash depends only on the bytes before the first NUL |
| MicroTofVariant.Wrap | src/MicroTOF.h:28-39 | an empty range (`max_exclusive == min`) returns `min` |
| MicroTofVariant.WrapAgreesWithWrapExclusive | src/MicroTOF.h:28-39 | `wrap` agrees with `wrapExclusive` on every input |
| MicroTofVariant.WrapInRange | src/MicroTOF.h:28-39 | for `min < max_exclusive` the result lies in `[min, max_exclusive)` |
| MicroTofVariant.WrapFixesInRange | src/MicroTOF.h:34-38 | when `max_exclusive - min` fits in `int32_t`, values already in `[min, max_exclusive)` are defined and returned unchanged |
| MicroTofVariant.WrapIdempotent | src/MicroTOF.h:34-38 | wrapping twice equals wrapping once |
| MicroTofVariant.RandomHash32 | src/MicroTOF.h:42-52 | the same seven wrapping steps; `Agreement.RandomHash32CopiesAgree` proves it equal to `MicroTof.RandomHash32` |
| MicroTofVariant.RandomHash32Zero | src/MicroTOF.h:41-52 | 0 hashes to 0 |
| Agreement.RandomHash32CopiesAgree | src/MicroCommon.h:51-61 | `microRandomHash32` and the `randomHash32` of `src/MicroTOF.h` equal the `randomHash32` of `src/MicroTof.h` |
| Agreement.MicroRandomHash32Bijective | src/MicroCommon.h:51-61 | `microRandomHash32` is a bijection too: two inputs hash alike if and only if they are equal, and every value is the hash of its `RandomHash32Inverse` |
| Agreement.ClampExclusiveIsClampBelowMax | src/MicroTof.h:43-50 | for every `max > INT32_MIN` (where `max - 1` fits), `clampExclusive(v, min, max)` is `microClamp(v, min, max - 1)` |
| Agreement.WrapIsWrapExclusiveAboveMax | src/MicroCommon.h:14-21 | for `min < max < INT32_MAX`, wherever `microWrap(v, min, max)` is defined, `wrapExclusive(v, min, max + 1)` is defined and equal to it |
| Agreement.WrapDiffersFromWrapExclusiveBelowMin | src/MicroCommon.h:16-18 | on the reversed range `min = 5, max = 2`, `microWrap(6, 5, 2)` is 5 but `wrapExclusive(6, 5, 3)` is 6: both defined, so the agreement needs an ordered range |

## Left out

- The floating-point functions are not modelled. These are `mapf`,
  `clampInclusivef`, `wrapExclusivef` (which calls `fmodf`), `rand01` and
  `microRandom01`, `interpolatedRandom01` and `microInterpolatedRandom01`,
  and `microClamp`/`microMap` taken at `float`. Dafny has no IEEE floats.
- `MICRO_TOF_COUNT_OF_ARRAY` is not modelled, because it is a compile-time
  `sizeof` expression.
- The `Arduino.h` and `cmath` includes are left out. So is the include
  guard `__MICRO_TOF_H__` that `src/MicroTof.h` and `src/MicroTOF.h` share;
  because of it, only one of those two headers takes effect in a given
  translation unit. Both are modelled as separate modules.
- The byte-level memory management of `ResizableArray` is replaced by
  Dafny's heap: `malloc`, `memcpy`, `free`, the destructor, and the missing
  copy constructor (an implicit copy would free the buffer twice). A raw
  pointer becoming stale is captured only as "the `array` reference changes
  exactly when growth succeeds".
- MicroTofArray.ResizableArray.Add: `item` is passed by value. The header
  takes `const T &item` and, on growth, frees the old buffer
  (src/MicroTof.h:150) before it reads `item` (line 155). So
  `arr.add(arr[i])` on a full array reads freed memory, which is undefined
  behaviour; the model instead promises the item is appended.
  - References from `operator[]`, like the pointer from `raw()`, go stale
    whenever an `add` grows the buffer. The model does not track them.
- MicroTofArray.ResizableArray: the element type is restricted to `T(0)`,
  types with a default value. New buffer slots start out holding that
  default, whereas `malloc` leaves them uninitialised. The slots past
  `count` are never read through the model's contracts.
- A failing `malloc` in the constructor is not modelled: the constructor
  always yields a buffer.
- Out-of-range `operator[]` is a precondition (`index < count`), not
  behaviour, because the source does not check it.
- The `const` overload of `operator[]` reads like the other one and is
  covered by `At`.
- `microClamp` and `microMap` are modelled only at `int32_t`. Other integer
  instantiations are not modelled: the unsigned wrap-around of
  `out_max - out_min` or `value - in_min` at an unsigned `T`, and the
  promotion to `int` and narrowing back for a `T` narrower than `int`.
- `count_` and `capacity_` are `size_t`; the model uses unbounded `nat`
  and does not model overflow of `capacity_ + 4`.
- `int` is taken as 32 bits. A 16-bit `int` on 8-bit AVR targets is not
  modelled.
- The string's bytes are read as `uint8_t`, so the model works on `bv8`.
  `char` signedness does not matter after that cast.
- MicroCommon.Wrap: defined only where the header's own computation is
  defined, so the domain keeps the intermediate overflow of `microModulo`.
  The value comes from the corrected `ModuloFixed`.
  `MicroCommon.WrapMatchesHeader` proves it equal to
  `microModulo(value - min, range) + min` on that domain.
- MicroCommon.WrapIdempotent: needs the second wrap to be defined. For a
  range of more than 2^30 values, `microModulo` can overflow even on an
  in-range value.
- A key/value lookup table ("Binder") is not in any of the three headers,
  so there is nothing to model.

## Findings

| source | as written | input that shows it | evidently intended | confidence | as-written member | corrected member |
|---|---|---|---|---|---|---|
| src/MicroCommon.h:10 | `(value % modulus + modulus) % modulus` adds the modulus whatever the sign of the remainder | `value = 0x7FFFFFFE`, `modulus = 0x7FFFFFFF`: the sum `0xFFFFFFFD` overflows `int32_t`, and signed overflow is undefined | Euclidean `value mod modulus` for every positive modulus | not executed | MicroCommon.ModuloOverflowsForWideModulus | MicroCommon.ModuloFixed |
