/** Signed 32-bit integers as the C++ headers use them (`int32_t`, and `int`
    on the 32-bit targets the library is built for), together with C's
    integer division and remainder, which truncate toward zero.

    Signed overflow is undefined behaviour in C and C++; the model turns every
    operation that could overflow into a proof obligation: arithmetic on the
    newtype `int32` must stay in range, and the functions below state as
    preconditions exactly the cases the C standard leaves undefined. */
module Int32 {

  const MIN: int := -0x8000_0000
  const MAX: int := 0x7FFF_FFFF

  newtype int32 = x: int | -0x8000_0000 <= x <= 0x7FFF_FFFF

  /** `x` is representable as an `int32_t`. */
  predicate InRange(x: int) {
    MIN <= x <= MAX
  }

  function Abs(x: int): nat {
    if x < 0 then -x else x
  }

  /** Products of a positive factor `m` move away from zero with `d`. */
  lemma MulBounds(d: int, m: int)
    requires m > 0
    ensures d >= 1 ==> d * m >= m
    ensures d <= -1 ==> d * m <= -m
    ensures d >= 0 ==> d * m >= 0
  {
    if d >= 1 {
      assert d * m == (d - 1) * m + m;
    } else if d <= -1 {
      assert d * m == (d + 1) * m - m;
    }
  }

  lemma MulNonneg(x: nat, y: nat)
    ensures x * y >= 0
  {
  }

  /** Euclidean division is unique: any decomposition `x == q * m + r` with
      `0 <= r < m` is the one Dafny's `/` and `%` compute. */
  lemma EuclidUnique(x: int, m: int, q: int, r: int)
    requires m > 0 && 0 <= r < m && x == q * m + r
    ensures x / m == q && x % m == r
  {
    var q0, r0 := x / m, x % m;
    assert x == q0 * m + r0;
    assert (q - q0) * m == r0 - r;
    MulBounds(q - q0, m);
  }

  /** C's `a % b` on mathematical integers: the remainder of the division
      truncated toward zero, whose sign follows the dividend. */
  function CRem(a: int, b: int): (r: int)
    requires b != 0
    ensures Abs(r) < Abs(b)
    ensures 0 <= a ==> 0 <= r
    ensures a <= 0 ==> r <= 0
  {
    if a >= 0 then a % Abs(b) else -((-a) % Abs(b))
  }

  /** C's `a / b` on mathematical integers: the quotient truncated toward zero. */
  function CDiv(a: int, b: int): int
    requires b != 0
  {
    if (a >= 0) == (b > 0) then Abs(a) / Abs(b) else -(Abs(a) / Abs(b))
  }

  /** Truncated division and remainder fit together as C requires
      (section 6.5.5 of ISO/IEC 9899): `(a / b) * b + a % b == a`. */
  lemma DivRemIdentity(a: int, b: int)
    requires b != 0
    ensures CDiv(a, b) * b + CRem(a, b) == a
  {
    var q, r := Abs(a) / Abs(b), Abs(a) % Abs(b);
    assert Abs(a) == q * Abs(b) + r;
    assert CRem(a, b) == if a >= 0 then r else -r;
    if b < 0 {
      assert b + Abs(b) == 0;
      assert (-q) * b == q * Abs(b);
      assert q * b == -(q * Abs(b));
    }
  }

  /** Against a positive modulus, the truncated remainder differs from the
      Euclidean one by exactly one modulus when the dividend is negative and
      not a multiple of it. */
  lemma CRemEuclid(a: int, m: int)
    requires m > 0
    ensures CRem(a, m) == (if a >= 0 || a % m == 0 then a % m else a % m - m)
  {
    if a < 0 {
      var q, r := (-a) / m, (-a) % m;
      assert -a == q * m + r;
      assert CRem(a, m) == -r;
      if r == 0 {
        assert (-q) * m == -(q * m);
        EuclidUnique(a, m, -q, 0);
      } else {
        assert (-q - 1) * m == -(q * m) - m;
        EuclidUnique(a, m, -q - 1, m - r);
      }
    }
  }

  /** The truncated quotient never exceeds the dividend in magnitude. */
  lemma DivMagnitude(a: int, b: int)
    requires b != 0
    ensures Abs(CDiv(a, b)) <= Abs(a)
    ensures Abs(b) >= 2 ==> Abs(CDiv(a, b)) <= Abs(a) / 2
  {
    var q, r := Abs(a) / Abs(b), Abs(a) % Abs(b);
    assert Abs(a) == q * Abs(b) + r;
    var k: nat := Abs(b) - 1;
    assert q * Abs(b) == q * k + q;
    MulNonneg(q, k);
    if Abs(b) >= 2 {
      var j: nat := Abs(b) - 2;
      assert q * Abs(b) == q * j + 2 * q;
      MulNonneg(q, j);
    }
  }

  /** Exact division: a multiple of `b` divides back to its factor. */
  lemma DivExact(k: int, b: int)
    requires b != 0
    ensures CDiv(k * b, b) == k
  {
    assert Abs(k * b) == Abs(k) * Abs(b);
    EuclidUnique(Abs(k * b), Abs(b), Abs(k), 0);
  }

  /** The truncated quotient of `a` by a positive `b` with `0 <= a <= k * b`
      lies in `[0, k]`; for `k * b <= a <= 0` it lies in `[k, 0]`. */
  lemma DivBetween(a: int, b: int, k: int)
    requires b > 0
    ensures 0 <= a <= k * b ==> 0 <= CDiv(a, b) <= k
    ensures k * b <= a <= 0 ==> k <= CDiv(a, b) <= 0
  {
    if 0 <= a <= k * b {
      DivBetweenNonneg(a, b, k);
    }
    if k * b <= a <= 0 {
      DivBetweenNonpos(a, b, k);
    }
  }

  lemma DivBetweenNonneg(a: int, b: int, k: int)
    requires b > 0 && 0 <= a <= k * b
    ensures 0 <= CDiv(a, b) <= k
  {
    FloorDivAtMost(a, b, k);
  }

  lemma DivBetweenNonpos(a: int, b: int, k: int)
    requires b > 0 && k * b <= a <= 0
    ensures k <= CDiv(a, b) <= 0
  {
    var n: nat := -a;
    assert CDiv(a, b) == -(n / b);
    var j := -k;
    assert j * b == -(k * b);
    FloorDivAtMost(n, b, j);
  }

  /** Flooring division of a natural number is monotone against a multiple
      of the divisor. */
  lemma FloorDivAtMost(a: nat, b: int, k: int)
    requires b > 0 && a <= k * b
    ensures 0 <= a / b <= k
  {
    var q, r := a / b, a % b;
    assert a == q * b + r;
    assert (q - k) * b <= r - 0 < b;
    MulBounds(q - k, b);
    MulBounds(q, b);
  }

  /** `a % b` at type `int32_t`: smaller than `b` in magnitude, with the
      sign of `a`. `INT32_MIN % -1` is undefined in C because the matching
      quotient does not fit. */
  function Rem(a: int32, b: int32): (r: int32)
    requires b != 0
    requires !(a as int == MIN && b == -1)
    ensures Abs(r as int) < Abs(b as int)
    ensures 0 <= a ==> 0 <= r
    ensures a <= 0 ==> r <= 0
  {
    CRem(a as int, b as int) as int32
  }

  /** `a / b` at type `int32_t`, defined unless the quotient overflows. It
      fits together with `Rem` as C requires: `(a / b) * b + a % b == a`,
      which with the bounds on `Rem` determines both results. */
  function Div(a: int32, b: int32): (q: int32)
    requires b != 0
    requires !(a as int == MIN && b == -1)
    ensures q as int * b as int + Rem(a, b) as int == a as int
  {
    DivMagnitude(a as int, b as int);
    DivRemIdentity(a as int, b as int);
    CDiv(a as int, b as int) as int32
  }
}
