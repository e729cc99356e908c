/** C++ integer and character semantics used by the filter's hash functions.
    Integers are unbounded in Dafny; the fixed-width behaviour of the source
    (wrap-around of `unsigned long long`, undefined signed overflow of
    `long long`, truncating `%`) is written out here once. */
module CInt {

  /** Unsigned long long arithmetic is arithmetic modulo 2^64. */
  const TWO_TO_64: int := 0x1_0000_0000_0000_0000
  const LONG_MIN: int := -0x8000_0000_0000_0000
  const LONG_MAX: int := 0x7FFF_FFFF_FFFF_FFFF

  /** A C `char` on a platform where plain char is signed. */
  type Char = c: int | -128 <= c < 128

  /** A `std::string`, as the sequence of its chars. */
  type CString = seq<Char>

  /** A value of type `unsigned long long`. */
  type ULong = x: int | 0 <= x < TWO_TO_64

  /** A value of type `long long`. Signed overflow is undefined behaviour,
      so every signed intermediate result is given this type and the verifier
      has to show that it stays in range. */
  type LongLong = x: int | LONG_MIN <= x <= LONG_MAX

  function Abs(x: int): (r: nat)
    ensures r == x || r == -x
  {
    if x < 0 then -x else x
  }

  /** The integral conversion of any integer value to `unsigned long long`:
      the unique value in [0, 2^64) congruent to x modulo 2^64. */
  function ToULong(x: int): ULong
  {
    x % TWO_TO_64
  }

  /** `a + b` and `a - b` on `unsigned long long` operands: the exact result
      when it is in range (`UnsignedWrapsOnce` gives the other case). */
  function AddU(a: ULong, b: ULong): (r: ULong)
    ensures a + b < TWO_TO_64 ==> r == a + b
  {
    ToULong(a + b)
  }

  function SubU(a: ULong, b: ULong): (r: ULong)
    ensures a >= b ==> r == a - b
  {
    ToULong(a - b)
  }

  /** An unsigned sum that overflows, or a difference that goes below zero,
      wraps around exactly once. */
  lemma UnsignedWrapsOnce(a: ULong, b: ULong)
    ensures a + b >= TWO_TO_64 ==> AddU(a, b) == a + b - TWO_TO_64
    ensures a < b ==> SubU(a, b) == a - b + TWO_TO_64
  {
    if a + b >= TWO_TO_64 {
      ModUnique(a + b, 1, a + b - TWO_TO_64, TWO_TO_64);
    }
    if a < b {
      ModUnique(a - b, -1, a - b + TWO_TO_64, TWO_TO_64);
    }
  }

  /** `a << k` on an `unsigned long long`, for a shift count below 64:
      the bits shifted out of the top are lost, and none is when the product
      `a * 2^k` is in range. */
  function ShiftLeftU(a: ULong, k: nat): (r: ULong)
    requires k < 64
    ensures a * Pow(2, k) < TWO_TO_64 ==> r == a * Pow(2, k)
  {
    PowPositive(2, k);
    MulNonNegative(a, Pow(2, k));
    ToULong(a * Pow(2, k))
  }

  function Pow(b: int, k: nat): int
  {
    if k == 0 then 1 else Pow(b, k - 1) * b
  }

  lemma {:induction false} PowPositive(b: int, k: nat)
    requires b > 0
    ensures Pow(b, k) > 0
  {
    if k > 0 {
      PowPositive(b, k - 1);
      MulAtLeast(Pow(b, k - 1), b);
    }
  }

  /** The multipliers of the shift counts used by DJB2 and SDBM. */
  lemma ShiftFactors()
    ensures Pow(2, 5) == 32 && Pow(2, 6) == 64 && Pow(2, 16) == 65536
  {
    assert Pow(2, 8) == 256;
    assert Pow(2, 9) == 512;
    assert Pow(2, 10) == 1024;
    assert Pow(2, 11) == 2048;
    assert Pow(2, 12) == 4096;
    assert Pow(2, 13) == 8192;
    assert Pow(2, 14) == 16384;
    assert Pow(2, 15) == 32768;
  }

  /** The conversion leaves a value that is already in range unchanged. */
  lemma ToULongOfInRange(x: int)
    requires 0 <= x < TWO_TO_64
    ensures ToULong(x) == x
  {
    ModUnique(x, 0, x, TWO_TO_64);
  }

  /** The converted value differs from the original by a multiple of 2^64. */
  lemma ToULongCongruent(x: int)
    ensures (x - ToULong(x)) % TWO_TO_64 == 0
  {
    var q := x / TWO_TO_64;
    assert x - ToULong(x) == TWO_TO_64 * q;
    ModUnique(x - ToULong(x), q, 0, TWO_TO_64);
  }

  /** Reducing an operand modulo 2^64 first does not change the wrapped sum. */
  lemma ToULongAdd(a: int, b: int)
    ensures ToULong(ToULong(a) + b) == ToULong(a + b)
    ensures ToULong(a + ToULong(b)) == ToULong(a + b)
  {
    ModAdd(a, b, TWO_TO_64);
    ModAdd(b, a, TWO_TO_64);
  }

  /** Hence the wrapped sum and difference of two converted values is the
      conversion of the exact sum and difference. */
  lemma AddUOfToULong(x: int, y: int)
    ensures AddU(ToULong(x), ToULong(y)) == ToULong(x + y)
    ensures SubU(ToULong(x), ToULong(y)) == ToULong(x - y)
  {
    ToULongAdd(x, ToULong(y));
    ToULongAdd(x, y);
    ToULongAdd(x, -(ToULong(y) as int));
    assert x - ToULong(y) == (x - y) + TWO_TO_64 * (y / TWO_TO_64);
    ModMultiple(x - y, y / TWO_TO_64, TWO_TO_64);
  }

  /** Nor does reducing the multiplicand before multiplying. */
  lemma ToULongMul(a: int, k: int)
    ensures ToULong(ToULong(a) * k) == ToULong(a * k)
  {
    var q, r := a / TWO_TO_64, ToULong(a);
    assert a == TWO_TO_64 * q + r;
    assert r * k == (a - TWO_TO_64 * q) * k == a * k - TWO_TO_64 * (q * k);
    ModMultiple(a * k, -(q * k), TWO_TO_64);
  }

  /** The C++ `a % b` on signed operands: the quotient truncates toward zero, so
      the remainder has the sign of the dividend and a smaller magnitude than
      the divisor (Dafny's own `%` is Euclidean and never negative).
      `LONG_MIN % -1` is undefined behaviour and is excluded. */
  function Rem(a: LongLong, b: LongLong): (r: LongLong)
    requires b != 0
    requires !(a == LONG_MIN && b == -1)
    ensures Abs(r) < Abs(b)
    ensures a >= 0 ==> 0 <= r
    ensures a <= 0 ==> r <= 0
  {
    var d := if b < 0 then -(b as int) else b as int;
    assert 0 < d <= -LONG_MIN;
    if a >= 0 then NatRem(a as int, d) else -(NatRem(-(a as int), d) as int)
  }

  function NatRem(n: nat, d: nat): (r: nat)
    requires d > 0
    ensures r < d
  {
    n % d
  }

  // Facts of modular arithmetic over the mathematical integers

  lemma MulNonNegative(x: int, y: int)
    requires 0 <= x && 0 <= y
    ensures 0 <= x * y
  {
  }

  /** Replacing a summand by its remainder does not change the remainder of the sum. */
  lemma ModAdd(a: int, b: int, m: int)
    requires m > 0
    ensures (a % m + b) % m == (a + b) % m
  {
    var q := a / m;
    assert a == m * q + a % m;
    ModMultiple(a % m + b, q, m);
  }

  lemma ModMultiple(x: int, q: int, m: int)
    requires m > 0
    ensures (x + m * q) % m == x % m
  {
    var r := x % m;
    var k := x / m;
    assert x + m * q == m * (k + q) + r;
    ModUnique(x + m * q, k + q, r, m);
  }

  lemma ModUnique(x: int, q: int, r: int, m: int)
    requires m > 0 && 0 <= r < m && x == m * q + r
    ensures x % m == r
  {
    var q', r' := x / m, x % m;
    assert x == m * q' + r';
    assert m * (q - q') == m * q - m * q';
    assert m * (q' - q) == m * q' - m * q;
    if q > q' {
      MulAtLeast(m, q - q');
    } else if q < q' {
      MulAtLeast(m, q' - q);
    }
  }

  lemma MulAtLeast(m: int, d: int)
    requires m > 0 && d >= 1
    ensures m * d >= m
  {
    MulNonNegative(m, d - 1);
    assert m * d == m * (d - 1) + m;
  }

}
