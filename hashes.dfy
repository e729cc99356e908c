/** The three string hash functions of the filter: a polynomial rolling hash,
    DJB2 and SDBM. Each is a loop over the chars of the string that updates an
    accumulator; each loop is proved against a recursive specification that
    consumes the string one char at a time, in the same order. */
module Hashes {
  import opened CInt

  /** The char code of 'a': the polynomial hash maps 'a' to 1, 'b' to 2, ... */
  const LOWER_A: int := 97

  /** The largest magnitude of a factor `c - 'a' + 1` over all signed chars
      (reached at c == -128). */
  const MAX_DIGIT: int := 224

  /** The digit `c - 'a' + 1` a char contributes to the polynomial hash. */
  function Digit(c: Char): (r: int)
    ensures Abs(r) <= MAX_DIGIT
    ensures r >= 0 <==> c >= LOWER_A - 1
    ensures c == LOWER_A ==> r == 1
  {
    c as int - LOWER_A + 1
  }

  // ---------------------------------------------------------------------
  // Polynomial rolling hash

  /** Largest magnitude the running power `p_pow` can have: it starts at 1 and
      is afterwards a truncated remainder modulo m. */
  function PowerBound(m: LongLong): nat
  {
    if Abs(m) <= 1 then 1 else Abs(m) - 1
  }

  /** A sufficient condition for `polynomial_hash` to be defined on every
      string: m is not zero, and the bound `|p_pow| <= PowerBound(m)` rules
      out overflow of `(c - 'a' + 1) * p_pow` and of `p_pow * p`, whatever the
      chars. It is not necessary: with p = 1 the power stays 1 whatever m is. */
  predicate PolyParams(p: LongLong, m: LongLong)
  {
    m != 0 &&
    MAX_DIGIT * PowerBound(m) <= LONG_MAX &&
    Abs(p) * PowerBound(m) <= LONG_MAX
  }

  /** The divisor of `hash % m`: `hash` is unsigned, so m is converted to
      `unsigned long long` first. */
  function UnsignedModulus(m: LongLong): (r: ULong)
    requires m != 0
    ensures r > 0
    ensures m > 0 ==> r == m
  {
    ToULong(m)
  }

  /** The two accumulators of the loop: `hash` and `p_pow`. */
  datatype PolyState = PolyState(hash: ULong, power: LongLong)

  /** A product of two `long long` values; the precondition is the absence of
      signed overflow. */
  function MulLL(a: LongLong, b: LongLong): (r: LongLong)
    requires LONG_MIN <= a as int * b as int <= LONG_MAX
    ensures Abs(r) == Abs(a) * Abs(b)
  {
    AbsMul(a, b);
    a as int * b as int
  }

  /** The contribution `(c - 'a' + 1) * p_pow` of one char. */
  function Term(c: Char, power: LongLong, m: LongLong): (t: LongLong)
    requires Abs(power) <= PowerBound(m)
    requires MAX_DIGIT * PowerBound(m) <= LONG_MAX
    ensures Abs(t) <= MAX_DIGIT * PowerBound(m)
    ensures t < 0 <==> (Digit(c) < 0 && power > 0) || (Digit(c) > 0 && power < 0)
  {
    var digit: LongLong := Digit(c);
    MulBound(digit, power, MAX_DIGIT, PowerBound(m));
    MulLL(digit, power)
  }

  lemma MulBound(x: int, y: int, xMax: nat, yMax: nat)
    requires Abs(x) <= xMax && Abs(y) <= yMax
    ensures Abs(x * y) <= xMax * yMax
  {
    var ax, ay := Abs(x), Abs(y);
    AbsMul(x, y);
    MulMonotone(ax, xMax, ay);
    MulMonotone(ay, yMax, xMax);
    assert ay * xMax == xMax * ay && yMax * xMax == xMax * yMax;
  }

  lemma AbsMul(x: int, y: int)
    ensures Abs(x * y) == Abs(x) * Abs(y)
  {
    if x < 0 && y < 0 {
      assert x * y == (-x) * (-y);
      MulNonNegative(-x, -y);
    } else if x < 0 {
      assert x * y == -((-x) * y);
      MulNonNegative(-x, y);
    } else if y < 0 {
      assert x * y == -(x * (-y));
      MulNonNegative(x, -y);
    } else {
      MulNonNegative(x, y);
    }
  }

  lemma MulMonotone(a: nat, b: nat, k: nat)
    requires a <= b
    ensures a * k <= b * k
  {
    MulNonNegative(b - a, k);
    assert (b - a) * k == b * k - a * k;
  }

  /** `hash = (hash + (c - 'a' + 1) * p_pow) % m`: the signed term is
      converted to `unsigned long long` (a negative term wraps modulo 2^64)
      before the unsigned remainder is taken. */
  function HashUpdate(hash: ULong, c: Char, power: LongLong, m: LongLong): (h: ULong)
    requires m != 0 && MAX_DIGIT * PowerBound(m) <= LONG_MAX
    requires Abs(power) <= PowerBound(m)
    ensures h < UnsignedModulus(m)
  {
    AddU(hash, ToULong(Term(c, power, m))) % UnsignedModulus(m)
  }

  /** `p_pow = (p_pow * p) % m`, a signed product and a truncated remainder. */
  function PowerUpdate(power: LongLong, p: LongLong, m: LongLong): (power': LongLong)
    requires PolyParams(p, m)
    requires Abs(power) <= PowerBound(m)
    ensures Abs(power') <= PowerBound(m)
  {
    MulBound(power, p, PowerBound(m), Abs(p));
    Rem(MulLL(power, p), m)
  }

  /** One iteration of the loop of `polynomial_hash`. */
  function PolyStep(st: PolyState, c: Char, p: LongLong, m: LongLong): (st': PolyState)
    requires PolyParams(p, m)
    requires Abs(st.power) <= PowerBound(m)
    ensures st'.hash < UnsignedModulus(m)
    ensures Abs(st'.power) <= PowerBound(m)
  {
    PolyState(HashUpdate(st.hash, c, st.power, m), PowerUpdate(st.power, p, m))
  }

  /** The accumulators after the loop has consumed all of s. */
  function PolyRun(s: CString, p: LongLong, m: LongLong): (st: PolyState)
    requires PolyParams(p, m)
    ensures st.hash < UnsignedModulus(m)
    ensures Abs(st.power) <= PowerBound(m)
    decreases |s|
  {
    if s == [] then PolyState(0, 1)
    else PolyStep(PolyRun(s[..|s| - 1], p, m), s[|s| - 1], p, m)
  }

  /** `polynomial_hash(s, p, m)`: the result is always below the (unsigned)
      modulus, and the empty string hashes to 0. */
  function PolynomialHash(s: CString, p: LongLong, m: LongLong): (r: ULong)
    requires PolyParams(p, m)
    ensures r < UnsignedModulus(m)
    ensures m > 0 ==> r < m
    ensures s == [] ==> r == 0
  {
    PolyRun(s, p, m).hash
  }

  /** The loop of `polynomial_hash`, char by char. */
  method ComputePolynomialHash(s: CString, p: LongLong, m: LongLong) returns (hash: ULong)
    requires PolyParams(p, m)
    ensures hash == PolynomialHash(s, p, m)
  {
    hash := 0;
    var power: LongLong := 1;
    for i := 0 to |s|
      invariant PolyRun(s[..i], p, m) == PolyState(hash, power)
    {
      assert s[..i + 1][..i] == s[..i];
      hash := HashUpdate(hash, s[i], power, m);
      power := PowerUpdate(power, p, m);
    }
    assert s[..|s|] == s;
  }

  /** Appending a char to the string is one more iteration of the loop. */
  lemma PolyRunSnoc(s: CString, c: Char, p: LongLong, m: LongLong)
    requires PolyParams(p, m)
    ensures PolyRun(s + [c], p, m) == PolyStep(PolyRun(s, p, m), c, p, m)
  {
    assert (s + [c])[..|s|] == s;
  }

  /** The textbook polynomial `s[0]' + s[1]' * p + s[2]' * p^2 + ...` over the
      mathematical integers, where c' = c - 'a' + 1 and nothing is reduced. */
  function Polynomial(s: CString, p: int): (r: int)
    ensures s == [] ==> r == 0
    ensures |s| == 1 ==> r == Digit(s[0])
    decreases |s|
  {
    if s == [] then 0
    else Polynomial(s[..|s| - 1], p) + Digit(s[|s| - 1]) * Pow(p, |s| - 1)
  }

  /** No char is below '`', so no term of the polynomial is negative. */
  ghost predicate NoNegativeDigits(s: CString)
  {
    forall i | 0 <= i < |s| :: Digit(s[i]) >= 0
  }

  /** With a non-negative base and a positive modulus the running power is
      `p^i mod m`: `p_pow` stays in [0, m), except for its initial value 1. */
  lemma {:induction false} PolyRunPower(s: CString, p: LongLong, m: LongLong)
    requires PolyParams(p, m) && p >= 0 && m > 0
    ensures 0 <= PolyRun(s, p, m).power
    ensures PolyRun(s, p, m).power < m || (s == [] && PolyRun(s, p, m).power == 1)
    ensures PolyRun(s, p, m).power % m == Pow(p, |s|) % m
  {
    if s != [] {
      var init := s[..|s| - 1];
      PolyRunPower(init, p, m);
      var prev := PolyRun(init, p, m).power;
      PowerUpdateWithoutSign(prev, p, m);
      calc {
        PolyRun(s, p, m).power % m;
        ((prev * p) % m) % m;
        { ModAdd(prev * p, 0, m); }
        (prev * p) % m;
        { ModMul(prev, Pow(p, |init|), p, m); }
        (Pow(p, |init|) * p) % m;
        { assert Pow(p, |s|) == Pow(p, |init|) * p; }
        Pow(p, |s|) % m;
      }
    }
  }

  /** With a non-negative base and a positive modulus, and when no term can be
      negative, the hash is the textbook polynomial reduced modulo m, as the
      comment above `polynomial_hash` states. */
  lemma {:induction false} PolyRunIsPolynomial(s: CString, p: LongLong, m: LongLong)
    requires PolyParams(p, m) && p >= 0 && m > 0
    requires NoNegativeDigits(s)
    ensures PolyRun(s, p, m).hash == Polynomial(s, p) % m
  {
    if s != [] {
      var init, c := s[..|s| - 1], s[|s| - 1];
      assert NoNegativeDigits(init) by {
        forall i | 0 <= i < |init| ensures Digit(init[i]) >= 0 {
          assert init[i] == s[i];
        }
      }
      PolyRunIsPolynomial(init, p, m);
      PolyRunPower(init, p, m);
      assert Digit(c) >= 0;
      PolyRunSnoc(init, c, p, m);
      assert init + [c] == s;
      var prev := PolyRun(init, p, m);
      HashStepIsPolynomial(prev.hash, c, prev.power, Polynomial(init, p), Pow(p, |init|), m);
      assert Polynomial(s, p) == Polynomial(init, p) + Digit(c) * Pow(p, |init|);
    } else {
      ModUnique(0, 0, 0, m);
    }
  }

  /** One iteration keeps `hash` equal to the textbook polynomial modulo m,
      given a running power congruent to the exact power. */
  lemma HashStepIsPolynomial(hash: ULong, c: Char, power: LongLong, a: int, y: int, m: LongLong)
    requires 0 < m && MAX_DIGIT * PowerBound(m) <= LONG_MAX
    requires 0 <= power <= PowerBound(m) && power % m == y % m
    requires hash == a % m
    requires Digit(c) >= 0
    ensures HashUpdate(hash, c, power, m) == (a + Digit(c) * y) % m
  {
    assert hash < m;
    HashUpdateWithoutWrap(hash, c, power, m);
    CongruentStep(hash, a, power, y, Digit(c), m);
  }

  /** `(h + d * x) mod m == (a + d * y) mod m` when h is a modulo m and x and
      y are congruent. */
  lemma CongruentStep(h: int, a: int, x: int, y: int, d: int, m: int)
    requires m > 0 && h == a % m && x % m == y % m
    ensures (h + d * x) % m == (a + d * y) % m
  {
    calc {
      (h + d * x) % m;
      (a % m + d * x) % m;
      { ModAdd(a, d * x, m); }
      (a + d * x) % m;
      { ModAdd(d * x, a, m); }
      ((d * x) % m + a) % m;
      { ModMul(x, y, d, m); assert x * d == d * x && y * d == d * y; }
      ((d * y) % m + a) % m;
      { ModAdd(d * y, a, m); }
      (a + d * y) % m;
    }
  }

  /** A string with a char below '`' has a negative term, which wraps modulo
      2^64 before `% m`: for the one-char string "." (code 46, term -50) with
      the filter's parameters, the hash is not the textbook value. */
  lemma NegativeTermWraps()
    ensures PolynomialHash([46], 31, 1000000009) == 688856403
    ensures Polynomial([46], 31) % 1000000009 == 999999959
  {
    var wrapped := TWO_TO_64 - 50;
    assert wrapped % 1000000009 == 688856403;
    assert ToULong(-50) == wrapped by { ModUnique(-50, -1, wrapped, TWO_TO_64); }
    assert Term(46, 1, 1000000009) == -50;
    assert HashUpdate(0, 46, 1, 1000000009) == 688856403;
    assert PolyRun([46], 31, 1000000009) == PolyStep(PolyState(0, 1), 46, 31, 1000000009);
  }

  /** With a non-negative term and a hash below a positive m, the unsigned
      sum does not wrap. */
  lemma HashUpdateWithoutWrap(hash: ULong, c: Char, power: LongLong, m: LongLong)
    requires 0 < m && MAX_DIGIT * PowerBound(m) <= LONG_MAX
    requires hash < m && 0 <= power <= PowerBound(m)
    requires Digit(c) >= 0
    ensures HashUpdate(hash, c, power, m) == (hash + Digit(c) * power) % m
  {
    HashUpdateValue(hash, c, power, m);
    MulNonNegative(Digit(c), power);
    MulBound(Digit(c), power, MAX_DIGIT, PowerBound(m));
    ToULongOfInRange(hash + Digit(c) * power);
  }

  /** For a positive modulus the update of `hash` is the wrapped sum reduced
      modulo m. */
  lemma HashUpdateValue(hash: ULong, c: Char, power: LongLong, m: LongLong)
    requires 0 < m && MAX_DIGIT * PowerBound(m) <= LONG_MAX
    requires Abs(power) <= PowerBound(m)
    ensures HashUpdate(hash, c, power, m) == ToULong(hash + Digit(c) * power) % m
  {
    var t := Term(c, power, m);
    assert t == Digit(c) * power;
    var x := AddU(hash, ToULong(t));
    assert x == ToULong(hash + t) by {
      ToULongAdd(hash, t);
      ToULongOfInRange(hash);
    }
    assert HashUpdate(hash, c, power, m) == x % m;
  }

  /** With a non-negative power and base, the truncated remainder is the
      mathematical one. */
  lemma PowerUpdateWithoutSign(power: LongLong, p: LongLong, m: LongLong)
    requires PolyParams(p, m) && 0 < m && 0 <= p
    requires 0 <= power <= PowerBound(m)
    ensures PowerUpdate(power, p, m) == (power * p) % m
    ensures 0 <= PowerUpdate(power, p, m)
  {
    MulNonNegative(power, p);
  }

  /** Congruent factors give congruent products. */
  lemma ModMul(a: int, b: int, k: int, m: int)
    requires m > 0 && a % m == b % m
    ensures (a * k) % m == (b * k) % m
  {
    var qa, qb := a / m, b / m;
    assert a * k == m * (qa * k) + (a % m) * k;
    assert b * k == m * (qb * k) + (b % m) * k;
    ModMultiple((a % m) * k, qa * k, m);
    ModMultiple((b % m) * k, qb * k, m);
  }

  // ---------------------------------------------------------------------
  // DJB2

  /** DJB2 as its comment states it: start from 5381 and, per char, take
      `hash * 33 + c`, in `unsigned long long` arithmetic (the char converted
      to unsigned, so a negative char wraps). */
  function Djb2(s: CString): (r: ULong)
    ensures s == [] ==> r == 5381
    ensures |s| == 1 ==> r == 5381 * 33 + s[0] as int
    decreases |s|
  {
    if s == [] then 5381
    else ToULong(Djb2(s[..|s| - 1]) * 33 + s[|s| - 1])
  }

  lemma Djb2Snoc(s: CString, c: Char)
    ensures Djb2(s + [c]) == ToULong(Djb2(s) * 33 + c)
  {
    assert (s + [c])[..|s|] == s;
  }

  /** One iteration of the loop of `djb2`, `hash = ((hash << 5) + hash) + c`:
      it is `hash * 33 + c` modulo 2^64, as the comment on that line says. */
  function Djb2Round(h: ULong, c: Char): (r: ULong)
    ensures r == ToULong(h * 33 + c)
  {
    var shifted := ShiftLeftU(h, 5);
    assert shifted == ToULong(h * 32) by { ShiftFactors(); }
    var t1 := AddU(shifted, h);
    assert t1 == ToULong(h * 32 + h) by { ToULongOfInRange(h); AddUOfToULong(h * 32, h); }
    assert AddU(t1, ToULong(c)) == ToULong(h * 33 + c) by { AddUOfToULong(h * 32 + h, c); }
    AddU(t1, ToULong(c))
  }

  /** The loop of `djb2`. */
  method ComputeDjb2(s: CString) returns (hash: ULong)
    ensures hash == Djb2(s)
  {
    hash := 5381;
    for i := 0 to |s|
      invariant hash == Djb2(s[..i])
    {
      assert s[..i + 1][..i] == s[..i];
      hash := Djb2Round(hash, s[i]);
    }
    assert s[..|s|] == s;
  }

  /** The mathematical value `seed * k^n + s[0] * k^(n-1) + ... + s[n-1]` of a
      multiplicative string hash, with no reduction. */
  function Horner(seed: int, k: int, s: CString): int
    decreases |s|
  {
    if s == [] then seed else Horner(seed, k, s[..|s| - 1]) * k + s[|s| - 1]
  }

  /** Wrapping after every char is the same as wrapping once at the end:
      DJB2 is the exact polynomial value modulo 2^64. */
  lemma {:induction false} Djb2IsHorner(s: CString)
    ensures Djb2(s) == ToULong(Horner(5381, 33, s))
  {
    if s != [] {
      var init, c := s[..|s| - 1], s[|s| - 1];
      Djb2IsHorner(init);
      WrapHornerStep(Horner(5381, 33, init), 33, c);
    }
  }

  lemma WrapHornerStep(x: int, k: nat, c: Char)
    ensures ToULong(ToULong(x) * k + c) == ToULong(x * k + c)
  {
    ToULongAdd(ToULong(x) * k, c);
    ToULongMul(x, k);
    ToULongAdd(x * k, c);
  }

  // ---------------------------------------------------------------------
  // SDBM

  /** SDBM as its comment states it: start from 0 and, per char, take
      `hash * 65599 + c` in `unsigned long long` arithmetic. */
  function Sdbm(s: CString): (r: ULong)
    ensures s == [] ==> r == 0
    ensures |s| == 1 ==> r == ToULong(s[0])
    decreases |s|
  {
    if s == [] then 0
    else ToULong(Sdbm(s[..|s| - 1]) * 65599 + s[|s| - 1])
  }

  lemma SdbmSnoc(s: CString, c: Char)
    ensures Sdbm(s + [c]) == ToULong(Sdbm(s) * 65599 + c)
  {
    assert (s + [c])[..|s|] == s;
  }

  /** One iteration of the loop of `sdbm`,
      `hash = c + (hash << 6) + (hash << 16) - hash`: it is `hash * 65599 + c`
      modulo 2^64 (64 + 65536 - 1 == 65599), the formula of its comment. */
  function SdbmRound(h: ULong, c: Char): (r: ULong)
    ensures r == ToULong(h * 65599 + c)
  {
    var x6, x16 := h * 64, h * 65536;
    var t1 := AddU(ToULong(c), ShiftLeftU(h, 6));
    assert t1 == ToULong(c + x6) by { ShiftFactors(); AddUOfToULong(c, x6); }
    var t2 := AddU(t1, ShiftLeftU(h, 16));
    assert t2 == ToULong(c + x6 + x16) by { ShiftFactors(); AddUOfToULong(c + x6, x16); }
    var t3 := SubU(t2, h);
    assert t3 == ToULong(c + x6 + x16 - h) by { SubUOfToULong(c + x6 + x16, h); }
    assert c + x6 + x16 - h == h * 65599 + c;
    t3
  }

  /** The unsigned difference of a converted value and an unsigned value. */
  lemma SubUOfToULong(x: int, h: ULong)
    ensures SubU(ToULong(x), h) == ToULong(x - h)
  {
    ToULongOfInRange(h);
    AddUOfToULong(x, h);
  }

  /** The loop of `sdbm`. */
  method ComputeSdbm(s: CString) returns (hash: ULong)
    ensures hash == Sdbm(s)
  {
    hash := 0;
    for i := 0 to |s|
      invariant hash == Sdbm(s[..i])
    {
      assert s[..i + 1][..i] == s[..i];
      hash := SdbmRound(hash, s[i]);
    }
    assert s[..|s|] == s;
  }

  /** SDBM is the exact polynomial value modulo 2^64. */
  lemma {:induction false} SdbmIsHorner(s: CString)
    ensures Sdbm(s) == ToULong(Horner(0, 65599, s))
  {
    if s != [] {
      var init, c := s[..|s| - 1], s[|s| - 1];
      SdbmIsHorner(init);
      WrapHornerStep(Horner(0, 65599, init), 65599, c);
    }
  }
}
