/**
 * Two's-complement decoding of a register value (`getsigned` in modbusread.py).
 *
 * The value is first reduced modulo 2^width (Python's `%` with a positive
 * modulus, like Dafny's on `int`, is never negative); the upper half of that
 * range is then mapped onto the negative numbers.
 */
module SignConverter {

  /** 2 raised to the power n. */
  function Pow2(n: nat): (r: int)
    ensures r >= 1
  {
    if n == 0 then 1 else 2 * Pow2(n - 1)
  }

  /** The bit width used for Modbus registers, the default of `getsigned`. */
  const RegisterWidth: nat := 16

  /**
   * Decodes `x` as a `width`-bit two's-complement number.
   * With width 0 the modulus is 1, the remainder is 0, and Python compares
   * it with 2**-1 == 0.5, so the result is 0: the `width >= 1` guard says that.
   */
  function GetSigned(x: int, width: nat): (r: int)
    ensures width >= 1 ==> -Pow2(width - 1) <= r < Pow2(width - 1)
    ensures width == 0 ==> r == 0
  {
    var unsigned := x % Pow2(width);
    if width >= 1 && unsigned >= Pow2(width - 1) then unsigned - Pow2(width) else unsigned
  }

  /** Re-encodes a signed value as the unsigned `width`-bit pattern it stands for. */
  function ToUnsigned(s: int, width: nat): (u: int)
    ensures 0 <= u < Pow2(width)
  {
    s % Pow2(width)
  }

  /** The range of `width`-bit two's-complement numbers. */
  predicate InSignedRange(r: int, width: nat)
    requires width >= 1
  {
    -Pow2(width - 1) <= r < Pow2(width - 1)
  }

  /** a and b are congruent modulo m. */
  predicate Congruent(a: int, b: int, m: int)
    requires m >= 1
  {
    (a - b) % m == 0
  }

  // ---------------------------------------------------------------------
  // Arithmetic helpers about Euclidean division

  /** Division with remainder is unique. */
  lemma ModUnique(x: int, m: int, q: int, r: int)
    requires m >= 1 && 0 <= r < m && x == q * m + r
    ensures x % m == r && x / m == q
  {
    var q', r' := x / m, x % m;
    assert x == q' * m + r';
    assert (q - q') * m == r' - r;
    if q > q' {
      assert (q - q') * m >= 1 * m by { MulMonotone(q - q', 1, m); }
    } else if q < q' {
      assert (q' - q) * m >= 1 * m by { MulMonotone(q' - q, 1, m); }
    }
  }

  lemma MulMonotone(a: int, b: int, m: int)
    requires a >= b && m >= 0
    ensures a * m >= b * m
  {
  }

  /** a == b (mod m) exactly when a - b is a multiple of m. */
  lemma CongruentMultiple(a: int, b: int, m: int)
    requires m >= 1 && Congruent(a, b, m)
    ensures a - b == ((a - b) / m) * m
  {
  }

  /** Congruence modulo m is symmetric. */
  lemma CongruentSymmetric(a: int, b: int, m: int)
    requires m >= 1 && Congruent(a, b, m)
    ensures Congruent(b, a, m)
  {
    var q := (a - b) / m;
    CongruentMultiple(a, b, m);
    assert b - a == (-q) * m;
    ModUnique(b - a, m, -q, 0);
  }

  /** Congruence modulo m is transitive. */
  lemma CongruentTransitive(a: int, b: int, c: int, m: int)
    requires m >= 1 && Congruent(a, b, m) && Congruent(b, c, m)
    ensures Congruent(a, c, m)
  {
    var q1, q2 := (a - b) / m, (b - c) / m;
    CongruentMultiple(a, b, m);
    CongruentMultiple(b, c, m);
    assert a - c == (q1 + q2) * m;
    ModUnique(a - c, m, q1 + q2, 0);
  }

  /** Two values in a window narrower than m that are congruent modulo m are equal. */
  lemma CongruentInWindow(a: int, b: int, m: int)
    requires m >= 1 && Congruent(a, b, m) && -m < a - b < m
    ensures a == b
  {
    var q := (a - b) / m;
    assert a - b == q * m;
    if q >= 1 {
      MulMonotone(q, 1, m);
    } else if q <= -1 {
      MulMonotone(-1, q, m);
    }
  }

  // ---------------------------------------------------------------------
  // Properties of GetSigned

  /** For width >= 1 the result is a width-bit two's-complement number. */
  lemma GetSignedRange(x: int, width: nat)
    requires width >= 1
    ensures -Pow2(width - 1) <= GetSigned(x, width) < Pow2(width - 1)
  {
    assert Pow2(width) == 2 * Pow2(width - 1);
  }

  /** With width 0 every input decodes to 0. */
  lemma GetSignedWidthZero(x: int)
    ensures GetSigned(x, 0) == 0
  {
  }

  /** Adding a multiple of m keeps a value congruent. */
  lemma CongruentShift(x: int, m: int, k: int)
    requires m >= 1
    ensures Congruent(x + k * m, x, m)
  {
    ModUnique(k * m, m, k, 0);
  }

  /** x % m is congruent to x. */
  lemma ModCongruent(x: int, m: int)
    requires m >= 1
    ensures Congruent(x % m, x, m)
  {
    var q := x / m;
    assert x % m == x + (-q) * m;
    CongruentShift(x, m, -q);
  }

  /** The result is congruent to the input modulo 2^width. */
  lemma GetSignedCongruent(x: int, width: nat)
    ensures Congruent(GetSigned(x, width), x, Pow2(width))
  {
    var m := Pow2(width);
    var u := x % m;
    var g := GetSigned(x, width);
    ModCongruent(x, m);
    if g != u {
      assert g == u + (-1) * m;
      CongruentShift(u, m, -1);
      CongruentTransitive(g, u, x, m);
    }
  }

  /**
   * GetSigned(x, width) is the only value in the signed range congruent to x:
   * it agrees with every other definition of two's-complement decoding.
   */
  lemma GetSignedUnique(x: int, width: nat, y: int)
    requires width >= 1 && InSignedRange(y, width) && Congruent(y, x, Pow2(width))
    ensures GetSigned(x, width) == y
  {
    var m := Pow2(width);
    GetSignedRange(x, width);
    GetSignedCongruent(x, width);
    CongruentSymmetric(y, x, m);
    CongruentTransitive(GetSigned(x, width), x, y, m);
    CongruentInWindow(GetSigned(x, width), y, m);
  }

  /** Values already in the signed range are left unchanged. */
  lemma GetSignedFixedPoint(y: int, width: nat)
    requires width >= 1 && InSignedRange(y, width)
    ensures GetSigned(y, width) == y
  {
    assert y - y == 0 * Pow2(width);
    GetSignedUnique(y, width, y);
  }

  /** Decoding twice is decoding once. */
  lemma GetSignedIdempotent(x: int, width: nat)
    ensures GetSigned(GetSigned(x, width), width) == GetSigned(x, width)
  {
    if width >= 1 {
      GetSignedRange(x, width);
      GetSignedFixedPoint(GetSigned(x, width), width);
    }
  }

  /** Reducing modulo 2^width first changes nothing. */
  lemma GetSignedRenormalised(x: int, width: nat)
    ensures GetSigned(x % Pow2(width), width) == GetSigned(x, width)
  {
    var m := Pow2(width);
    ModUnique(x % m, m, 0, x % m);
  }

  /** Nonnegative inputs below half the modulus are returned as they are. */
  lemma GetSignedLowHalf(x: int, width: nat)
    requires width >= 1 && 0 <= x < Pow2(width - 1)
    ensures GetSigned(x, width) == x
  {
    ModUnique(x, Pow2(width), 0, x);
  }

  /** Inputs in the upper half of [0, 2^width) become x - 2^width. */
  lemma GetSignedHighHalf(x: int, width: nat)
    requires width >= 1 && Pow2(width - 1) <= x < Pow2(width)
    ensures GetSigned(x, width) == x - Pow2(width)
  {
    ModUnique(x, Pow2(width), 0, x);
  }

  /** Re-encoding a decoded value gives back the input modulo 2^width. */
  lemma ToUnsignedGetSigned(x: int, width: nat)
    ensures ToUnsigned(GetSigned(x, width), width) == x % Pow2(width)
  {
    var m := Pow2(width);
    var g := GetSigned(x, width);
    GetSignedCongruent(x, width);
    ModCongruent(x, m);
    ModCongruent(g, m);
    CongruentTransitive(g % m, g, x, m);
    CongruentSymmetric(x % m, x, m);
    CongruentTransitive(g % m, x, x % m, m);
    CongruentInWindow(g % m, x % m, m);
  }

  /** Round trip for register values: an unsigned word survives decode then re-encode. */
  lemma RegisterRoundTrip(u: int, width: nat)
    requires 0 <= u < Pow2(width)
    ensures ToUnsigned(GetSigned(u, width), width) == u
  {
    ToUnsignedGetSigned(u, width);
    ModUnique(u, Pow2(width), 0, u);
  }

  /** Round trip for signed values: a value in range survives re-encode then decode. */
  lemma SignedRoundTrip(s: int, width: nat)
    requires width >= 1 && InSignedRange(s, width)
    ensures GetSigned(ToUnsigned(s, width), width) == s
  {
    GetSignedRenormalised(s, width);
    GetSignedFixedPoint(s, width);
  }

  /** 2^16 is 65536. */
  lemma Pow2Sixteen()
    ensures Pow2(RegisterWidth) == 65536 && Pow2(RegisterWidth - 1) == 32768
  {
    assert Pow2(4) == 16;
    assert Pow2(8) == 256;
    assert Pow2(12) == 4096;
  }

  /** The 16-bit decoder's range, its idempotence under re-normalisation and sample values. */
  lemma SixteenBitFacts(x: int)
    ensures -32768 <= GetSigned(x, RegisterWidth) <= 32767
    ensures GetSigned(GetSigned(x, RegisterWidth) % 65536, RegisterWidth) == GetSigned(x, RegisterWidth)
    ensures GetSigned(0, RegisterWidth) == 0 && GetSigned(100, RegisterWidth) == 100
    ensures GetSigned(32768, RegisterWidth) == -32768 && GetSigned(65535, RegisterWidth) == -1
  {
    Pow2Sixteen();
    GetSignedRange(x, RegisterWidth);
    GetSignedRenormalised(GetSigned(x, RegisterWidth), RegisterWidth);
    GetSignedIdempotent(x, RegisterWidth);
    GetSignedLowHalf(0, RegisterWidth);
    GetSignedLowHalf(100, RegisterWidth);
    GetSignedHighHalf(32768, RegisterWidth);
    GetSignedHighHalf(65535, RegisterWidth);
  }
}
