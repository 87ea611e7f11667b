/**
 * The few floating-point computations of the index whose results are integers or
 * comparisons, stated exactly: `(int) Math.ceil(Math.sqrt(n))`,
 * `(int) Math.ceil((double) n / (double) d)` and the comparison of two quotients
 * of `int`s computed in `double`.
 */
module JavaMath {
  import opened Bytes

  /** The least `m` with `m * m >= n`. For an `int` argument `Math.sqrt` is correctly
      rounded and lands on an integer only at perfect squares, so the ceiling of the
      `double` square root is this value. */
  function CeilSqrt(n: nat): (m: nat)
    ensures m * m >= n
    ensures m == 0 || (m - 1) * (m - 1) < n
  {
    if n == 0 then 0
    else
      var p := CeilSqrt(n - 1);
      if p * p >= n then p else p + 1
  }

  /** `(int) Math.ceil(Math.sqrt(x))` for an `int` `x`: a negative argument gives NaN,
      which the cast turns into 0. */
  function CeilSqrtInt(x: int): (m: int)
    ensures x <= 0 ==> m == 0
    ensures x > 0 ==> m >= 1 && m * m >= x && (m - 1) * (m - 1) < x
  {
    if x < 0 then 0 else CeilSqrt(x)
  }

  lemma SquareMono(a: int, b: int)
    requires a >= b >= 0
    ensures a * a >= b * b
  {
    assert a * a - b * b == (a - b) * (a + b);
  }

  /** The ceiling of the square root of an `int` is an `int` itself. */
  lemma CeilSqrtFits(x: int)
    requires IsInt32(x)
    ensures 0 <= CeilSqrtInt(x) <= 46341
  {
    var m := CeilSqrtInt(x);
    if m > 46341 {
      SquareMono(m - 1, 46341);
    }
  }

  /** The ceiling of the rational `n / d`. */
  function CeilRatio(n: int, d: int): (r: int)
    requires d != 0
    ensures d > 0 ==> d * (r - 1) < n <= d * r
    ensures d < 0 ==> d * r <= n < d * (r - 1)
  {
    if d > 0 then -((-n) / d) else -(n / (-d))
  }

  /** For a positive divisor and a dividend that is not negative the ceiling lies between
      0 and the dividend. */
  lemma CeilRatioBound(n: int, d: int)
    requires d != 0
    ensures d > 0 && n >= 0 ==> 0 <= CeilRatio(n, d) <= n
  {
    var c := CeilRatio(n, d);
    if d > 0 && n >= 0 && c > n {
      MulAtLeast(d, c - 1);
    }
  }

  lemma MulAtLeast(d: int, x: int)
    requires d >= 1 && x >= 0
    ensures d * x >= x
  {
    assert d * x == x + (d - 1) * x;
  }

  /** The narrowing cast from `double` to `int` of a value that is an integer:
      out-of-range values saturate. */
  function SaturateInt(x: int): (r: int)
    ensures IsInt32(r)
    ensures IsInt32(x) ==> r == x
    ensures x >= 0x8000_0000 ==> r == 0x7FFF_FFFF
    ensures x < -0x8000_0000 ==> r == -0x8000_0000
  {
    if x >= 0x8000_0000 then 0x7FFF_FFFF else if x < -0x8000_0000 then -0x8000_0000 else x
  }

  /** `(int) Math.ceil((double) n / (double) d)` for `int`s `n` and `d`. A zero divisor
      gives an infinity (cast to the nearest bound) or, for `0 / 0`, NaN (cast to 0).
      Otherwise the quotient of two 32-bit values is rounded to within less than
      `1 / |d|` of its exact value, so its ceiling is the exact rational ceiling. */
  function CeilQuotient(n: int, d: int): (r: int)
    requires IsInt32(n) && IsInt32(d)
    ensures IsInt32(r)
    ensures d == 0 ==> r == (if n > 0 then 0x7FFF_FFFF else if n < 0 then -0x8000_0000 else 0)
    ensures d > 0 && n >= 0 ==> d * (r - 1) < n <= d * r
  {
    if d == 0 then (if n > 0 then 0x7FFF_FFFF else if n < 0 then -0x8000_0000 else 0)
    else
      var c := CeilRatio(n, d);
      CeilRatioBound(n, d);
      SaturateInt(c)
  }

  // ---------------------------------------------------------------------------
  // quotients of ints in double arithmetic

  /** The value of a `double` quotient of two integers: a real number, an infinity or NaN. */
  datatype Extended = NaN | PosInf | NegInf | Finite(v: real)

  /** `(double) n / (double) d`, without rounding (see `Greater`). */
  function Quotient(n: int, d: int): (q: Extended)
    ensures q.NaN? <==> n == 0 && d == 0
    ensures d != 0 ==> q == Finite(n as real / d as real)
  {
    if d != 0 then Finite(n as real / d as real)
    else if n > 0 then PosInf
    else if n < 0 then NegInf
    else NaN
  }

  /** The `>` comparison of two doubles: false whenever either is NaN. */
  predicate Greater(a: Extended, b: Extended)
  {
    match (a, b)
    case (NaN, _) => false
    case (_, NaN) => false
    case (PosInf, _) => !b.PosInf?
    case (NegInf, _) => false
    case (Finite(x), PosInf) => false
    case (Finite(x), NegInf) => true
    case (Finite(x), Finite(y)) => x > y
  }

  /** Apart from NaN, which compares false with everything, the values are strictly and
      totally ordered. */
  lemma GreaterOrder(a: Extended, b: Extended, c: Extended)
    ensures !Greater(a, a)
    ensures !a.NaN? && !b.NaN? ==> Greater(a, b) || Greater(b, a) || a == b
    ensures Greater(a, b) && Greater(b, c) ==> Greater(a, c)
    ensures Greater(a, b) ==> !a.NaN? && !b.NaN?
  {
  }
}
