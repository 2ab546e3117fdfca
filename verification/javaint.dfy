/** Java's integer operators, written out where they differ from Dafny's. */
module JavaInt {

  /** Range of Java's 32-bit `int`. */
  const MinInt: int := -0x8000_0000
  const MaxInt: int := 0x7fff_ffff

  type int32 = x: int | MinInt <= x <= MaxInt

  /** 32-bit two's-complement wrap-around of an exact result. */
  function Wrap(x: int): (r: int32)
    ensures MinInt <= x <= MaxInt ==> r == x
    ensures (r - x) % 0x1_0000_0000 == 0
  {
    var m := (x - MinInt) % 0x1_0000_0000;
    m + MinInt
  }

  /** `Math.abs` (on values where it cannot overflow). */
  function Abs(x: int): nat
  {
    if x < 0 then -x else x
  }

  /** Java's `/` on `int`: truncates toward zero (Dafny's `/` is Euclidean). */
  function Div(a: int, d: int): int
    requires d > 0
  {
    if a >= 0 then a / d else -((-a) / d)
  }

  /** Java's `%` on `int`: the remainder that goes with truncating division. */
  function Rem(a: int, d: int): int
    requires d > 0
  {
    a - d * Div(a, d)
  }

  /** Java's quotient and remainder recompose the dividend, and the remainder
      is smaller than the divisor and takes the dividend's sign. */
  lemma DivRem(a: int, d: int)
    requires d > 0
    ensures a == d * Div(a, d) + Rem(a, d)
    ensures -d < Rem(a, d) < d
    ensures a >= 0 ==> Rem(a, d) >= 0
    ensures a <= 0 ==> Rem(a, d) <= 0
  {
  }

  /** On non-negative operands Java's and Dafny's division agree. */
  lemma DivRemNonNegative(a: int, d: int)
    requires a >= 0 && d > 0
    ensures Div(a, d) == a / d && Rem(a, d) == a % d
  {
  }

  /** A row-major index q*d + r with 0 <= r < d splits back into (q, r). */
  lemma DivRemOfRowMajor(q: int, r: int, d: int)
    requires d > 0 && q >= 0 && 0 <= r < d
    ensures Div(q * d + r, d) == q && Rem(q * d + r, d) == r
  {
    var a := q * d + r;
    assert a >= 0;
    DivRemNonNegative(a, d);
    var q', r' := a / d, a % d;
    assert d * q' + r' == d * q + r;
    assert d * (q' - q) == r - r' by {
      assert d * (q' - q) == d * q' - d * q;
    }
    if q' > q {
      MulAtLeast(d, q' - q);
    } else if q' < q {
      MulAtLeast(d, q - q');
    }
  }

  lemma MulAtLeast(d: int, k: int)
    requires d > 0 && k >= 1
    ensures d * k >= d
  {
    assert d * k == d * (k - 1) + d;
    assert d * (k - 1) >= 0;
  }

  /** `Integer.compare`: -1, 0 or 1 as x is below, equal to or above y. */
  function Compare(x: int, y: int): (r: int)
    ensures r == -1 <==> x < y
    ensures r == 0 <==> x == y
    ensures r == 1 <==> x > y
  {
    if x < y then -1 else if x == y then 0 else 1
  }
}
