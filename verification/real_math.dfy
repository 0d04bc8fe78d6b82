/** The few numeric library functions the scheduler calls, on reals:
    `std::pow` with an integral exponent, `std::round`, the truncating
    conversion of a double to an integer, and `std::max`/`std::min` on ints. */
module RealMath {

  /** `std::pow(x, n)` for a non-negative integral exponent. */
  function Pow(x: real, n: nat): real
    decreases n
  {
    if n == 0 then 1.0 else x * Pow(x, n - 1)
  }

  /** A positive base gives a positive power. */
  lemma {:induction false} PowPositive(x: real, n: nat)
    requires x > 0.0
    ensures Pow(x, n) > 0.0
    decreases n
  {
    if n > 0 {
      PowPositive(x, n - 1);
      assert Pow(x, n) == x * Pow(x, n - 1);
    }
  }

  /** A non-negative base gives a non-negative power. */
  lemma {:induction false} PowNonNegative(x: real, n: nat)
    requires x >= 0.0
    ensures Pow(x, n) >= 0.0
    decreases n
  {
    if n > 0 {
      PowNonNegative(x, n - 1);
      assert Pow(x, n) == x * Pow(x, n - 1);
    }
  }

  /** Powers add up: x^(m+n) = x^m * x^n. */
  lemma {:induction false} PowAdd(x: real, m: nat, n: nat)
    ensures Pow(x, m + n) == Pow(x, m) * Pow(x, n)
    decreases m
  {
    if m > 0 {
      PowAdd(x, m - 1, n);
      assert Pow(x, m + n) == x * Pow(x, m - 1 + n);
    }
  }

  /** `static_cast<long>(x)`: truncation toward zero. */
  function Trunc(x: real): (r: int)
    ensures x >= 0.0 ==> r as real <= x < r as real + 1.0
    ensures x < 0.0 ==> r as real - 1.0 < x <= r as real
  {
    if x >= 0.0 then x.Floor else -((-x).Floor)
  }

  /** Truncating a value that is integral gives that integer back. */
  lemma TruncExact(x: real, k: int)
    requires x == k as real
    ensures Trunc(x) == k
  {
  }

  /** `std::round`: to the nearest integer, halfway cases away from zero. */
  function Round(x: real): (r: int)
    ensures x >= 0.0 ==> r >= 0 && r as real - 0.5 <= x < r as real + 0.5
    ensures x < 0.0 ==> r <= 0 && r as real - 0.5 < x <= r as real + 0.5
  {
    if x >= 0.0 then (x + 0.5).Floor else -((-x + 0.5).Floor)
  }

  function Max(a: int, b: int): int {
    if a >= b then a else b
  }

  function Min(a: int, b: int): int {
    if a <= b then a else b
  }

  function MaxR(a: real, b: real): real {
    if a >= b then a else b
  }

  function MinR(a: real, b: real): real {
    if a <= b then a else b
  }

  // ---------------------------------------------------------------------------
  // The halved product `a * T / 2` of the temperature rules

  /** `a * T / 2`: its sign, and whether it lies below or above `T`. */
  function HalfProduct(a: real, T: real): (r: real)
    ensures 0.0 <= a && 0.0 <= T ==> 0.0 <= r
    ensures a <= 2.0 && 0.0 <= T ==> r <= T
    ensures 2.0 < a && 0.0 < T ==> T < r
    ensures T == 0.0 ==> r == 0.0
  {
    HalfProductSign(a, T);
    HalfProductAtMost(a, T);
    HalfProductAbove(a, T);
    a * T / 2.0
  }

  /** Non-negative factors give a non-negative halved product. */
  lemma HalfProductSign(a: real, T: real)
    ensures 0.0 <= a && 0.0 <= T ==> 0.0 <= a * T / 2.0
  {
    if 0.0 <= a && 0.0 <= T {
      assert 0.0 <= a * T;
    }
  }

  /** A multiplier of at most 2 never raises a non-negative value. */
  lemma HalfProductAtMost(a: real, T: real)
    ensures a <= 2.0 && 0.0 <= T ==> a * T / 2.0 <= T
  {
    if a <= 2.0 && 0.0 <= T {
      assert a * T <= 2.0 * T;
    }
  }

  /** A multiplier above 2 strictly raises a positive value. */
  lemma HalfProductAbove(a: real, T: real)
    ensures 2.0 < a && 0.0 < T ==> T < a * T / 2.0
  {
    if 2.0 < a && 0.0 < T {
      assert 2.0 * T < a * T;
    }
  }
}
