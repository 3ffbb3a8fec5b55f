/**
 * Python's numeric rounding primitives over exact reals:
 * `round(x)` and `round(x, n)` (round half to even) and `int(x)` (truncation toward zero).
 */
module Rounding {

  /** 10^n as an integer. */
  function Pow10(n: nat): (p: nat)
    ensures p >= 1
  {
    if n == 0 then 1 else 10 * Pow10(n - 1)
  }

  /** x measured in units of 10^-n. */
  function Scale(x: real, n: nat): real
  {
    x * Pow10(n) as real
  }

  /** The independent definition of round-half-to-even: k is within one half of x, and on a tie k is even. */
  ghost predicate IsHalfEvenRounding(x: real, k: int)
  {
    var d := k as real - x;
    (-0.5 < d < 0.5) || ((d == 0.5 || d == -0.5) && k % 2 == 0)
  }

  /** y is x rounded half-to-even at 10^-n: y is a whole number of units 10^-n, and that number is x's rounding. */
  ghost predicate IsRoundingTo(x: real, n: nat, y: real)
  {
    var m := Scale(y, n);
    m == m.Floor as real && IsHalfEvenRounding(Scale(x, n), m.Floor)
  }

  /** Python's `round(x)`: the nearest integer, ties going to the even neighbour. */
  function RoundInt(x: real): (k: int)
    ensures IsHalfEvenRounding(x, k)
  {
    var f := x.Floor;
    var frac := x - f as real;
    if frac < 0.5 then f
    else if frac > 0.5 then f + 1
    else if f % 2 == 0 then f
    else f + 1
  }

  /** Python's `round(x, n)`: the nearest multiple of 10^-n, ties going to the even multiple. */
  function RoundTo(x: real, n: nat): (y: real)
    ensures IsRoundingTo(x, n, y)
  {
    var k := RoundInt(Scale(x, n));
    var p := Pow10(n) as real;
    DivMul(k as real, p);
    assert Scale(k as real / p, n) == k as real;
    k as real / p
  }

  /** Python's `int(x)` on a float: truncation toward zero. */
  function Trunc(x: real): (k: int)
    ensures 0.0 <= x ==> 0 <= k && k as real <= x < k as real + 1.0
    ensures x < 0.0 ==> k <= 0 && k as real - 1.0 < x <= k as real
  {
    if x >= 0.0 then x.Floor else -((-x).Floor)
  }

  /** There is only one half-to-even rounding of x, so RoundInt is exactly that rounding. */
  lemma RoundIntUnique(x: real, k: int)
    requires IsHalfEvenRounding(x, k)
    ensures RoundInt(x) == k
  {
  }

  /** There is only one rounding of x at 10^-n, so RoundTo is exactly that rounding. */
  lemma RoundToUnique(x: real, n: nat, y: real)
    requires IsRoundingTo(x, n, y)
    ensures RoundTo(x, n) == y
  {
    var m := Scale(y, n);
    RoundIntUnique(Scale(x, n), m.Floor);
    MulDiv(y, Pow10(n) as real);
  }

  /** Rounding an integral value leaves it unchanged. */
  lemma RoundIntOfInt(k: int)
    ensures RoundInt(k as real) == k
  {
    RoundIntUnique(k as real, k);
  }

  /** Rounding is monotone. */
  lemma RoundIntMonotone(x: real, y: real)
    requires x <= y
    ensures RoundInt(x) <= RoundInt(y)
  {
  }

  /** Half-to-even rounding is symmetric about zero. */
  lemma RoundIntNegate(x: real)
    ensures RoundInt(-x) == -RoundInt(x)
  {
    var k := RoundInt(x);
    assert k % 2 == 0 ==> (-k) % 2 == 0;
    RoundIntUnique(-x, -k);
  }

  /** round(x, n) is within half a unit in the last place of x. */
  lemma RoundToError(x: real, n: nat)
    ensures -0.5 / Pow10(n) as real <= RoundTo(x, n) - x <= 0.5 / Pow10(n) as real
  {
    var s := Scale(x, n);
    ScaledError(RoundInt(s) as real, s, x, Pow10(n) as real);
  }

  /** round(x, n) is a fixed point of round(., n). */
  lemma RoundToIdempotent(x: real, n: nat)
    ensures RoundTo(RoundTo(x, n), n) == RoundTo(x, n)
  {
    var y := RoundTo(x, n);
    var m := Scale(y, n);
    assert IsHalfEvenRounding(m, m.Floor);
    RoundToUnique(y, n, y);
  }

  /** round(x, n) is monotone in x. */
  lemma RoundToMonotone(x: real, y: real, n: nat)
    requires x <= y
    ensures RoundTo(x, n) <= RoundTo(y, n)
  {
    var p := Pow10(n) as real;
    MulMono(x, y, p);
    RoundIntMonotone(Scale(x, n), Scale(y, n));
    DivMono(RoundInt(Scale(x, n)) as real, RoundInt(Scale(y, n)) as real, p);
  }

  /** round(-x, n) == -round(x, n). */
  lemma RoundToNegate(x: real, n: nat)
    ensures RoundTo(-x, n) == -RoundTo(x, n)
  {
    var p := Pow10(n) as real;
    NegMul(x, p);
    RoundIntNegate(Scale(x, n));
    NegDiv(RoundInt(Scale(x, n)) as real, p);
  }

  // Small facts of real arithmetic, stated apart so that each is proved in isolation.

  lemma ScaledError(k: real, s: real, x: real, p: real)
    requires p >= 1.0 && s == x * p && -0.5 <= k - s <= 0.5
    ensures -0.5 / p <= k / p - x <= 0.5 / p
  {
    assert k / p - x == (k - s) / p;
  }

  lemma MulDiv(x: real, p: real)
    requires p != 0.0
    ensures (x * p) / p == x
  {
  }

  lemma DivMul(x: real, p: real)
    requires p != 0.0
    ensures (x / p) * p == x
  {
  }

  lemma MulMono(x: real, y: real, p: real)
    requires p > 0.0 && x <= y
    ensures x * p <= y * p
  {
  }

  lemma DivMono(x: real, y: real, p: real)
    requires p > 0.0 && x <= y
    ensures x / p <= y / p
  {
  }

  lemma NegMul(x: real, p: real)
    ensures (-x) * p == -(x * p)
  {
  }

  lemma NegDiv(x: real, p: real)
    requires p != 0.0
    ensures (-x) / p == -(x / p)
  {
  }
}
