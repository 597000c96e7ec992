/**
 * Rounding to two decimal places, on exact reals.
 * The front end rounds with `Math.round(x * 100) / 100` (halves go up);
 * the back end with Python's `round(x, 2)` (halves go to the even hundredth).
 */
module Rounding {

  /** `r` is a whole number of hundredths (two decimal places). */
  predicate WholeHundredths(r: real)
  {
    (r * 100.0).Floor as real == r * 100.0
  }

  /** `Math.round(x * 100) / 100`: the nearest hundredth, halves rounded upward. */
  function Round2HalfUp(x: real): (r: real)
    ensures WholeHundredths(r)
    ensures x - 0.005 < r <= x + 0.005
  {
    var n := (x * 100.0 + 0.5).Floor;
    assert n as real / 100.0 * 100.0 == n as real;
    n as real / 100.0
  }

  /** The nearest integer, halves rounded to the even one. */
  function HalfEvenInt(y: real): (n: int)
    ensures y - 0.5 <= n as real <= y + 0.5
    ensures y - n as real == 0.5 || n as real - y == 0.5 ==> n % 2 == 0
  {
    var f := y.Floor;
    var frac := y - f as real;
    if frac < 0.5 then f else if frac > 0.5 then f + 1 else if f % 2 == 0 then f else f + 1
  }

  /** `round(x, 2)`: the nearest hundredth, halves rounded to the even hundredth. */
  function Round2HalfEven(x: real): (r: real)
    ensures WholeHundredths(r)
    ensures x - 0.005 <= r <= x + 0.005
    ensures x - r == 0.005 || r - x == 0.005 ==> (r * 100.0).Floor % 2 == 0
  {
    var y := x * 100.0;
    var n := HalfEvenInt(y);
    var r := n as real / 100.0;
    assert r * 100.0 == n as real;
    assert x - r == (y - n as real) / 100.0 && r - x == (n as real - y) / 100.0;
    r
  }

  /** Whole hundredths, strictly above x − 0.005 and at most x + 0.005: only `Round2HalfUp(x)` is all three. */
  lemma Round2HalfUpUnique(x: real, r: real)
    requires WholeHundredths(r) && x - 0.005 < r <= x + 0.005
    ensures r == Round2HalfUp(x)
  {
    var m, f := (r * 100.0).Floor, (x * 100.0 + 0.5).Floor;
    assert x * 100.0 + 0.5 - 1.0 < m as real <= x * 100.0 + 0.5;
    assert m == f;
    assert r == m as real / 100.0;
  }

  /**
   * Whole hundredths within half a hundredth of x, even at a tie: only
   * `Round2HalfEven(x)` is all three.
   */
  lemma Round2HalfEvenUnique(x: real, r: real)
    requires WholeHundredths(r) && x - 0.005 <= r <= x + 0.005
    requires x - r == 0.005 || r - x == 0.005 ==> (r * 100.0).Floor % 2 == 0
    ensures r == Round2HalfEven(x)
  {
    var y := x * 100.0;
    var m := (r * 100.0).Floor;
    assert y - 0.5 <= m as real <= y + 0.5;
    assert y - m as real == 0.5 || m as real - y == 0.5 ==> m % 2 == 0;
    HalfEvenIntUnique(y, m);
    assert r == m as real / 100.0;
  }

  /** The only integer within a half of y, and even when exactly a half away, is `HalfEvenInt(y)`. */
  lemma HalfEvenIntUnique(y: real, m: int)
    requires y - 0.5 <= m as real <= y + 0.5
    requires y - m as real == 0.5 || m as real - y == 0.5 ==> m % 2 == 0
    ensures m == HalfEvenInt(y)
  {
    var f := y.Floor;
    var frac := y - f as real;
    if frac < 0.5 {
      assert f as real - 0.5 < m as real < f as real + 1.0;
    } else if frac > 0.5 {
      assert f as real < m as real < f as real + 2.0;
    } else {
      assert f as real <= m as real <= f as real + 1.0;
    }
  }

  /** A whole number of hundredths is left as it is by both roundings. */
  lemma RoundHundredths(k: int)
    ensures Round2HalfUp(k as real / 100.0) == k as real / 100.0
    ensures Round2HalfEven(k as real / 100.0) == k as real / 100.0
  {
    assert k as real / 100.0 * 100.0 == k as real;
    assert (k as real + 0.5).Floor == k;
  }

  /** The integer part never reverses an order. */
  lemma FloorMonotone(a: real, b: real)
    requires a <= b
    ensures a.Floor <= b.Floor
  {
  }

  /** Rounding half up never reverses an order. */
  lemma Round2HalfUpMonotone(x: real, y: real)
    requires x <= y
    ensures Round2HalfUp(x) <= Round2HalfUp(y)
  {
    var a, b := x * 100.0 + 0.5, y * 100.0 + 0.5;
    assert a <= b;
    FloorMonotone(a, b);
    assert Round2HalfUp(x) == a.Floor as real / 100.0;
    assert Round2HalfUp(y) == b.Floor as real / 100.0;
  }

  /** Rounding half to even never reverses an order. */
  lemma Round2HalfEvenMonotone(x: real, y: real)
    requires x <= y
    ensures Round2HalfEven(x) <= Round2HalfEven(y)
  {
    var a, b := x * 100.0, y * 100.0;
    assert a <= b;
    assert a.Floor <= b.Floor;
    assert HalfEvenInt(a) <= HalfEvenInt(b);
  }

  /** Adding a whole number commutes with rounding half up. */
  lemma Round2HalfUpShift(x: real, n: int)
    ensures Round2HalfUp(x + n as real) == Round2HalfUp(x) + n as real
  {
    var a := x * 100.0 + 0.5;
    assert (x + n as real) * 100.0 + 0.5 == a + (100 * n) as real;
    assert (a + (100 * n) as real).Floor == a.Floor + 100 * n;
  }

  /** Adding a whole number commutes with rounding half to even (it shifts by an even number of hundredths). */
  lemma Round2HalfEvenShift(x: real, n: int)
    ensures Round2HalfEven(x + n as real) == Round2HalfEven(x) + n as real
  {
    var y := x * 100.0;
    assert (x + n as real) * 100.0 == y + (100 * n) as real;
    HalfEvenIntShift(y, 50 * n);
  }

  /** Adding an even whole number commutes with rounding half to even. */
  lemma HalfEvenIntShift(y: real, k: int)
    ensures HalfEvenInt(y + (2 * k) as real) == HalfEvenInt(y) + 2 * k
  {
    var m := 2 * k;
    assert (y + m as real).Floor == y.Floor + m;
    assert (y + m as real) - (y + m as real).Floor as real == y - y.Floor as real;
    assert (y.Floor + m) % 2 == y.Floor % 2;
  }
}
