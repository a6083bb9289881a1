/**
 * Python's numeric conversions on floats, modelled on Dafny's exact `real`:
 * `int(x)` truncates toward zero and `x % m` takes the sign of the divisor.
 */
module Numeric {

  /** `int(x)` for a float `x`: the integer part, rounding toward zero. */
  function Trunc(x: real): (r: int)
    ensures 0.0 <= x ==> r as real <= x < r as real + 1.0
    ensures x < 0.0 ==> r as real - 1.0 < x <= r as real
    ensures 0.0 <= x ==> 0 <= r
  {
    if 0.0 <= x then x.Floor else -((-x).Floor)
  }

  /** `x % m` for floats with a positive divisor: what is left after taking whole `m`s, in [0, m). */
  function FloorMod(x: real, m: real): (r: real)
    requires 0.0 < m
    ensures 0.0 <= r < m
    ensures x - r == (x / m).Floor as real * m
  {
    FloorBounds(x, m);
    x - (x / m).Floor as real * m
  }

  /** `floor(x / m)` whole `m`s fit in `x`, one more does not. */
  lemma FloorBounds(x: real, m: real)
    requires 0.0 < m
    ensures (x / m).Floor as real * m <= x < (x / m).Floor as real * m + m
  {
    var z := x / m;
    var q := z.Floor as real;
    assert q <= z < q + 1.0;
    DivTimes(x, m);
    MulLe(q, z, m);
    MulLt(z, q + 1.0, m);
    Distribute1(q, m);
    assert q * m <= x;
    assert x < q * m + m;
  }

  lemma DivTimes(x: real, m: real)
    requires 0.0 < m
    ensures (x / m) * m == x
  {
  }

  lemma MulLe(a: real, b: real, m: real)
    requires a <= b && 0.0 < m
    ensures a * m <= b * m
  {
  }

  lemma MulLt(a: real, b: real, m: real)
    requires a < b && 0.0 < m
    ensures a * m < b * m
  {
  }

  lemma AddTimes(a: real, b: real, m: real)
    ensures (a + b) * m == a * m + b * m
  {
  }

  /** `t + k * p`: `k` periods of length `p` after `t`. */
  function Later(t: real, k: int, p: real): real {
    t + k as real * p
  }

  /** `k` periods of `1 / s` are `k / s`. */
  lemma LaterInverse(t: real, k: int, s: real)
    requires 0.0 < s
    ensures Later(t, k, 1.0 / s) == t + k as real / s
  {
  }

  /** `k` periods are `k - 1` periods and one more, and no earlier than `t`. */
  lemma StepMultiple(t: real, p: real, k: int)
    requires 1 <= k && 0.0 <= p
    ensures Later(t, k, p) == Later(t, k - 1, p) + p
    ensures t <= Later(t, k - 1, p)
  {
    var j := (k - 1) as real;
    Distribute1(j, p);
    assert k as real == j + 1.0;
    if 0.0 < p {
      MulLe(0.0, j, p);
    }
  }

  lemma Distribute1(q: real, m: real)
    ensures (q + 1.0) * m == q * m + m
  {
  }

  /** A factor in [0, 1] scales a non-negative value down, not below zero. */
  lemma ScaleDown(v: real, factor: real)
    requires 0.0 <= v && 0.0 <= factor <= 1.0
    ensures 0.0 <= v * factor <= v
  {
    if v > 0.0 {
      MulLe(factor, 1.0, v);
      MulLe(0.0, factor, v);
      assert v * factor == factor * v;
    }
  }

  /** `int(v * factor)` for a factor in [0, 1] lies between 0 and `v`. */
  lemma TruncScaled(v: real, factor: real)
    requires 0.0 <= v && 0.0 <= factor <= 1.0
    ensures 0 <= Trunc(v * factor) && Trunc(v * factor) as real <= v
  {
    var x := v * factor;
    ScaleDown(v, factor);
    assert 0.0 <= x <= v;
    assert Trunc(x) as real <= x;
  }

  /** Truncation is monotone on non-negative values. */
  lemma TruncMono(x: real, y: real)
    requires 0.0 <= x <= y
    ensures Trunc(x) <= Trunc(y)
  {
    assert Trunc(x) as real <= x <= y < Trunc(y) as real + 1.0;
  }

  /** Adding a whole number to a non-negative value adds it to the integer part. */
  lemma TruncShift(x: real, n: int)
    requires 0.0 <= x && 0 <= n
    ensures Trunc(x + n as real) == Trunc(x) + n
  {
    var a := Trunc(x);
    var b := Trunc(x + n as real);
    assert a as real <= x < a as real + 1.0;
    assert (b - n) as real <= x < (b - n) as real + 1.0;
  }

  /** A value between two whole numbers truncates to a whole number between them. */
  lemma TruncBetweenInts(x: real, lo: int, hi: int)
    requires lo as real <= x <= hi as real
    ensures lo <= Trunc(x) <= hi
  {
    var r := Trunc(x);
    if 0.0 <= x {
      assert r as real <= x < r as real + 1.0;
    } else {
      assert r as real - 1.0 < x <= r as real;
    }
  }

  /** Truncating a whole number gives it back. */
  lemma TruncOfInt(n: int)
    ensures Trunc(n as real) == n
  {
  }

  /** Scaling by a non-negative value preserves order. */
  lemma ScaleMono(v: real, p: real, q: real)
    requires 0.0 <= v && p <= q
    ensures v * p <= v * q
  {
    if v > 0.0 {
      MulLe(p, q, v);
      assert p * v == v * p && q * v == v * q;
    }
  }

  /** A factor in [0, 1] moves a value of either sign toward zero. */
  lemma ScaleBetween(d: real, m: real)
    requires 0.0 <= m <= 1.0
    ensures 0.0 <= d ==> 0.0 <= d * m <= d
    ensures d < 0.0 ==> d <= d * m <= 0.0
  {
    if 0.0 <= d {
      ScaleDown(d, m);
    } else {
      ScaleDown(-d, m);
      assert (-d) * m == -(d * m);
    }
  }

  /** Whole multiples of `m` do not change `x % m`. */
  lemma {:induction false} FloorModShift(x: real, m: real, k: int)
    requires 0.0 < m
    ensures FloorMod(x + k as real * m, m) == FloorMod(x, m)
  {
    var y := x + k as real * m;
    var q := (x / m).Floor;
    ShiftQuotient(x, m, k);
    assert (y / m).Floor == q + k;
    Distribute(q, k, m);
  }

  lemma ShiftQuotient(x: real, m: real, k: int)
    requires 0.0 < m
    ensures (x + k as real * m) / m == x / m + k as real
  {
    var z := x / m;
    DivTimes(x, m);
    assert (z + k as real) * m == z * m + k as real * m;
  }

  lemma Distribute(q: int, k: int, m: real)
    ensures (q + k) as real * m == q as real * m + k as real * m
  {
  }

  /** An `x` that is a whole number of `m`s leaves nothing. */
  lemma {:induction false} FloorModMultiple(m: real, k: int)
    requires 0.0 < m
    ensures FloorMod(k as real * m, m) == 0.0
  {
    FloorModShift(0.0, m, k);
    assert (0.0 / m).Floor == 0;
  }

  /** Integer `%` with a positive divisor (Python's `%` on ints agrees with it there): the remainder is determined by any quotient that leaves it in [0, u). */
  lemma ModUnique(x: int, u: int, q: int, r: int)
    requires u > 0 && x == q * u + r && 0 <= r < u
    ensures x % u == r
  {
    var q0 := x / u;
    var r0 := x % u;
    assert x == q0 * u + r0 && 0 <= r0 < u;
    SubTimes(q, q0, u);
    if q > q0 {
      AtLeastOnce(q - q0, u);
    } else if q < q0 {
      AtLeastOnce(q0 - q, u);
      SubTimes(q0, q, u);
    }
  }

  lemma SubTimes(a: int, b: int, u: int)
    ensures (a - b) * u == a * u - b * u
  {
  }

  lemma AtLeastOnce(k: int, u: int)
    requires 1 <= k && 0 < u
    ensures u <= k * u
  {
    assert k * u == (k - 1) * u + u;
  }

  /** Adding the divisor does not change the remainder. */
  lemma ModAdd(x: int, u: int)
    requires u > 0
    ensures (x + u) % u == x % u
  {
    ModUnique(x + u, u, x / u + 1, x % u);
  }
}
