/**
 Decimal rounding and truncation (package `maths`), over exact reals.

 The source computes on float64 (and, in Truncate, on 1000-bit binary floats);
 here every value is an exact `real`, so representation error, NaN and the
 infinities are outside the model.
 */
module Maths {

  function Abs(x: real): (r: real)
    ensures r >= 0.0 && (r == x || r == -x)
  {
    if x < 0.0 then -x else x
  }

  /** True when `x` has no fractional part. */
  predicate IsInteger(x: real) {
    x == x.Floor as real
  }

  lemma IsIntegerOf(r: real, k: int)
    requires r == k as real
    ensures IsInteger(r)
  {
  }

  // Field facts used below. Each is called on the exact terms of a proof, so
  // that the proof itself needs no nonlinear step next to `Floor`.

  lemma DivMulCancel(a: real, q: real)
    requires q != 0.0
    ensures (a / q) * q == a
  {
  }

  lemma MulDivCancel(a: real, q: real)
    requires q != 0.0
    ensures (a * q) / q == a
  {
  }

  lemma MulCancel(a: real, b: real, q: real)
    requires q != 0.0 && a * q == b * q
    ensures a == b
  {
    assert (a - b) * q == 0.0;
  }

  lemma MulStrict(a: real, b: real, q: real)
    requires q > 0.0 && a < b
    ensures a * q < b * q
  {
  }

  lemma DivMono(a: real, b: real, q: real)
    requires q > 0.0 && a <= b
    ensures a / q <= b / q
  {
  }

  lemma MulMono(a: real, b: real, q: real)
    requires q > 0.0 && a <= b
    ensures a * q <= b * q
  {
  }

  lemma DivDistance(a: real, x: real, q: real)
    requires q > 0.0
    ensures Abs(a / q - x) == Abs(a - x * q) / q
  {
    assert a / q - x == (a - x * q) / q;
  }

  /** b^e for a natural exponent. */
  function Power(b: real, e: nat): (r: real) {
    if e == 0 then 1.0 else b * Power(b, e - 1)
  }

  lemma {:induction false} PowerAtLeastOne(b: real, e: nat)
    requires b >= 1.0
    ensures Power(b, e) >= 1.0
  {
    if e > 0 {
      PowerAtLeastOne(b, e - 1);
      assert b * Power(b, e - 1) >= Power(b, e - 1);
    }
  }

  /** `math.Pow(10, float64(precision))`, the ratio maths.Round scales by. */
  function Pow10(p: nat): (r: real)
    ensures r >= 1.0
  {
    PowerAtLeastOne(10.0, p);
    Power(10.0, p)
  }

  // ---------------------------------------------------------------------
  // math.Round
  // ---------------------------------------------------------------------

  /**
   The documented meaning of Go's `math.Round`: `n` is an integer within one
   half of `y`, and when `y` lies exactly half-way the one farther from zero
   is taken.
   */
  predicate NearestTiesAway(y: real, n: int) {
    && -0.5 <= n as real - y <= 0.5
    && (n as real - y == 0.5 ==> y > 0.0)
    && (n as real - y == -0.5 ==> y < 0.0)
  }

  /** `math.Round`: the nearest integer, half-way cases away from zero. */
  function RoundHalfAway(y: real): (n: int)
    ensures NearestTiesAway(y, n)
  {
    if y >= 0.0 then (y + 0.5).Floor else -((-y + 0.5).Floor)
  }

  /** The documented meaning pins the result down: there is only one such integer. */
  lemma RoundHalfAwayUnique(y: real, n: int)
    requires NearestTiesAway(y, n)
    ensures n == RoundHalfAway(y)
  {
  }

  lemma WithinHalfIsNearest(y: real, n: int, k: int)
    requires -0.5 <= n as real - y <= 0.5
    ensures Abs(n as real - y) <= Abs(k as real - y)
  {
    if k > n {
      assert k as real >= n as real + 1.0;
      assert k as real - y >= 0.5;
    } else if k < n {
      assert k as real <= n as real - 1.0;
      assert y - k as real >= 0.5;
    }
  }

  /** No integer is closer to `y` than the one `math.Round` picks. */
  lemma RoundHalfAwayNearest(y: real, k: int)
    ensures Abs(RoundHalfAway(y) as real - y) <= Abs(k as real - y)
  {
    WithinHalfIsNearest(y, RoundHalfAway(y), k);
  }

  lemma RoundHalfAwayOfInteger(k: int)
    ensures RoundHalfAway(k as real) == k
  {
    RoundHalfAwayUnique(k as real, k);
  }

  lemma RoundHalfAwayMonotonic(y: real, z: real)
    requires y <= z
    ensures RoundHalfAway(y) <= RoundHalfAway(z)
  {
    if 0.0 <= y {
      assert (y + 0.5).Floor <= (z + 0.5).Floor;
    } else if z < 0.0 {
      assert (-z + 0.5).Floor <= (-y + 0.5).Floor;
    }
  }

  // ---------------------------------------------------------------------
  // maths.Round(number, precision)
  // ---------------------------------------------------------------------

  /** Round to the grid of multiples of 1 / ratio: scale, `math.Round`, unscale. */
  function RoundAtRatio(x: real, ratio: real): (r: real)
    requires ratio >= 1.0
  {
    RoundHalfAway(x * ratio) as real / ratio
  }

  /** maths.Round: the ratio is 10^precision. */
  function Round(x: real, p: nat): (r: real) {
    RoundAtRatio(x, Pow10(p))
  }

  lemma RoundAtRatioScaled(x: real, ratio: real)
    requires ratio >= 1.0
    ensures RoundAtRatio(x, ratio) * ratio == RoundHalfAway(x * ratio) as real
  {
    var n := RoundHalfAway(x * ratio) as real;
    assert (n / ratio) * ratio == n;
  }

  lemma RoundAtRatioError(x: real, ratio: real)
    requires ratio >= 1.0
    ensures Abs(RoundAtRatio(x, ratio) - x) <= 0.5 / ratio
  {
    var n := RoundHalfAway(x * ratio) as real;
    var d := n / ratio - x;
    assert d * ratio == n - x * ratio;
    assert -0.5 <= d * ratio <= 0.5;
    assert -0.5 / ratio <= d <= 0.5 / ratio;
  }

  lemma RoundAtRatioNearest(x: real, ratio: real, k: int)
    requires ratio >= 1.0
    ensures Abs(RoundAtRatio(x, ratio) - x) <= Abs(k as real / ratio - x)
  {
    var y := x * ratio;
    var n := RoundHalfAway(y) as real;
    DivDistance(n, x, ratio);
    DivDistance(k as real, x, ratio);
    RoundHalfAwayNearest(y, k);
    DivMono(Abs(n - y), Abs(k as real - y), ratio);
  }

  lemma RoundAtRatioOdd(x: real, ratio: real)
    requires ratio >= 1.0
    ensures RoundAtRatio(-x, ratio) == -RoundAtRatio(x, ratio)
  {
    var y := x * ratio;
    var n := RoundHalfAway(y);
    assert (-x) * ratio == -y;
    RoundHalfAwayUnique(-y, -n);
    assert (-n) as real / ratio == -(n as real / ratio);
  }

  lemma RoundAtRatioIdempotent(x: real, ratio: real)
    requires ratio >= 1.0
    ensures RoundAtRatio(RoundAtRatio(x, ratio), ratio) == RoundAtRatio(x, ratio)
  {
    var n := RoundHalfAway(x * ratio);
    var r := RoundAtRatio(x, ratio);
    assert r == n as real / ratio;
    DivMulCancel(n as real, ratio);
    assert r * ratio == n as real;
    RoundHalfAwayOfInteger(n);
    assert RoundHalfAway(r * ratio) == n;
    RoundAtRatioScaled(r, ratio);
    MulCancel(RoundAtRatio(r, ratio), r, ratio);
  }

  lemma RoundAtRatioMonotonic(x: real, y: real, ratio: real)
    requires ratio >= 1.0 && x <= y
    ensures RoundAtRatio(x, ratio) <= RoundAtRatio(y, ratio)
  {
    MulMono(x, y, ratio);
    RoundHalfAwayMonotonic(x * ratio, y * ratio);
    var a, b := RoundHalfAway(x * ratio) as real, RoundHalfAway(y * ratio) as real;
    DivMono(a, b, ratio);
  }

  /** The result lies on the decimal grid: Round(x, p) * 10^p is an integer. */
  lemma {:induction false} RoundOnGrid(x: real, p: nat)
    ensures IsInteger(Round(x, p) * Pow10(p))
  {
    RoundAtRatioScaled(x, Pow10(p));
    IsIntegerOf(Round(x, p) * Pow10(p), RoundHalfAway(x * Pow10(p)));
  }

  /** The result is within half a grid step of the input: |Round(x, p) - x| <= 1 / (2 * 10^p). */
  lemma {:induction false} RoundError(x: real, p: nat)
    ensures Abs(Round(x, p) - x) <= 0.5 / Pow10(p)
  {
    RoundAtRatioError(x, Pow10(p));
  }

  /** No point k / 10^p of the decimal grid is closer to the input than the result. */
  lemma {:induction false} RoundNearest(x: real, p: nat, k: int)
    ensures Abs(Round(x, p) - x) <= Abs(k as real / Pow10(p) - x)
  {
    RoundAtRatioNearest(x, Pow10(p), k);
  }

  /** Ties go away from zero, so rounding commutes with negation. */
  lemma {:induction false} RoundOdd(x: real, p: nat)
    ensures Round(-x, p) == -Round(x, p)
  {
    RoundAtRatioOdd(x, Pow10(p));
  }

  /** Rounding twice to the same precision changes nothing more. */
  lemma {:induction false} RoundIdempotent(x: real, p: nat)
    ensures Round(Round(x, p), p) == Round(x, p)
  {
    RoundAtRatioIdempotent(x, Pow10(p));
  }

  /** Rounding never reverses the order of two inputs. */
  lemma {:induction false} RoundMonotonic(x: real, y: real, p: nat)
    requires x <= y
    ensures Round(x, p) <= Round(y, p)
  {
    RoundAtRatioMonotonic(x, y, Pow10(p));
  }

  /** The first two examples of the doc comment on maths.Round. */
  lemma RoundDocExamples()
    ensures Round(33.99, 1) == 34.0
    ensures Round(33.99, 2) == 33.99
  {
    assert Pow10(1) == 10.0;
    assert (33.99 * 10.0 + 0.5).Floor == 340;
    assert Pow10(2) == 100.0;
    assert (33.99 * 100.0 + 0.5).Floor == 3399;
  }

  /**
   What the formula gives for the last two examples of that doc comment, which
   announce 33.99 and 33.999 instead.
   */
  lemma RoundDocExamplesAsComputed()
    ensures Round(33.999, 2) == 34.0
    ensures Round(33.99, 3) == 33.99
  {
    assert Pow10(2) == 100.0;
    assert (33.999 * 100.0 + 0.5).Floor == 3400;
    assert Pow10(3) == 1000.0;
    assert (33.99 * 1000.0 + 0.5).Floor == 33990;
  }

  // ---------------------------------------------------------------------
  // maths.Truncate(number, precision)
  // ---------------------------------------------------------------------

  /** `big.Float.Int`: drop the fractional part, i.e. round toward zero. */
  function TruncToZero(y: real): (n: int)
    ensures y >= 0.0 ==> 0.0 <= n as real <= y < n as real + 1.0
    ensures y < 0.0 ==> n as real - 1.0 < y <= n as real <= 0.0
  {
    if y >= 0.0 then y.Floor else -((-y).Floor)
  }

  lemma TruncToZeroOfInteger(k: int)
    ensures TruncToZero(k as real) == k
  {
  }

  /**
   maths.Truncate: divide by the step, truncate toward zero, multiply back.
   With a zero step and a non-zero number the quotient is infinite, the
   integer conversion leaves its target at zero and the result is 0; zero
   divided by zero makes big.Float panic, which the precondition excludes.
   */
  function Truncate(x: real, s: real): (r: real)
    requires s != 0.0 || x != 0.0
  {
    if s == 0.0 then 0.0 else TruncToZero(x / s) as real * s
  }

  /** A zero step truncates every non-zero number to 0. */
  lemma TruncateZeroStep(x: real)
    requires x != 0.0
    ensures Truncate(x, 0.0) == 0.0
  {
  }

  /** The result is a whole number of steps. */
  lemma TruncateIsMultiple(x: real, s: real)
    requires s != 0.0
    ensures IsInteger(Truncate(x, s) / s)
  {
    var k := TruncToZero(x / s);
    assert (k as real * s) / s == k as real;
    IsIntegerOf(Truncate(x, s) / s, k);
  }

  /** Only the size of the step matters, not its sign. */
  lemma TruncateStepSign(x: real, s: real)
    requires s != 0.0
    ensures Truncate(x, -s) == Truncate(x, s)
  {
    assert x / -s == -(x / s);
  }

  /** Truncation toward zero commutes with negation. */
  lemma TruncateOdd(x: real, s: real)
    requires s != 0.0
    ensures Truncate(-x, s) == -Truncate(x, s)
  {
    assert (-x) / s == -(x / s);
  }

  lemma MulNegNeg(k: int, q: real)
    ensures (-k) as real * -q == k as real * q
  {
  }

  lemma AddOneMul(a: real, q: real)
    ensures (a + 1.0) * q == a * q + q
  {
  }

  lemma FractionBelowStepLower(x: real, y: real, k: real, s: real)
    requires s > 0.0 && 0.0 <= k <= y && y * s == x
    ensures 0.0 <= k * s <= x
  {
    MulMono(0.0, k, s);
    MulMono(k, y, s);
  }

  lemma FractionBelowStepUpper(x: real, y: real, k: real, s: real)
    requires s > 0.0 && y < k + 1.0 && y * s == x
    ensures x < k * s + s
  {
    MulStrict(y, k + 1.0, s);
    AddOneMul(k, s);
  }

  lemma FractionBelowStep(x: real, y: real, k: real, s: real)
    requires s > 0.0 && 0.0 <= k <= y < k + 1.0 && y * s == x
    ensures 0.0 <= k * s <= x < k * s + s
  {
    FractionBelowStepLower(x, y, k, s);
    FractionBelowStepUpper(x, y, k, s);
  }

  /** The sign-free core of TruncateTowardZero: a non-negative input and a positive step. */
  lemma TruncateTowardZeroPositive(x: real, s: real)
    requires x >= 0.0 && s > 0.0
    ensures 0.0 <= Truncate(x, s) <= x
    ensures x - Truncate(x, s) < s
  {
    var y := x / s;
    var k := TruncToZero(y) as real;
    DivMono(0.0, x, s);
    DivMulCancel(x, s);
    FractionBelowStep(x, y, k, s);
  }

  /** The result moves the input toward zero, by less than one step. */
  lemma TruncateTowardZero(x: real, s: real)
    requires s != 0.0
    ensures x >= 0.0 ==> 0.0 <= Truncate(x, s) <= x
    ensures x < 0.0 ==> x <= Truncate(x, s) <= 0.0
    ensures Abs(x - Truncate(x, s)) < Abs(s)
  {
    TruncateStepSign(x, s);
    TruncateStepSign(-x, s);
    TruncateOdd(x, Abs(s));
    TruncateTowardZeroPositive(Abs(x), Abs(s));
  }

  /** The sign-free core of TruncateLargestMultiple. */
  lemma TruncateLargestMultiplePositive(x: real, s: real, k: int)
    requires x >= 0.0 && s > 0.0
    requires 0.0 <= k as real * s <= x
    ensures k as real * s <= Truncate(x, s)
  {
    var n := TruncToZero(x / s);
    MulDivCancel(k as real, s);
    DivMono(k as real * s, x, s);
    DivMono(0.0, x, s);
    assert k as real <= x / s < n as real + 1.0;
    assert k <= n;
    MulMono(k as real, n as real, s);
  }

  /** TruncateLargestMultiple for a positive step. */
  lemma TruncateLargestMultiplePositiveStep(x: real, s: real, k: int)
    requires s > 0.0
    requires x >= 0.0 ==> 0.0 <= k as real * s <= x
    requires x < 0.0 ==> x <= k as real * s <= 0.0
    ensures Abs(k as real * s) <= Abs(Truncate(x, s))
  {
    TruncateTowardZero(x, s);
    if x >= 0.0 {
      TruncateLargestMultiplePositive(x, s, k);
    } else {
      TruncateOdd(x, s);
      assert (-k) as real * s == -(k as real * s);
      TruncateLargestMultiplePositive(-x, s, -k);
    }
  }

  /**
   Among the multiples of the step that lie between zero and the input, the
   result is the one farthest from zero.
   */
  lemma TruncateLargestMultiple(x: real, s: real, k: int)
    requires s != 0.0
    requires x >= 0.0 ==> 0.0 <= k as real * s <= x
    requires x < 0.0 ==> x <= k as real * s <= 0.0
    ensures Abs(k as real * s) <= Abs(Truncate(x, s))
  {
    if s > 0.0 {
      TruncateLargestMultiplePositiveStep(x, s, k);
    } else {
      TruncateStepSign(x, s);
      MulNegNeg(k, s);
      TruncateLargestMultiplePositiveStep(x, -s, -k);
    }
  }

  /** Truncating a value that is already on the step grid leaves it alone. */
  lemma TruncateIdempotent(x: real, s: real)
    requires s != 0.0
    ensures Truncate(Truncate(x, s), s) == Truncate(x, s)
  {
    var k := TruncToZero(x / s);
    var t := Truncate(x, s);
    assert t == k as real * s;
    MulDivCancel(k as real, s);
    assert t / s == k as real;
    TruncToZeroOfInteger(k);
    assert TruncToZero(t / s) == k;
  }

  /** The doc comment's examples on maths.Truncate hold over exact reals. */
  lemma TruncateDocExamples()
    ensures Truncate(33.999, 0.1) == 33.9
    ensures Truncate(33.999, 0.01) == 33.99
    ensures Truncate(33.999, 0.001) == 33.999
  {
    assert 33.999 / 0.1 == 339.99;
    assert 339.99.Floor == 339;
    assert 33.999 / 0.01 == 3399.9;
    assert 3399.9.Floor == 3399;
    assert 33.999 / 0.001 == 33999.0;
    assert 33999.0.Floor == 33999;
  }
}
