/** The CUBIC pheromone curve: evaporation by s moves a point of the curve s further along its time axis. */
module Evaporation {
  import opened Reals

  function Pow(x: real, k: nat): real {
    if k == 0 then 1.0 else x * Pow(x, k - 1)
  }

  function Signum(d: real): real {
    if d >= 0.0 then 1.0 else -1.0
  }

  function Clamp(x: real): real {
    var low := if x > 0.0 then x else 0.0;
    if low < 1.0 then low else 1.0
  }

  /** Pheromone at time t: 1 at t = 0, 0 at t = 1, flat around t = 1/2. */
  function Ttop(t: real, k: nat): real {
    0.5 * (-Pow(2.0 * t - 1.0, k) + 1.0)
  }

  /** root stands for pow(x, 1.0 / k) of the C library. */
  ghost predicate IsRoot(root: real -> real, k: nat) {
    forall x | x >= 0.0 :: root(x) >= 0.0 && Pow(root(x), k) == x
  }

  /** The time at which the curve has value p. */
  function TimeOf(p: real, root: real -> real): real {
    0.5 * (Signum(-2.0 * p + 1.0) * root(Abs(-2.0 * p + 1.0))) + 0.5
  }

  function CubicDecrease(p: real, s: real, k: nat, root: real -> real): real {
    Clamp(Ttop(TimeOf(p, root) + s, k))
  }

  function CubicTicks(p: real, s: real, k: nat, root: real -> real, n: nat): real {
    if n == 0 then p else CubicDecrease(CubicTicks(p, s, k, root, n - 1), s, k, root)
  }

  // ----- Odd powers -----

  lemma {:induction false} PowPositive(x: real, k: nat)
    requires x >= 0.0
    ensures Pow(x, k) >= 0.0
    ensures x > 0.0 ==> Pow(x, k) > 0.0
  {
    if k > 0 {
      PowPositive(x, k - 1);
      Products(x, Pow(x, k - 1));
    }
  }

  lemma Products(x: real, a: real)
    requires x >= 0.0 && a >= 0.0
    ensures x * a >= 0.0
    ensures x > 0.0 && a > 0.0 ==> x * a > 0.0
  {
  }

  lemma {:induction false} PowStrict(x: real, y: real, k: nat)
    requires 0.0 <= x < y && k > 0
    ensures Pow(x, k) < Pow(y, k)
  {
    if k > 1 {
      PowStrict(x, y, k - 1);
      PowPositive(x, k - 1);
      var a, b := Pow(x, k - 1), Pow(y, k - 1);
      assert x * a <= x * b;
      assert x * b < y * b;
    }
  }

  lemma {:induction false} PowNegated(x: real, k: nat)
    ensures Pow(-x, k) == if k % 2 == 1 then -Pow(x, k) else Pow(x, k)
  {
    if k > 0 {
      PowNegated(x, k - 1);
    }
  }

  lemma OddPowStrict(x: real, y: real, k: nat)
    requires x < y && k % 2 == 1
    ensures Pow(x, k) < Pow(y, k)
  {
    PowNegated(x, k);
    PowNegated(y, k);
    if x >= 0.0 {
      PowStrict(x, y, k);
    } else if y <= 0.0 {
      PowStrict(-y, -x, k);
    } else {
      PowPositive(-x, k);
      PowPositive(y, k);
    }
  }

  // ----- The curve -----

  lemma CurveFalls(t: real, u: real, k: nat)
    requires t < u && k % 2 == 1
    ensures Ttop(u, k) < Ttop(t, k)
  {
    OddPowStrict(2.0 * t - 1.0, 2.0 * u - 1.0, k);
  }

  lemma {:induction false} PowOfOne(k: nat)
    ensures Pow(1.0, k) == 1.0
  {
    if k > 0 {
      PowOfOne(k - 1);
    }
  }

  lemma CurveEnds(k: nat)
    requires k % 2 == 1
    ensures Ttop(0.0, k) == 1.0 && Ttop(1.0, k) == 0.0
  {
    PowOfOne(k);
    PowNegated(1.0, k);
  }

  /** TimeOf inverts the curve, from both sides. */
  lemma TimeInvertsCurve(p: real, t: real, k: nat, root: real -> real)
    requires k % 2 == 1 && IsRoot(root, k)
    ensures Ttop(TimeOf(p, root), k) == p
    ensures TimeOf(Ttop(t, k), root) == t
  {
    CurveAtTime(p, k, root);
    CurveAtTime(Ttop(t, k), k, root);
    var u := TimeOf(Ttop(t, k), root);
    if u < t {
      CurveFalls(u, t, k);
    } else if t < u {
      CurveFalls(t, u, k);
    }
  }

  lemma CurveAtTime(p: real, k: nat, root: real -> real)
    requires k % 2 == 1 && IsRoot(root, k)
    ensures Ttop(TimeOf(p, root), k) == p
  {
    var d := -2.0 * p + 1.0;
    var r := root(Abs(d));
    assert 2.0 * TimeOf(p, root) - 1.0 == Signum(d) * r;
    PowNegated(r, k);
  }

  /** One evaporation step by s is a shift of s along the time axis, cut off at 0. */
  lemma DecreaseIsShift(t: real, s: real, k: nat, root: real -> real)
    requires k % 2 == 1 && IsRoot(root, k) && 0.0 <= t && 0.0 <= s
    ensures CubicDecrease(Ttop(t, k), s, k, root) == if t + s <= 1.0 then Ttop(t + s, k) else 0.0
  {
    TimeInvertsCurve(0.0, t, k, root);
    CurveEnds(k);
    if t + s < 1.0 {
      CurveFalls(t + s, 1.0, k);
    } else if t + s > 1.0 {
      CurveFalls(1.0, t + s, k);
    }
    if t + s > 0.0 {
      CurveFalls(0.0, t + s, k);
    }
  }

  /** t + n * s */
  function Elapsed(t: real, s: real, n: nat): real {
    if n == 0 then t else Elapsed(t, s, n - 1) + s
  }

  lemma {:induction false} ElapsedIsProduct(t: real, s: real, n: nat)
    ensures Elapsed(t, s, n) == t + n as real * s
  {
    if n > 0 {
      ElapsedIsProduct(t, s, n - 1);
      assert n as real == (n - 1) as real + 1.0;
    }
  }

  /** n ticks are one shift by n * s. */
  lemma {:induction false} TicksAreShift(t: real, s: real, k: nat, root: real -> real, n: nat)
    requires k % 2 == 1 && IsRoot(root, k) && 0.0 <= t <= 1.0 && 0.0 <= s
    ensures Elapsed(t, s, n) >= 0.0
    ensures CubicTicks(Ttop(t, k), s, k, root, n) ==
      if Elapsed(t, s, n) <= 1.0 then Ttop(Elapsed(t, s, n), k) else 0.0
  {
    hide Ttop, CubicDecrease, IsRoot;
    CurveEnds(k);
    if n > 0 {
      TicksAreShift(t, s, k, root, n - 1);
      var u := Elapsed(t, s, n - 1);
      DecreaseIsShift(if u <= 1.0 then u else 1.0, s, k, root);
    }
  }

  /** TimeOf maps [0, 1] to [0, 1] and reverses the order. */
  lemma TimeReverses(p: real, q: real, k: nat, root: real -> real)
    requires k % 2 == 1 && IsRoot(root, k) && p <= q
    ensures TimeOf(q, root) <= TimeOf(p, root)
    ensures p >= 0.0 ==> TimeOf(p, root) <= 1.0
    ensures q <= 1.0 ==> TimeOf(q, root) >= 0.0
  {
    var t, u := TimeOf(p, root), TimeOf(q, root);
    CurveAtTime(p, k, root);
    CurveAtTime(q, k, root);
    CurveEnds(k);
    if t < u {
      CurveFalls(t, u, k);
    }
    if t > 1.0 {
      CurveFalls(1.0, t, k);
    }
    if u < 0.0 {
      CurveFalls(u, 0.0, k);
    }
  }

  /** Evaporation stays in [0, 1], never raises a value and keeps the order of two values. */
  lemma DecreaseIsMonotone(p: real, q: real, s: real, k: nat, root: real -> real)
    requires k % 2 == 1 && IsRoot(root, k) && 0.0 <= p <= q <= 1.0 && 0.0 <= s
    ensures 0.0 <= CubicDecrease(p, s, k, root) <= p
    ensures CubicDecrease(p, s, k, root) <= CubicDecrease(q, s, k, root)
  {
    var t, u := TimeOf(p, root), TimeOf(q, root);
    CurveAtTime(p, k, root);
    CurveAtTime(q, k, root);
    TimeReverses(p, q, k, root);
    if s > 0.0 {
      CurveFalls(t, t + s, k);
    }
    if u + s < t + s {
      CurveFalls(u + s, t + s, k);
    }
  }
}
