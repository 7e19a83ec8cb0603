/**
 The time of one leg (internal/physics/runtime.go, `segmentSeconds`): a trapezoid when the cap is
 reached, a triangle otherwise. The lemmas here state the time without division and prove that it
 never rises when either boundary speed rises, and that it splits exactly at any point of the leg.
 */
module LegTime {
  import opened Reals
  import opened Kinematics

  /** Distance spent accelerating from `u` to the cap plus distance spent braking from it to `v`. */
  function RampDist(leg: Leg, r: Rates, u: real, v: real): real
    requires ValidRates(r)
  {
    (Sq(leg.capMS) - Sq(u)) / (2.0 * r.accel) + (Sq(leg.capMS) - Sq(v)) / (2.0 * r.decel)
  }

  /** The squared speed at which an acceleration from `u` meets a braking curve down to `v`. */
  function PeakSq(leg: Leg, r: Rates, u: real, v: real): real
    requires ValidRates(r)
  {
    (2.0 * r.accel * r.decel * leg.distM + r.decel * Sq(u) + r.accel * Sq(v)) / (r.accel + r.decel)
  }

  function LegSeconds(sqrt: real -> real, leg: Leg, r: Rates, u: real, v: real): real
    requires ValidRates(r) && 0.0 < leg.capMS
  {
    if leg.distM <= 0.0 then 0.0
    else if RampDist(leg, r, u, v) <= leg.distM then
      (leg.capMS - u) / r.accel + (leg.capMS - v) / r.decel
      + (leg.distM - RampDist(leg, r, u, v)) / leg.capMS
    else
      var peak := sqrt(Max(PeakSq(leg, r, u, v), Max(Sq(u), Sq(v))));
      (peak - u) / r.accel + (peak - v) / r.decel
  }

  function PeakScale(r: Rates): real {
    r.accel * r.decel
  }

  function CruiseScale(r: Rates, cap: real): real {
    2.0 * r.accel * r.decel * cap
  }

  lemma ScalesPositive(r: Rates, cap: real)
    requires ValidRates(r) && 0.0 < cap
    ensures 0.0 < PeakScale(r) && 0.0 < CruiseScale(r, cap)
  {
    MulPositive(r.accel, r.decel);
    MulPositive(2.0 * r.accel * r.decel, cap);
  }

  function Work(leg: Leg, r: Rates): real {
    2.0 * r.accel * r.decel * leg.distM
  }

  /** `PeakSq` and `RampDist` without their divisions. */
  function Budget(leg: Leg, r: Rates, u: real, v: real): real {
    Work(leg, r) + Mul(r.decel, Sq(u)) + Mul(r.accel, Sq(v))
  }

  lemma DivTimes(x: real, y: real)
    requires y != 0.0
    ensures x / y * y == x
  {
  }

  lemma RampDistTimes(leg: Leg, r: Rates, u: real, v: real)
    requires ValidRates(r)
    ensures Mul(RampDist(leg, r, u, v), 2.0 * PeakScale(r))
            == Mul(r.decel, Sq(leg.capMS) - Sq(u)) + Mul(r.accel, Sq(leg.capMS) - Sq(v))
  {
    hide Sq;
    var a, b := r.accel, r.decel;
    var x, y := Sq(leg.capMS) - Sq(u), Sq(leg.capMS) - Sq(v);
    var p, q := x / (2.0 * a), y / (2.0 * b);
    DivTimes(x, 2.0 * a);
    DivTimes(y, 2.0 * b);
    calc {
      (p + q) * (2.0 * a * b);
      p * (2.0 * a) * b + q * (2.0 * b) * a;
      x * b + y * a;
    }
  }

  /** The cap is reached exactly when the budget covers it. */
  lemma CruiseIff(leg: Leg, r: Rates, u: real, v: real)
    requires ValidRates(r)
    ensures RampDist(leg, r, u, v) <= leg.distM
            <==> Mul(r.accel + r.decel, Sq(leg.capMS)) <= Budget(leg, r, u, v)
  {
    hide Sq;
    var s := 2.0 * r.accel * r.decel;
    MulPositive(r.accel, r.decel);
    RampDistTimes(leg, r, u, v);
    var ramp := RampDist(leg, r, u, v);
    if ramp <= leg.distM {
      MulOrder(ramp, leg.distM, s);
    } else {
      MulPositive(ramp - leg.distM, s);
    }
    assert leg.distM * s == 2.0 * r.accel * r.decel * leg.distM;
    assert r.decel * (Sq(leg.capMS) - Sq(u)) + r.accel * (Sq(leg.capMS) - Sq(v))
        == Sq(leg.capMS) * (r.accel + r.decel) - r.decel * Sq(u) - r.accel * Sq(v);
  }

  lemma PeakSqTimes(leg: Leg, r: Rates, u: real, v: real)
    requires ValidRates(r)
    ensures PeakSq(leg, r, u, v) * (r.accel + r.decel) == Budget(leg, r, u, v)
  {
    hide Sq;
    DivTimes(Budget(leg, r, u, v), r.accel + r.decel);
  }

  /**
   The clamp on the peak has no effect exactly when each boundary speed can be reached from the
   other within the leg.
   */
  lemma ClampIdleIff(leg: Leg, r: Rates, u: real, v: real)
    requires ValidRates(r)
    ensures Max(PeakSq(leg, r, u, v), Max(Sq(u), Sq(v))) == PeakSq(leg, r, u, v)
            <==> Sq(v) <= Sq(u) + Gain(r.accel, leg.distM) && Sq(u) <= Sq(v) + Gain(r.decel, leg.distM)
  {
    var a, b, d, p := r.accel, r.decel, leg.distM, PeakSq(leg, r, u, v);
    PeakSqTimes(leg, r, u, v);
    ClampSide(a, b, d, p, Sq(u), Sq(v));
    assert 2.0 * b * a * d + a * Sq(v) + b * Sq(u) == Budget(leg, r, u, v);
    ClampSide(b, a, d, p, Sq(v), Sq(u));
    hide Sq;
  }

  lemma ClampSide(a: real, b: real, d: real, p: real, x: real, y: real)
    requires 0.0 < a && 0.0 < b
    requires p * (a + b) == 2.0 * a * b * d + b * x + a * y
    ensures x <= p <==> x <= y + Gain(b, d)
  {
    assert (p - x) * (a + b) == (y + Gain(b, d) - x) * a by {
      assert (p - x) * (a + b) == p * (a + b) - x * (a + b);
      assert (y + 2.0 * b * d - x) * a == a * y + 2.0 * a * b * d - a * x;
    }
    SameSign(p - x, a + b, y + Gain(b, d) - x, a);
  }

  // ----- The time without division -----

  lemma CruiseSeconds(sqrt: real -> real, leg: Leg, r: Rates, u: real, v: real)
    requires ValidRates(r) && 0.0 < leg.capMS && 0.0 < leg.distM
    requires RampDist(leg, r, u, v) <= leg.distM
    ensures Mul(LegSeconds(sqrt, leg, r, u, v), CruiseScale(r, leg.capMS))
            == Work(leg, r) + Mul(r.decel, Sq(leg.capMS - u)) + Mul(r.accel, Sq(leg.capMS - v))
  {
    var c, d := leg.capMS, leg.distM;
    var ramp, s := RampDist(leg, r, u, v), CruiseScale(r, c);
    var x, y, z := (c - u) / r.accel, (c - v) / r.decel, (d - ramp) / c;
    DivTimes(c - u, r.accel);
    DivTimes(c - v, r.decel);
    DivTimes(d - ramp, c);
    RampDistTimes(leg, r, u, v);
    RampShare(x, r.accel, r.decel, c, u, s);
    RampShare(y, r.decel, r.accel, c, v, s);
    CruiseShare(z, r, leg, ramp);
    hide Sq, Mul, CruiseScale, PeakScale, Work, RampDist;
    Distribute(x + y, z, s);
    Distribute(x, y, s);
  }

  lemma RampShare(x: real, a: real, b: real, c: real, u: real, s: real)
    requires x * a == c - u && s == 2.0 * a * b * c
    ensures Mul(x, s) == Mul(b, Sq(c) - Sq(u)) + Mul(b, Sq(c - u))
  {
    assert x * (2.0 * a * b * c) == (x * a) * (2.0 * b * c);
    assert (c - u) * (2.0 * b * c) == b * (Sq(c) - Sq(u)) + b * Sq(c - u);
  }

  lemma CruiseShare(z: real, r: Rates, leg: Leg, ramp: real)
    requires z * leg.capMS == leg.distM - ramp
    ensures Mul(z, CruiseScale(r, leg.capMS)) == Work(leg, r) - Mul(ramp, 2.0 * PeakScale(r))
  {
    var k := 2.0 * r.accel * r.decel;
    assert z * (k * leg.capMS) == (z * leg.capMS) * k;
    assert (leg.distM - ramp) * k == leg.distM * k - ramp * k;
  }

  /** A triangular leg: its peak lies between the boundary speeds and the cap and uses up the budget. */
  lemma PeakSeconds(sqrt: real -> real, leg: Leg, r: Rates, u: real, v: real) returns (peak: real)
    requires IsSquareRoot(sqrt) && ValidRates(r) && 0.0 < leg.distM
    requires StepOk(leg, r, u, v) && 0.0 < leg.capMS
    requires leg.distM < RampDist(leg, r, u, v)
    ensures u <= peak && v <= peak && 0.0 < peak < leg.capMS
    ensures peak == sqrt(PeakSq(leg, r, u, v))
    ensures Mul(r.accel + r.decel, Sq(peak)) == Budget(leg, r, u, v)
    ensures LegSeconds(sqrt, leg, r, u, v) == (peak - u) / r.accel + (peak - v) / r.decel
    ensures Mul(LegSeconds(sqrt, leg, r, u, v), PeakScale(r))
            == Mul(r.decel, peak - u) + Mul(r.accel, peak - v)
  {
    peak := sqrt(PeakSq(leg, r, u, v));
    PeakPlaced(sqrt, leg, r, u, v, peak);
    ClampIdleIff(leg, r, u, v);
    hide PeakSq, IsSquareRoot, Sq, RampDist, Budget, Gain, PeakScale, Mul;
    assert LegSeconds(sqrt, leg, r, u, v) == (peak - u) / r.accel + (peak - v) / r.decel;
    hide LegSeconds;
    PeakShares(r, peak - u, peak - v);
  }

  lemma PeakShares(r: Rates, rise: real, fall: real)
    requires ValidRates(r)
    ensures Mul(rise / r.accel + fall / r.decel, PeakScale(r)) == Mul(r.decel, rise) + Mul(r.accel, fall)
  {
    DivTimes(rise, r.accel);
    DivTimes(fall, r.decel);
    SideShare(rise / r.accel, r.accel, r.decel, rise);
    SideShare(fall / r.decel, r.decel, r.accel, fall);
    assert r.decel * r.accel == PeakScale(r);
    hide Mul, PeakScale;
    Distribute(rise / r.accel, fall / r.decel, PeakScale(r));
  }

  lemma SideShare(x: real, a: real, b: real, gap: real)
    requires x * a == gap
    ensures Mul(x, a * b) == Mul(b, gap)
  {
    assert x * (a * b) == (x * a) * b;
  }

  lemma PeakPlaced(sqrt: real -> real, leg: Leg, r: Rates, u: real, v: real, peak: real)
    requires IsSquareRoot(sqrt) && ValidRates(r) && 0.0 < leg.distM
    requires StepOk(leg, r, u, v) && 0.0 < leg.capMS
    requires leg.distM < RampDist(leg, r, u, v) && peak == sqrt(PeakSq(leg, r, u, v))
    ensures u <= peak && v <= peak && 0.0 < peak < leg.capMS
    ensures Mul(r.accel + r.decel, Sq(peak)) == Budget(leg, r, u, v)
  {
    ClampIdleIff(leg, r, u, v);
    SqNonNegative(u);
    PeakSqTimes(leg, r, u, v);
    CruiseIff(leg, r, u, v);
    BudgetPositive(leg, r, u, v);
    hide PeakSq, Budget, RampDist, Gain, Sq;
    assert Sq(peak) == PeakSq(leg, r, u, v);
    hide IsSquareRoot;
    assert Mul(r.accel + r.decel, Sq(peak)) == Budget(leg, r, u, v);
    BelowBudget(r.accel + r.decel, peak, leg.capMS);
    hide Mul;
    SqOrder(u, peak);
    SqOrder(v, peak);
  }

  lemma BelowBudget(w: real, x: real, c: real)
    requires 0.0 < w && 0.0 <= x && 0.0 < c && 0.0 < Mul(w, Sq(x)) < Mul(w, Sq(c))
    ensures 0.0 < x < c
  {
    SqOrder(c, x);
    if Sq(c) <= Sq(x) {
      MulOrder(Sq(c), Sq(x), w);
    }
  }

  lemma BudgetPositive(leg: Leg, r: Rates, u: real, v: real)
    requires ValidRates(r) && 0.0 < leg.distM
    ensures 0.0 < Budget(leg, r, u, v)
  {
    SqNonNegative(u);
    SqNonNegative(v);
    hide Sq;
    MulPositive(r.accel, r.decel);
    MulPositive(r.accel * r.decel, leg.distM);
    MulNonNegative(r.decel, Sq(u));
    MulNonNegative(r.accel, Sq(v));
  }

  // ----- Faster boundaries never cost time -----

  lemma BothPeaks(a: real, b: real, k: real, u: real, v: real, p: real, u': real, v': real, p': real)
    requires 0.0 < a && 0.0 < b && 0.0 < p && 0.0 < p'
    requires u <= u' && v <= v' && u <= p && v <= p && u' <= p' && v' <= p'
    requires Mul(a + b, Sq(p)) == k + Mul(b, Sq(u)) + Mul(a, Sq(v))
    requires Mul(a + b, Sq(p')) == k + Mul(b, Sq(u')) + Mul(a, Sq(v'))
    ensures Mul(b, p' - u') + Mul(a, p' - v') <= Mul(b, p - u) + Mul(a, p - v)
  {
    PeakRise(a, b, k, u, v, p, u', v', p');
    PeakGap(a, b, u, v, p, u', v', p');
  }

  lemma PeakRise(a: real, b: real, k: real, u: real, v: real, p: real, u': real, v': real, p': real)
    requires 0.0 < a && 0.0 < b && 0.0 < p && 0.0 < p'
    requires u <= u' && v <= v' && u <= p && v <= p && u' <= p' && v' <= p'
    requires Mul(a + b, Sq(p)) == k + Mul(b, Sq(u)) + Mul(a, Sq(v))
    requires Mul(a + b, Sq(p')) <= k + Mul(b, Sq(u')) + Mul(a, Sq(v'))
    ensures Mul(a + b, p' - p) <= Mul(b, u' - u) + Mul(a, v' - v)
  {
    var s := p + p';
    var x, y, z := Mul(a + b, p' - p), Mul(b, u' - u), Mul(a, v' - v);
    SquareRise(b, u, u', s);
    SquareRise(a, v, v', s);
    SquareDiff(a + b, p, p');
    hide Sq, Mul;
    assert Mul(x, s) <= Mul(y + z, s) by { Distribute(y, z, s); }
    CancelMul(x, y + z, s);
  }

  lemma Reassociate(t: real, r: Rates, c: real)
    ensures Mul(t, CruiseScale(r, c)) == Mul(2.0 * c, Mul(t, PeakScale(r)))
  {
  }

  lemma CancelMul(x: real, y: real, s: real)
    requires 0.0 < s
    requires Mul(x, s) <= Mul(y, s)
    ensures x <= y
  {
    CancelFactor(x, y, s);
  }

  lemma Distribute(x: real, y: real, s: real)
    ensures Mul(x + y, s) == Mul(x, s) + Mul(y, s)
  {
  }

  lemma PeakGap(a: real, b: real, u: real, v: real, p: real, u': real, v': real, p': real)
    ensures Mul(b, p - u) + Mul(a, p - v) - (Mul(b, p' - u') + Mul(a, p' - v'))
            == Mul(b, u' - u) + Mul(a, v' - v) - Mul(a + b, p' - p)
  {
  }

  lemma SquareDiff(w: real, u: real, u': real)
    ensures Mul(Mul(w, u' - u), u + u') == Mul(w, Sq(u')) - Mul(w, Sq(u))
  {
  }

  lemma SquareRise(w: real, u: real, u': real, s: real)
    requires 0.0 < w && u <= u' && u + u' <= s
    ensures Mul(w, Sq(u')) - Mul(w, Sq(u)) <= Mul(Mul(w, u' - u), s)
  {
    MulNonNegative(w, u' - u);
    MulOrder(u + u', s, w * (u' - u));
    SquareDiff(w, u, u');
  }

  /** A triangular leg against one that reaches the cap from faster boundaries. */
  lemma PeakThenCruise(a: real, b: real, c: real, k: real, u: real, v: real, p: real, u': real, v': real)
    requires 0.0 < a && 0.0 < b && 0.0 < p < c
    requires u <= u' <= c && v <= v' <= c && u <= p && v <= p
    requires Mul(a + b, Sq(p)) == k + Mul(b, Sq(u)) + Mul(a, Sq(v))
    requires Mul(a + b, Sq(c)) <= k + Mul(b, Sq(u')) + Mul(a, Sq(v'))
    ensures k + Mul(b, Sq(c - u')) + Mul(a, Sq(c - v')) <= Mul(2.0 * c, Mul(b, p - u) + Mul(a, p - v))
  {
    var gap := c - p;
    var x, y, z := Mul(a + b, gap), Mul(b, u' - u), Mul(a, v' - v);
    PeakRise(a, b, k, u, v, p, u', v', c);
    assert Mul(x, gap) <= Mul(y + z, gap) by { MulOrder(x, y + z, gap); }
    GapBound(b, c, u, u', gap);
    GapBound(a, c, v, v', gap);
    CruiseGap(a, b, c, k, u, v, p, u', v');
    hide Sq, Mul;
    Distribute(y, z, gap);
  }

  lemma GapBound(w: real, c: real, u: real, u': real, gap: real)
    requires 0.0 < w && u <= u' && u + u' <= 2.0 * c - gap
    ensures Mul(Mul(w, u' - u), gap) <= Mul(w, Sq(c - u)) - Mul(w, Sq(c - u'))
  {
    MulNonNegative(w, u' - u);
    MulOrder(gap, 2.0 * c - u - u', w * (u' - u));
    assert w * (u' - u) * (2.0 * c - u - u') == w * Sq(c - u) - w * Sq(c - u');
  }

  lemma CruiseGap(a: real, b: real, c: real, k: real, u: real, v: real, p: real, u': real, v': real)
    requires Mul(a + b, Sq(p)) == k + Mul(b, Sq(u)) + Mul(a, Sq(v))
    ensures Mul(2.0 * c, Mul(b, p - u) + Mul(a, p - v)) - (k + Mul(b, Sq(c - u')) + Mul(a, Sq(c - v')))
            == (Mul(b, Sq(c - u)) - Mul(b, Sq(c - u'))) + (Mul(a, Sq(c - v)) - Mul(a, Sq(c - v')))
               - Mul(Mul(a + b, c - p), c - p)
  {
    SideGap(b, c, u, p);
    SideGap(a, c, v, p);
    SumOfSides(a, b, c, p, u, v);
    hide Sq, Mul;
  }

  lemma SideGap(w: real, c: real, u: real, p: real)
    ensures Mul(2.0 * c, Mul(w, p - u)) - (Mul(w, Sq(p)) - Mul(w, Sq(u))) == Mul(w, Sq(c - u)) - Mul(w, Sq(c - p))
  {
  }

  lemma SumOfSides(a: real, b: real, c: real, p: real, u: real, v: real)
    ensures Mul(2.0 * c, Mul(b, p - u) + Mul(a, p - v)) == Mul(2.0 * c, Mul(b, p - u)) + Mul(2.0 * c, Mul(a, p - v))
    ensures Mul(Mul(a + b, c - p), c - p) == Mul(a, Sq(c - p)) + Mul(b, Sq(c - p))
    ensures Mul(a + b, Sq(p)) == Mul(a, Sq(p)) + Mul(b, Sq(p))
  {
    WeightSum(2.0 * c, Mul(b, p - u), Mul(a, p - v));
    Distribute(a, b, Sq(p));
    Distribute(a, b, Sq(c - p));
    Reassociated(a + b, c - p);
    hide Mul, Sq;
  }

  lemma Reassociated(w: real, x: real)
    ensures Mul(Mul(w, x), x) == Mul(w, Sq(x))
  {
  }

  /** Raising either boundary speed never makes a leg slower. */
  lemma FasterBoundaries(sqrt: real -> real, leg: Leg, r: Rates, u: real, v: real, u': real, v': real)
    requires IsSquareRoot(sqrt) && ValidRates(r) && 0.0 < leg.capMS
    requires StepOk(leg, r, u, v) && StepOk(leg, r, u', v')
    requires u <= u' && v <= v'
    ensures LegSeconds(sqrt, leg, r, u', v') <= LegSeconds(sqrt, leg, r, u, v)
  {
    hide Sq, Gain, IsSquareRoot;
    if leg.distM <= 0.0 {
    } else if RampDist(leg, r, u, v) <= leg.distM {
      FasterCruises(sqrt, leg, r, u, v, u', v');
    } else if RampDist(leg, r, u', v') <= leg.distM {
      FasterReachesCap(sqrt, leg, r, u, v, u', v');
    } else {
      FasterPeaks(sqrt, leg, r, u, v, u', v');
    }
  }

  lemma FasterPeaks(sqrt: real -> real, leg: Leg, r: Rates, u: real, v: real, u': real, v': real)
    requires IsSquareRoot(sqrt) && ValidRates(r) && 0.0 < leg.capMS && 0.0 < leg.distM
    requires StepOk(leg, r, u, v) && StepOk(leg, r, u', v')
    requires u <= u' && v <= v'
    requires leg.distM < RampDist(leg, r, u, v) && leg.distM < RampDist(leg, r, u', v')
    ensures LegSeconds(sqrt, leg, r, u', v') <= LegSeconds(sqrt, leg, r, u, v)
  {
    hide Sq, Mul, CruiseScale, PeakScale, LegSeconds, RampDist, IsSquareRoot;
    var p := PeakSeconds(sqrt, leg, r, u, v);
    var p' := PeakSeconds(sqrt, leg, r, u', v');
    BothPeaks(r.accel, r.decel, Work(leg, r), u, v, p, u', v', p');
    ScalesPositive(r, leg.capMS);
    CancelMul(LegSeconds(sqrt, leg, r, u', v'), LegSeconds(sqrt, leg, r, u, v), PeakScale(r));
  }

  lemma BudgetOrder(leg: Leg, r: Rates, u: real, v: real, u': real, v': real)
    requires ValidRates(r)
    requires 0.0 <= u <= u' && 0.0 <= v <= v'
    ensures Budget(leg, r, u, v) <= Budget(leg, r, u', v')
  {
    SqOrder(u, u');
    SqOrder(v, v');
    hide Sq;
    WeightOrder(r.decel, Sq(u), Sq(u'));
    WeightOrder(r.accel, Sq(v), Sq(v'));
  }

  lemma WeightOrder(w: real, x: real, y: real)
    requires 0.0 < w && x <= y
    ensures Mul(w, x) <= Mul(w, y)
  {
    MulOrder(x, y, w);
  }

  lemma FasterCruises(sqrt: real -> real, leg: Leg, r: Rates, u: real, v: real, u': real, v': real)
    requires ValidRates(r) && 0.0 < leg.capMS && 0.0 < leg.distM
    requires 0.0 <= u <= u' <= leg.capMS && 0.0 <= v <= v' <= leg.capMS
    requires RampDist(leg, r, u, v) <= leg.distM
    ensures LegSeconds(sqrt, leg, r, u', v') <= LegSeconds(sqrt, leg, r, u, v)
  {
    hide Sq, Mul, CruiseScale, PeakScale, LegSeconds, Budget, RampDist;
    var c := leg.capMS;
    BudgetOrder(leg, r, u, v, u', v');
    CruiseIff(leg, r, u, v);
    CruiseIff(leg, r, u', v');
    CruiseSeconds(sqrt, leg, r, u, v);
    CruiseSeconds(sqrt, leg, r, u', v');
    SqOrder(c - u', c - u);
    SqOrder(c - v', c - v);
    WeightOrder(r.decel, Sq(c - u'), Sq(c - u));
    WeightOrder(r.accel, Sq(c - v'), Sq(c - v));
    ScalesPositive(r, c);
    CancelMul(LegSeconds(sqrt, leg, r, u', v'), LegSeconds(sqrt, leg, r, u, v), CruiseScale(r, c));
  }

  lemma FasterReachesCap(sqrt: real -> real, leg: Leg, r: Rates, u: real, v: real, u': real, v': real)
    requires IsSquareRoot(sqrt) && ValidRates(r) && 0.0 < leg.capMS && 0.0 < leg.distM
    requires StepOk(leg, r, u, v) && StepOk(leg, r, u', v')
    requires u <= u' && v <= v'
    requires leg.distM < RampDist(leg, r, u, v)
    requires RampDist(leg, r, u', v') <= leg.distM
    ensures LegSeconds(sqrt, leg, r, u', v') <= LegSeconds(sqrt, leg, r, u, v)
  {
    hide Sq, Mul, CruiseScale, PeakScale, LegSeconds, RampDist, IsSquareRoot;
    var a, b, c := r.accel, r.decel, leg.capMS;
    var t, t' := LegSeconds(sqrt, leg, r, u, v), LegSeconds(sqrt, leg, r, u', v');
    var p := PeakSeconds(sqrt, leg, r, u, v);
    CruiseSeconds(sqrt, leg, r, u', v');
    CruiseIff(leg, r, u', v');
    PeakThenCruise(a, b, c, Work(leg, r), u, v, p, u', v');
    Reassociate(t, r, c);
    ScalesPositive(r, c);
    CancelMul(t', t, CruiseScale(r, c));
  }

  // ----- Cutting a leg -----

  /** Running a leg backwards with the rates swapped takes the same time. */
  lemma Mirror(sqrt: real -> real, leg: Leg, r: Rates, u: real, v: real)
    requires ValidRates(r) && 0.0 < leg.capMS
    ensures LegSeconds(sqrt, leg, r, u, v) == LegSeconds(sqrt, leg, Rates(r.decel, r.accel), v, u)
    ensures StepOk(leg, r, u, v) <==> StepOk(leg, Rates(r.decel, r.accel), v, u)
  {
    var r' := Rates(r.decel, r.accel);
    assert RampDist(leg, r, u, v) == RampDist(leg, r', v, u);
    assert 2.0 * r.accel * r.decel * leg.distM + r.decel * Sq(u) + r.accel * Sq(v)
        == 2.0 * r'.accel * r'.decel * leg.distM + r'.decel * Sq(v) + r'.accel * Sq(u);
    assert PeakSq(leg, r, u, v) == PeakSq(leg, r', v, u);
    hide Sq, RampDist, PeakSq;
    assert Max(Sq(u), Sq(v)) == Max(Sq(v), Sq(u));
  }

  /** The speed at `d1` metres into a leg of `d1 + d2` metres driven as fast as it can be. */
  function CutSpeed(sqrt: real -> real, d1: real, d2: real, cap: real, r: Rates, u: real, v: real): real {
    Min(cap, Min(sqrt(Sq(u) + Gain(r.accel, d1)), sqrt(Sq(v) + Gain(r.decel, d2))))
  }

  lemma GainSum(rate: real, d1: real, d2: real)
    ensures Gain(rate, d1 + d2) == Gain(rate, d1) + Gain(rate, d2)
  {
  }

  /** The cut speed is reachable from both ends, and no other reachable speed exceeds it. */
  lemma CutSpeedOk(sqrt: real -> real, d1: real, d2: real, cap: real, r: Rates, u: real, v: real)
    requires IsSquareRoot(sqrt) && ValidRates(r) && 0.0 < cap && 0.0 < d1 && 0.0 < d2
    requires StepOk(Leg(d1 + d2, cap), r, u, v)
    ensures StepOk(Leg(d1, cap), r, u, CutSpeed(sqrt, d1, d2, cap, r, u, v))
    ensures StepOk(Leg(d2, cap), r, CutSpeed(sqrt, d1, d2, cap, r, u, v), v)
  {
    var m := CutSpeed(sqrt, d1, d2, cap, r, u, v);
    var x, y := sqrt(Sq(u) + Gain(r.accel, d1)), sqrt(Sq(v) + Gain(r.decel, d2));
    SqNonNegative(u);
    SqNonNegative(v);
    GainNonNegative(r.accel, d1);
    GainNonNegative(r.accel, d2);
    GainNonNegative(r.decel, d1);
    GainNonNegative(r.decel, d2);
    GainSum(r.accel, d1, d2);
    GainSum(r.decel, d1, d2);
    hide Sq, Gain;
    SqOrder(m, x);
    SqOrder(m, y);
    SqOrder(u, cap);
    SqOrder(v, cap);
  }

  lemma CutSpeedGreatest(sqrt: real -> real, d1: real, d2: real, cap: real, r: Rates, u: real, v: real, w: real)
    requires IsSquareRoot(sqrt) && ValidRates(r) && 0.0 < cap && 0.0 < d1 && 0.0 < d2
    requires StepOk(Leg(d1, cap), r, u, w) && StepOk(Leg(d2, cap), r, w, v)
    ensures w <= CutSpeed(sqrt, d1, d2, cap, r, u, v)
  {
    SqNonNegative(u);
    SqNonNegative(v);
    GainNonNegative(r.accel, d1);
    GainNonNegative(r.decel, d2);
    hide Sq, Gain;
    SqOrder(w, sqrt(Sq(u) + Gain(r.accel, d1)));
    SqOrder(w, sqrt(Sq(v) + Gain(r.decel, d2)));
  }

  /** The cut lies where the train cruises at the cap. */
  lemma CutWhileCruising(sqrt: real -> real, d1: real, d2: real, c: real, r: Rates, u: real, v: real)
    requires ValidRates(r) && 0.0 < c && 0.0 < d1 && 0.0 < d2
    requires Sq(c) <= Sq(u) + Gain(r.accel, d1) && Sq(c) <= Sq(v) + Gain(r.decel, d2)
    ensures LegSeconds(sqrt, Leg(d1 + d2, c), r, u, v)
            == LegSeconds(sqrt, Leg(d1, c), r, u, c) + LegSeconds(sqrt, Leg(d2, c), r, c, v)
  {
    var a, b := r.accel, r.decel;
    var whole, left, right := Leg(d1 + d2, c), Leg(d1, c), Leg(d2, c);
    var s := CruiseScale(r, c);
    CruiseBudgets(d1, d2, c, r, u, v);
    CruiseIff(whole, r, u, v);
    CruiseIff(left, r, u, c);
    CruiseIff(right, r, c, v);
    CruiseSeconds(sqrt, whole, r, u, v);
    CruiseSeconds(sqrt, left, r, u, c);
    CruiseSeconds(sqrt, right, r, c, v);
    ScalesPositive(r, c);
    assert Mul(b, Sq(c - c)) == 0.0 && Mul(a, Sq(c - c)) == 0.0;
    WorkSum(d1, d2, c, r);
    hide Sq, Mul, CruiseScale, PeakScale, LegSeconds, Budget, RampDist, Work;
    var t, t1, t2 := LegSeconds(sqrt, whole, r, u, v), LegSeconds(sqrt, left, r, u, c), LegSeconds(sqrt, right, r, c, v);
    CancelSum(t, t1, t2, s);
  }

  lemma WorkSum(d1: real, d2: real, c: real, r: Rates)
    ensures Work(Leg(d1 + d2, c), r) == Work(Leg(d1, c), r) + Work(Leg(d2, c), r)
  {
  }

  lemma CruiseBudgets(d1: real, d2: real, c: real, r: Rates, u: real, v: real)
    requires ValidRates(r)
    requires Sq(c) <= Sq(u) + Gain(r.accel, d1) && Sq(c) <= Sq(v) + Gain(r.decel, d2)
    ensures var cap := Mul(r.accel + r.decel, Sq(c));
            && cap <= Budget(Leg(d1 + d2, c), r, u, v)
            && cap <= Budget(Leg(d1, c), r, u, c)
            && cap <= Budget(Leg(d2, c), r, c, v)
  {
    var a, b := r.accel, r.decel;
    ShareBound(b, a, Sq(c), Sq(u), d1);
    ShareBound(a, b, Sq(c), Sq(v), d2);
    Distribute(a, b, Sq(c));
    WorkSum(d1, d2, c, r);
    assert 2.0 * a * b * d2 == 2.0 * b * a * d2;
    hide Sq, Mul;
  }

  lemma ShareBound(w: real, rate: real, x: real, y: real, d: real)
    requires 0.0 < w && x <= y + Gain(rate, d)
    ensures Mul(w, x) <= Mul(w, y) + 2.0 * rate * w * d
  {
    MulOrder(x, y + Gain(rate, d), w);
    assert (y + Gain(rate, d)) * w == w * y + 2.0 * rate * w * d;
  }

  /** The cut lies on the acceleration ramp. */
  lemma CutWhileAccelerating(sqrt: real -> real, d1: real, d2: real, c: real, r: Rates, u: real, v: real, m: real)
    requires IsSquareRoot(sqrt) && ValidRates(r) && 0.0 < d1 && 0.0 < d2
    requires StepOk(Leg(d1 + d2, c), r, u, v) && StepOk(Leg(d1, c), r, u, m) && StepOk(Leg(d2, c), r, m, v)
    requires m < c && Sq(m) == Sq(u) + Gain(r.accel, d1)
    ensures LegSeconds(sqrt, Leg(d1 + d2, c), r, u, v)
            == LegSeconds(sqrt, Leg(d1, c), r, u, m) + LegSeconds(sqrt, Leg(d2, c), r, m, v)
  {
    hide Sq, Gain, LegSeconds, Budget, RampDist, IsSquareRoot, StepOk;
    assert 0.0 < c by { StepCapPositive(d1, c, r, u, m); }
    var whole, right := Leg(d1 + d2, c), Leg(d2, c);
    AccelerationSeconds(sqrt, d1, c, r, u, m);
    BudgetKept(d1, d2, c, r, u, v, m);
    CruiseIff(whole, r, u, v);
    CruiseIff(right, r, m, v);
    if RampDist(whole, r, u, v) <= whole.distM {
      AccelerateThenCruise(sqrt, d1, d2, c, r, u, v, m);
    } else {
      AccelerateThenPeak(sqrt, d1, d2, c, r, u, v, m);
    }
  }

  lemma StepCapPositive(d1: real, c: real, r: Rates, u: real, m: real)
    requires StepOk(Leg(d1, c), r, u, m) && m < c
    ensures 0.0 < c
  {
  }

  /** An acceleration that fills the leg uses up its budget. */
  lemma RampBudget(d: real, c: real, r: Rates, u: real, m: real)
    requires Sq(m) == Sq(u) + Gain(r.accel, d)
    ensures Mul(r.accel + r.decel, Sq(m)) == Budget(Leg(d, c), r, u, m)
  {
    hide Sq;
    var a, b := r.accel, r.decel;
    assert b * (Sq(u) + 2.0 * a * d) == b * Sq(u) + 2.0 * a * b * d;
  }

  lemma BelowCap(w: real, m: real, c: real)
    requires 0.0 < w && 0.0 <= m < c
    ensures Mul(w, Sq(m)) < Mul(w, Sq(c))
  {
    SqOrder(c, m);
    hide Sq;
    MulPositive(w, Sq(c) - Sq(m));
  }

  lemma SameSpeed(w: real, p: real, m: real)
    requires 0.0 < w && 0.0 <= p && 0.0 <= m && Mul(w, Sq(p)) == Mul(w, Sq(m))
    ensures p == m
  {
    CancelEqual(Sq(p), Sq(m), w);
    SqEqual(p, m);
  }

  lemma AccelerationSeconds(sqrt: real -> real, d: real, c: real, r: Rates, u: real, m: real)
    requires IsSquareRoot(sqrt) && ValidRates(r) && 0.0 < d && 0.0 < c
    requires StepOk(Leg(d, c), r, u, m)
    requires m < c && Sq(m) == Sq(u) + Gain(r.accel, d)
    ensures Mul(LegSeconds(sqrt, Leg(d, c), r, u, m), PeakScale(r)) == Mul(r.decel, m - u)
  {
    hide IsSquareRoot, LegSeconds, RampDist, Sq, Gain, Budget, PeakScale;
    var leg, w := Leg(d, c), r.accel + r.decel;
    RampBudget(d, c, r, u, m);
    BelowCap(w, m, c);
    CruiseIff(leg, r, u, m);
    var p := PeakSeconds(sqrt, leg, r, u, m);
    SameSpeed(w, p, m);
    NoMul(r.accel, p - m);
    hide Mul;
  }

  lemma NoMul(x: real, y: real)
    requires y == 0.0
    ensures Mul(x, y) == 0.0
  {
  }

  lemma BudgetKept(d1: real, d2: real, c: real, r: Rates, u: real, v: real, m: real)
    requires Sq(m) == Sq(u) + Gain(r.accel, d1)
    ensures Budget(Leg(d2, c), r, m, v) == Budget(Leg(d1 + d2, c), r, u, v)
  {
    hide Sq;
    var a, b := r.accel, r.decel;
    assert b * (Sq(u) + 2.0 * a * d1) == b * Sq(u) + 2.0 * a * b * d1;
    assert 2.0 * a * b * (d1 + d2) == 2.0 * a * b * d1 + 2.0 * a * b * d2;
  }

  lemma AccelerateThenCruise(sqrt: real -> real, d1: real, d2: real, c: real, r: Rates, u: real, v: real, m: real)
    requires ValidRates(r) && 0.0 < d1 && 0.0 < d2 && 0.0 < c
    requires Sq(m) == Sq(u) + Gain(r.accel, d1)
    requires RampDist(Leg(d1 + d2, c), r, u, v) <= d1 + d2 && RampDist(Leg(d2, c), r, m, v) <= d2
    requires Mul(LegSeconds(sqrt, Leg(d1, c), r, u, m), PeakScale(r)) == Mul(r.decel, m - u)
    ensures LegSeconds(sqrt, Leg(d1 + d2, c), r, u, v)
            == LegSeconds(sqrt, Leg(d1, c), r, u, m) + LegSeconds(sqrt, Leg(d2, c), r, m, v)
  {
    var a, b := r.accel, r.decel;
    CruiseSeconds(sqrt, Leg(d1 + d2, c), r, u, v);
    CruiseSeconds(sqrt, Leg(d2, c), r, m, v);
    var t, t1, t2 := LegSeconds(sqrt, Leg(d1 + d2, c), r, u, v), LegSeconds(sqrt, Leg(d1, c), r, u, m),
                     LegSeconds(sqrt, Leg(d2, c), r, m, v);
    var s := CruiseScale(r, c);
    ScalesPositive(r, c);
    RampTime(a, b, c, d1, u, m);
    Reassociate(t1, r, c);
    WorkSum(d1, d2, c, r);
    hide Sq, Mul, CruiseScale, PeakScale, LegSeconds, RampDist;
    CancelSum(t, t1, t2, s);
  }

  lemma RampTime(a: real, b: real, c: real, d1: real, u: real, m: real)
    requires Sq(m) == Sq(u) + Gain(a, d1)
    ensures 2.0 * a * b * d1 + Mul(b, Sq(c - u)) == Mul(2.0 * c, Mul(b, m - u)) + Mul(b, Sq(c - m))
  {
    assert b * (Sq(m) - Sq(u)) == 2.0 * a * b * d1;
    assert b * (Sq(m) - Sq(u)) + b * Sq(c - u) == 2.0 * c * (b * (m - u)) + b * Sq(c - m);
  }

  lemma AccelerateThenPeak(sqrt: real -> real, d1: real, d2: real, c: real, r: Rates, u: real, v: real, m: real)
    requires IsSquareRoot(sqrt) && ValidRates(r) && 0.0 < d1 && 0.0 < d2 && 0.0 < c
    requires StepOk(Leg(d1 + d2, c), r, u, v) && StepOk(Leg(d2, c), r, m, v)
    requires Budget(Leg(d2, c), r, m, v) == Budget(Leg(d1 + d2, c), r, u, v)
    requires d1 + d2 < RampDist(Leg(d1 + d2, c), r, u, v) && d2 < RampDist(Leg(d2, c), r, m, v)
    requires Mul(LegSeconds(sqrt, Leg(d1, c), r, u, m), PeakScale(r)) == Mul(r.decel, m - u)
    ensures LegSeconds(sqrt, Leg(d1 + d2, c), r, u, v)
            == LegSeconds(sqrt, Leg(d1, c), r, u, m) + LegSeconds(sqrt, Leg(d2, c), r, m, v)
  {
    hide Sq, Mul, Gain, CruiseScale, PeakScale, Work, LegSeconds, Budget, RampDist, IsSquareRoot;
    var a, b := r.accel, r.decel;
    var p := PeakSeconds(sqrt, Leg(d1 + d2, c), r, u, v);
    var q := PeakSeconds(sqrt, Leg(d2, c), r, m, v);
    SamePeak(a + b, p, q);
    var t, t1, t2 := LegSeconds(sqrt, Leg(d1 + d2, c), r, u, v), LegSeconds(sqrt, Leg(d1, c), r, u, m),
                     LegSeconds(sqrt, Leg(d2, c), r, m, v);
    WeightSum(b, m - u, p - m);
    ScalesPositive(r, c);
    CancelSum(t, t1, t2, PeakScale(r));
  }

  lemma WeightSum(w: real, x: real, y: real)
    ensures Mul(w, x + y) == Mul(w, x) + Mul(w, y)
  {
  }

  lemma SamePeak(s: real, p: real, q: real)
    requires 0.0 < s && 0.0 < p && 0.0 < q
    requires Mul(s, Sq(p)) == Mul(s, Sq(q))
    ensures p == q
  {
    CancelEqual(Sq(p), Sq(q), s);
    SqEqual(p, q);
  }

  lemma CancelSum(t: real, t1: real, t2: real, s: real)
    requires 0.0 < s
    requires Mul(t, s) == Mul(t1, s) + Mul(t2, s)
    ensures t == t1 + t2
  {
    Distribute(t1, t2, s);
    CancelEqual(t, t1 + t2, s);
  }

  /** At the cut speed the two parts take exactly as long as the whole leg. */
  lemma CutExact(sqrt: real -> real, d1: real, d2: real, c: real, r: Rates, u: real, v: real)
    requires IsSquareRoot(sqrt) && ValidRates(r) && 0.0 < c && 0.0 < d1 && 0.0 < d2
    requires StepOk(Leg(d1 + d2, c), r, u, v)
    ensures var m := CutSpeed(sqrt, d1, d2, c, r, u, v);
            LegSeconds(sqrt, Leg(d1 + d2, c), r, u, v)
            == LegSeconds(sqrt, Leg(d1, c), r, u, m) + LegSeconds(sqrt, Leg(d2, c), r, m, v)
  {
    var m := CutSpeed(sqrt, d1, d2, c, r, u, v);
    var x, y := sqrt(Sq(u) + Gain(r.accel, d1)), sqrt(Sq(v) + Gain(r.decel, d2));
    CutSpeedOk(sqrt, d1, d2, c, r, u, v);
    CutRoots(sqrt, d1, d2, c, r, u, v);
    hide Sq, Gain, LegSeconds, IsSquareRoot, StepOk;
    if m == c {
      CutWhileCruising(sqrt, d1, d2, c, r, u, v);
    } else if m == x {
      CutWhileAccelerating(sqrt, d1, d2, c, r, u, v, m);
    } else {
      var r' := Rates(r.decel, r.accel);
      Mirror(sqrt, Leg(d1 + d2, c), r, u, v);
      Mirror(sqrt, Leg(d1, c), r, u, m);
      Mirror(sqrt, Leg(d2, c), r, m, v);
      assert d2 + d1 == d1 + d2;
      CutWhileAccelerating(sqrt, d2, d1, c, r', v, u, m);
    }
  }

  lemma CutRoots(sqrt: real -> real, d1: real, d2: real, c: real, r: Rates, u: real, v: real)
    requires IsSquareRoot(sqrt) && ValidRates(r) && 0.0 < c && 0.0 < d1 && 0.0 < d2
    ensures var x, y := sqrt(Sq(u) + Gain(r.accel, d1)), sqrt(Sq(v) + Gain(r.decel, d2));
            && Sq(x) == Sq(u) + Gain(r.accel, d1) && Sq(y) == Sq(v) + Gain(r.decel, d2)
            && (c <= x ==> Sq(c) <= Sq(x)) && (c <= y ==> Sq(c) <= Sq(y))
  {
    SqNonNegative(u);
    SqNonNegative(v);
    GainNonNegative(r.accel, d1);
    GainNonNegative(r.decel, d2);
    hide Sq, Gain;
    SqOrder(c, sqrt(Sq(u) + Gain(r.accel, d1)));
    SqOrder(c, sqrt(Sq(v) + Gain(r.decel, d2)));
  }
}
