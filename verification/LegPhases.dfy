/**
 What the time of a leg means (internal/physics/runtime.go, `segmentSeconds`): it is the time of a run
 that speeds up, holds and slows down, and that covers exactly the leg's length.
 */
module LegPhases {
  import opened Reals
  import opened Kinematics
  import opened LegTime

  /** Seconds spent speeding up to `top`, holding it, and slowing down from it. */
  datatype Phases = Phases(top: real, upSecs: real, holdSecs: real, downSecs: real)

  /** Distance covered at a steadily changing speed: the mean speed times the time. */
  function Ramp(from: real, to: real, secs: real): real {
    (from + to) / 2.0 * secs
  }

  function Covered(p: Phases, u: real, v: real): real {
    Ramp(u, p.top, p.upSecs) + Mul(p.top, p.holdSecs) + Ramp(v, p.top, p.downSecs)
  }

  lemma RampDistance(from: real, to: real, rate: real, secs: real)
    requires to - from == Mul(rate, secs)
    ensures Mul(Ramp(from, to, secs), 2.0 * rate) == Sq(to) - Sq(from)
  {
    calc {
      (from + to) / 2.0 * secs * (2.0 * rate);
      (from + to) * (rate * secs);
      (from + to) * (to - from);
    }
  }

  /** Two ramps of which the distances, weighted by the rates, add up as the squared speeds do. */
  lemma RampsTogether(x: real, y: real, a: real, b: real, p: real, q: real)
    requires Mul(x, 2.0 * a) == p && Mul(y, 2.0 * b) == q
    ensures Mul(x + y, 2.0 * a * b) == Mul(b, p) + Mul(a, q)
  {
    calc {
      (x + y) * (2.0 * a * b);
      x * (2.0 * a) * b + y * (2.0 * b) * a;
      p * b + q * a;
    }
  }

  lemma ScaledDistance(x: real, d: real, a: real, b: real)
    requires 0.0 < a && 0.0 < b && Mul(x, 2.0 * a * b) == 2.0 * a * b * d
    ensures x == d
  {
    MulPositive(a, b);
    CancelEqual(x, d, 2.0 * a * b);
  }

  lemma Shares(x: real, y: real, t: real, a: real, b: real)
    ensures Mul(b, t - x) + Mul(a, t - y) == Mul(a + b, t) - Mul(b, x) - Mul(a, y)
  {
  }

  /** Speeding up to `top` and slowing down from it takes `2*a*b` times this distance. */
  lemma RampsCover(a: real, b: real, u: real, v: real, top: real, up: real, down: real)
    requires 0.0 < a && 0.0 < b && top - u == Mul(a, up) && top - v == Mul(b, down)
    ensures Mul(Ramp(u, top, up) + Ramp(v, top, down), 2.0 * a * b)
            == Mul(a + b, Sq(top)) - Mul(b, Sq(u)) - Mul(a, Sq(v))
  {
    hide Mul, Ramp, Sq;
    RampDistance(u, top, a, up);
    RampDistance(v, top, b, down);
    RampsTogether(Ramp(u, top, up), Ramp(v, top, down), a, b, Sq(top) - Sq(u), Sq(top) - Sq(v));
    Shares(Sq(u), Sq(v), Sq(top), a, b);
  }

  lemma SecondsOf(from: real, to: real, rate: real)
    requires 0.0 < rate && from <= to
    ensures 0.0 <= (to - from) / rate && to - from == Mul(rate, (to - from) / rate)
  {
    DivTimes(to - from, rate);
    SameSign((to - from) / rate, rate, to - from, 1.0);
  }

  /**
   The phases of a leg whose boundary speeds can be driven: they respect both rates and the cap, hold only
   at the cap, take exactly the leg's time and cover exactly its length.
   */
  ghost predicate PhasesOf(sqrt: real -> real, leg: Leg, r: Rates, u: real, v: real, p: Phases)
    requires ValidRates(r) && 0.0 < leg.capMS
  {
    && u <= p.top <= leg.capMS && v <= p.top
    && 0.0 <= p.upSecs && 0.0 <= p.holdSecs && 0.0 <= p.downSecs
    && p.top - u == Mul(r.accel, p.upSecs) && p.top - v == Mul(r.decel, p.downSecs)
    && (0.0 < p.holdSecs ==> p.top == leg.capMS)
    && LegSeconds(sqrt, leg, r, u, v) == p.upSecs + p.holdSecs + p.downSecs
    && Covered(p, u, v) == leg.distM
  }

  lemma TrianglePhases(sqrt: real -> real, leg: Leg, r: Rates, u: real, v: real) returns (p: Phases)
    requires IsSquareRoot(sqrt) && ValidRates(r) && 0.0 < leg.distM && 0.0 < leg.capMS
    requires StepOk(leg, r, u, v) && leg.distM < RampDist(leg, r, u, v)
    ensures PhasesOf(sqrt, leg, r, u, v, p)
  {
    var a, b := r.accel, r.decel;
    hide LegSeconds, RampDist, StepOk, Sq, Ramp, PeakSq, IsSquareRoot;
    var peak := PeakSeconds(sqrt, leg, r, u, v);
    var up, down := (peak - u) / a, (peak - v) / b;
    SecondsOf(u, peak, a);
    SecondsOf(v, peak, b);
    p := Phases(peak, up, 0.0, down);
    RampsCover(a, b, u, v, peak, up, down);
    assert Mul(peak, 0.0) == 0.0;
    hide Mul;
    assert Work(leg, r) == 2.0 * a * b * leg.distM;
    ScaledDistance(Ramp(u, peak, up) + Ramp(v, peak, down), leg.distM, a, b);
  }

  lemma TrapezoidPhases(sqrt: real -> real, leg: Leg, r: Rates, u: real, v: real) returns (p: Phases)
    requires ValidRates(r) && 0.0 < leg.distM && 0.0 < leg.capMS
    requires u <= leg.capMS && v <= leg.capMS && RampDist(leg, r, u, v) <= leg.distM
    ensures PhasesOf(sqrt, leg, r, u, v, p)
  {
    var a, b, cap, ramp := r.accel, r.decel, leg.capMS, RampDist(leg, r, u, v);
    var up, down, hold := (cap - u) / a, (cap - v) / b, (leg.distM - ramp) / cap;
    assert LegSeconds(sqrt, leg, r, u, v) == up + down + hold;
    RampDistTimes(leg, r, u, v);
    hide LegSeconds, RampDist, Sq, Ramp;
    SecondsOf(u, cap, a);
    SecondsOf(v, cap, b);
    SecondsOf(ramp, leg.distM, cap);
    p := Phases(cap, up, hold, down);
    RampsCover(a, b, u, v, cap, up, down);
    Shares(Sq(u), Sq(v), Sq(cap), a, b);
    assert Mul(ramp, 2.0 * PeakScale(r)) == 2.0 * a * b * ramp;
    assert 2.0 * PeakScale(r) == 2.0 * a * b;
    hide Mul;
    ScaledDistance(Ramp(u, cap, up) + Ramp(v, cap, down), ramp, a, b);
  }

  /** In both branches the phase distances sum to the leg's length. */
  lemma PhasesCoverLeg(sqrt: real -> real, leg: Leg, r: Rates, u: real, v: real) returns (p: Phases)
    requires IsSquareRoot(sqrt) && ValidRates(r) && 0.0 < leg.distM && 0.0 < leg.capMS && StepOk(leg, r, u, v)
    ensures PhasesOf(sqrt, leg, r, u, v, p)
  {
    hide LegSeconds, PhasesOf, RampDist, IsSquareRoot;
    if RampDist(leg, r, u, v) <= leg.distM {
      p := TrapezoidPhases(sqrt, leg, r, u, v);
    } else {
      p := TrianglePhases(sqrt, leg, r, u, v);
    }
  }
}
