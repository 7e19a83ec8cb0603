/**
 What a run time is: the least time in which a train can be driven over the legs. A drive here is any
 sequence of stretches of time, each at a steady rate of change of speed, that respects caps and rates;
 it knows nothing of how internal/physics/runtime.go computes the time.
 */
module Drives {
  import opened Reals
  import opened Kinematics
  import opened LegTime
  import opened LegPhases
  import opened SpanTime

  /** A stretch of time at a steady rate of change of speed, which is negative when braking. */
  datatype Phase = Phase(secs: real, rate: real)

  function SpeedAfter(u: real, p: Phase): real {
    u + Mul(p.rate, p.secs)
  }

  /** Distance covered: the mean speed times the time. */
  function MetresOf(u: real, p: Phase): real {
    Mul((u + SpeedAfter(u, p)) / 2.0, p.secs)
  }

  /** The speed at the end of the phases. */
  function EndSpeed(u: real, phases: seq<Phase>): real
    decreases |phases|
  {
    if phases == [] then u else EndSpeed(SpeedAfter(u, phases[0]), phases[1..])
  }

  function Secs(phases: seq<Phase>): real {
    if phases == [] then 0.0 else phases[0].secs + Secs(phases[1..])
  }

  /** From speed `u` the phases cover the leg exactly, never beyond its cap, never outside the two rates. */
  ghost predicate Drive(phases: seq<Phase>, u: real, distM: real, capMS: real, accel: real, decel: real)
    decreases |phases|
  {
    && 0.0 <= u <= capMS
    && if phases == [] then distM == 0.0
       else
         && 0.0 <= phases[0].secs && -decel <= phases[0].rate <= accel
         && Drive(phases[1..], SpeedAfter(u, phases[0]), distM - MetresOf(u, phases[0]), capMS, accel, decel)
  }

  // ----- One leg -----

  lemma DriveEnds(phases: seq<Phase>, u: real, distM: real, capMS: real, accel: real, decel: real)
    requires Drive(phases, u, distM, capMS, accel, decel)
    ensures 0.0 <= u <= capMS
  {
  }

  /** One phase changes the squared speed by twice its rate times the distance. */
  lemma PhaseGain(u: real, p: Phase)
    ensures Sq(SpeedAfter(u, p)) - Sq(u) == 2.0 * Mul(p.rate, MetresOf(u, p))
  {
    var w := SpeedAfter(u, p);
    assert w - u == p.rate * p.secs;
    assert w * w - u * u == (w - u) * (w + u);
    assert p.rate * p.secs * (w + u) == 2.0 * (p.rate * ((u + w) / 2.0 * p.secs));
  }

  lemma PhaseForward(u: real, p: Phase)
    requires 0.0 <= u && 0.0 <= SpeedAfter(u, p) && 0.0 <= p.secs
    ensures 0.0 <= MetresOf(u, p)
  {
    hide SpeedAfter;
    MulNonNegative((u + SpeedAfter(u, p)) / 2.0, p.secs);
  }

  lemma PhaseStep(u: real, p: Phase, capMS: real, r: Rates)
    requires 0.0 <= u <= capMS && 0.0 <= SpeedAfter(u, p) <= capMS
    requires 0.0 <= p.secs && -r.decel <= p.rate <= r.accel
    ensures StepOk(Leg(MetresOf(u, p), capMS), r, u, SpeedAfter(u, p))
  {
    var d := MetresOf(u, p);
    PhaseGain(u, p);
    PhaseForward(u, p);
    hide SpeedAfter, MetresOf, Sq;
    MulOrder(p.rate, r.accel, d);
    MulOrder(-p.rate, r.decel, d);
  }

  /** The mean of two speeds is no more than that of either and a higher one. */
  lemma MeanNoMore(u: real, w: real, top: real, up: real, hold: real, down: real)
    requires u <= top && w <= top && 0.0 <= up && 0.0 <= hold && 0.0 <= down
    ensures Mul((u + w) / 2.0, up + hold + down) <= Ramp(u, top, up) + Mul(top, hold) + Ramp(w, top, down)
  {
    var m := (u + w) / 2.0;
    FasterFarther(m, (u + top) / 2.0, up);
    FasterFarther(m, top, hold);
    FasterFarther(m, (w + top) / 2.0, down);
    WeightSum(m, up, hold);
    WeightSum(m, up + hold, down);
    RampIsMean(u, top, up);
    RampIsMean(w, top, down);
    hide Mul, Ramp;
  }

  lemma FasterFarther(x: real, y: real, secs: real)
    requires x <= y && 0.0 <= secs
    ensures Mul(x, secs) <= Mul(y, secs)
  {
    MulOrder(x, y, secs);
  }

  lemma RampIsMean(from: real, to: real, secs: real)
    ensures Ramp(from, to, secs) == Mul((from + to) / 2.0, secs)
  {
  }

  /** The time of a leg is at most that of one phase that covers it. */
  lemma PhaseNoFaster(sqrt: real -> real, u: real, p: Phase, capMS: real, r: Rates)
    requires IsSquareRoot(sqrt) && ValidRates(r) && 0.0 < capMS
    requires 0.0 <= u <= capMS && 0.0 <= SpeedAfter(u, p) <= capMS
    requires 0.0 <= p.secs && -r.decel <= p.rate <= r.accel
    ensures LegSeconds(sqrt, Leg(MetresOf(u, p), capMS), r, u, SpeedAfter(u, p)) <= p.secs
  {
    var w, leg := SpeedAfter(u, p), Leg(MetresOf(u, p), capMS);
    PhaseForward(u, p);
    if 0.0 < leg.distM {
      PhaseStep(u, p, capMS, r);
      var q := PhasesCoverLeg(sqrt, leg, r, u, w);
      hide LegSeconds, SpeedAfter, StepOk, IsSquareRoot, Ramp;
      MeanNoMore(u, w, q.top, q.upSecs, q.holdSecs, q.downSecs);
      assert Mul((u + w) / 2.0, LegSeconds(sqrt, leg, r, u, w)) <= Mul((u + w) / 2.0, p.secs);
      SlowerByMean(u, w, LegSeconds(sqrt, leg, r, u, w), p.secs);
    }
  }

  lemma SlowerByMean(u: real, w: real, s: real, t: real)
    requires 0.0 <= u && 0.0 <= w && Mul((u + w) / 2.0, s) <= Mul((u + w) / 2.0, t) && 0.0 < Mul((u + w) / 2.0, t)
    ensures s <= t
  {
    if u + w == 0.0 {
      NothingTimes((u + w) / 2.0, t);
    }
    CancelFactor(s, t, (u + w) / 2.0);
  }

  lemma NothingTimes(x: real, y: real)
    requires x == 0.0
    ensures Mul(x, y) == 0.0
  {
  }

  lemma NoWayNoChange(capMS: real, r: Rates, u: real, v: real)
    requires StepOk(Leg(0.0, capMS), r, u, v)
    ensures u == v
  {
    SqEqual(u, v);
  }

  lemma {:induction false} DriveTakesTime(phases: seq<Phase>, u: real, distM: real, capMS: real, accel: real, decel: real)
    requires Drive(phases, u, distM, capMS, accel, decel)
    ensures 0.0 <= Secs(phases)
  {
    hide SpeedAfter, MetresOf;
    if phases != [] {
      DriveTakesTime(phases[1..], SpeedAfter(u, phases[0]), distM - MetresOf(u, phases[0]), capMS, accel, decel);
    }
  }

  /** A first phase and a rest that is not slower than its leg are together not slower than the whole leg. */
  lemma OneMorePhase(sqrt: real -> real, d1: real, d2: real, capMS: real, r: Rates, u: real, w: real, v: real, t1: real, t2: real)
    requires IsSquareRoot(sqrt) && ValidRates(r) && 0.0 < capMS && 0.0 <= d1 && 0.0 <= d2
    requires StepOk(Leg(d1, capMS), r, u, w) && StepOk(Leg(d2, capMS), r, w, v)
    requires LegSeconds(sqrt, Leg(d1, capMS), r, u, w) <= t1 && LegSeconds(sqrt, Leg(d2, capMS), r, w, v) <= t2
    requires 0.0 <= t1 && 0.0 <= t2
    ensures StepOk(Leg(d1 + d2, capMS), r, u, v)
    ensures LegSeconds(sqrt, Leg(d1 + d2, capMS), r, u, v) <= t1 + t2
  {
    JoinSteps(d1, d2, capMS, r, u, w, v);
    hide LegSeconds, IsSquareRoot;
    if d1 == 0.0 {
      NoWayNoChange(capMS, r, u, w);
    } else if d2 == 0.0 {
      NoWayNoChange(capMS, r, w, v);
    } else {
      hide StepOk;
      AnyCutNoFaster(sqrt, d1, d2, capMS, r, u, w, v);
    }
  }

  /** No drive over a leg is faster than the leg's time between its two speeds. */
  lemma {:induction false} DriveNoFaster(sqrt: real -> real, phases: seq<Phase>, u: real, distM: real, capMS: real, r: Rates)
    requires IsSquareRoot(sqrt) && ValidRates(r) && 0.0 < capMS
    requires Drive(phases, u, distM, capMS, r.accel, r.decel)
    ensures 0.0 <= distM && StepOk(Leg(distM, capMS), r, u, EndSpeed(u, phases))
    ensures LegSeconds(sqrt, Leg(distM, capMS), r, u, EndSpeed(u, phases)) <= Secs(phases)
    decreases |phases|
  {
    if phases != [] {
      hide IsSquareRoot, LegSeconds, SpeedAfter, MetresOf, StepOk;
      var p := phases[0];
      var w, d := SpeedAfter(u, p), MetresOf(u, p);
      var d2 := distM - d;
      DriveNoFaster(sqrt, phases[1..], w, d2, capMS, r);
      DriveEnds(phases[1..], w, d2, capMS, r.accel, r.decel);
      DriveTakesTime(phases[1..], w, d2, capMS, r.accel, r.decel);
      PhaseForward(u, p);
      PhaseStep(u, p, capMS, r);
      PhaseNoFaster(sqrt, u, p, capMS, r);
      OneMorePhase(sqrt, d, d2, capMS, r, u, w, EndSpeed(u, phases), p.secs, Secs(phases[1..]));
      assert d + d2 == distM;
    }
  }

  lemma ThreePhases(u: real, v: real, leg: Leg, r: Rates, q: Phases) returns (phases: seq<Phase>)
    requires ValidRates(r) && 0.0 <= u && 0.0 <= v && u <= q.top <= leg.capMS && v <= q.top
    requires 0.0 <= q.upSecs && 0.0 <= q.holdSecs && 0.0 <= q.downSecs
    requires q.top - u == Mul(r.accel, q.upSecs) && q.top - v == Mul(r.decel, q.downSecs)
    requires Covered(q, u, v) == leg.distM
    ensures Drive(phases, u, leg.distM, leg.capMS, r.accel, r.decel) && EndSpeed(u, phases) == v
    ensures Secs(phases) == q.upSecs + q.holdSecs + q.downSecs
  {
    var up, hold, down := Phase(q.upSecs, r.accel), Phase(q.holdSecs, 0.0), Phase(q.downSecs, -r.decel);
    phases := [up, hold, down];
    assert SpeedAfter(u, up) == q.top && SpeedAfter(q.top, hold) == q.top && SpeedAfter(q.top, down) == v;
    assert MetresOf(u, up) == Ramp(u, q.top, q.upSecs) && MetresOf(q.top, hold) == Mul(q.top, q.holdSecs);
    assert MetresOf(q.top, down) == Ramp(v, q.top, q.downSecs);
    hide SpeedAfter, MetresOf, Ramp, Mul;
    assert phases[1..] == [hold, down] && [hold, down][1..] == [down] && [down][1..] == [];
    var d2 := leg.distM - MetresOf(u, up);
    var d3 := d2 - MetresOf(q.top, hold);
    assert d3 - MetresOf(q.top, down) == 0.0;
    assert Drive([], v, 0.0, leg.capMS, r.accel, r.decel);
    assert Drive([down], q.top, d3, leg.capMS, r.accel, r.decel);
    assert Drive([hold, down], q.top, d2, leg.capMS, r.accel, r.decel);
    assert EndSpeed(q.top, [down]) == v && EndSpeed(q.top, [hold, down]) == v;
    assert Secs([down]) == q.downSecs && Secs([hold, down]) == q.holdSecs + q.downSecs;
  }

  /** And some drive takes exactly that time. */
  lemma FastestDrive(sqrt: real -> real, leg: Leg, r: Rates, u: real, v: real) returns (phases: seq<Phase>)
    requires IsSquareRoot(sqrt) && ValidRates(r) && 0.0 <= leg.distM && 0.0 < leg.capMS && StepOk(leg, r, u, v)
    ensures Drive(phases, u, leg.distM, leg.capMS, r.accel, r.decel) && EndSpeed(u, phases) == v
    ensures Secs(phases) == LegSeconds(sqrt, leg, r, u, v)
  {
    if leg.distM == 0.0 {
      NoWayNoChange(leg.capMS, r, u, v);
      phases := [];
    } else {
      var q := PhasesCoverLeg(sqrt, leg, r, u, v);
      hide LegSeconds, IsSquareRoot, Covered, Mul;
      phases := ThreePhases(u, v, leg, r, q);
    }
  }

  // ----- A whole span -----

  /** Phases for every leg in turn, from speed `u` to rest. */
  ghost predicate Travels(journey: seq<seq<Phase>>, u: real, legs: seq<Leg>, accel: real, decel: real)
    decreases |legs|
  {
    && |journey| == |legs|
    && if legs == [] then u == 0.0
       else
         && Drive(journey[0], u, legs[0].distM, legs[0].capMS, accel, decel)
         && Travels(journey[1..], EndSpeed(u, journey[0]), legs[1..], accel, decel)
  }

  function JourneySecs(journey: seq<seq<Phase>>): real {
    if journey == [] then 0.0 else Secs(journey[0]) + JourneySecs(journey[1..])
  }

  lemma DrivableMore(leg: Leg, legs: seq<Leg>, r: Rates, u: real, v: seq<real>)
    requires Drivable(legs, r, v) && StepOk(leg, r, u, v[0])
    ensures Drivable([leg] + legs, r, [u] + v)
  {
    hide StepOk;
    forall i | 0 <= i < |legs| + 1 ensures StepOk(([leg] + legs)[i], r, ([u] + v)[i], ([u] + v)[i + 1]) {
      if i > 0 {
        assert StepOk(legs[i - 1], r, v[i - 1], v[i]);
      }
    }
  }

  lemma {:induction false} JourneyProfile(sqrt: real -> real, journey: seq<seq<Phase>>, u: real, legs: seq<Leg>, r: Rates)
    returns (v: seq<real>)
    requires IsSquareRoot(sqrt) && ValidRates(r) && ValidLegs(legs) && Travels(journey, u, legs, r.accel, r.decel)
    ensures Drivable(legs, r, v) && v[0] == u && v[|legs|] == 0.0
    ensures TotalSeconds(sqrt, legs, r, v) <= JourneySecs(journey)
    decreases |legs|
  {
    hide IsSquareRoot, Drive, StepOk, LegSeconds, EndSpeed, Secs;
    if legs == [] {
      v := [0.0];
    } else {
      var w := EndSpeed(u, journey[0]);
      DriveNoFaster(sqrt, journey[0], u, legs[0].distM, legs[0].capMS, r);
      var rest := JourneyProfile(sqrt, journey[1..], w, legs[1..], r);
      v := [u] + rest;
      DrivableMore(legs[0], legs[1..], r, u, rest);
      assert [legs[0]] + legs[1..] == legs && v[1..] == rest;
    }
  }

  /** No journey over the legs, from rest to rest, is faster than their run time. */
  lemma NoFasterJourney(sqrt: real -> real, journey: seq<seq<Phase>>, legs: seq<Leg>, r: Rates)
    requires IsSquareRoot(sqrt) && ValidRates(r) && ValidLegs(legs) && Travels(journey, 0.0, legs, r.accel, r.decel)
    ensures RunSeconds(sqrt, legs, r) <= JourneySecs(journey)
  {
    hide IsSquareRoot, Travels, Drivable, TotalSeconds, RunSeconds, ValidLegs, ValidRates;
    var v := JourneyProfile(sqrt, journey, 0.0, legs, r);
    LeastTime(sqrt, legs, r, v);
  }

  lemma {:induction false} ProfileJourney(sqrt: real -> real, legs: seq<Leg>, r: Rates, v: seq<real>) returns (journey: seq<seq<Phase>>)
    requires IsSquareRoot(sqrt) && ValidRates(r) && ValidLegs(legs) && Drivable(legs, r, v) && v[|legs|] == 0.0
    ensures Travels(journey, v[0], legs, r.accel, r.decel)
    ensures JourneySecs(journey) == TotalSeconds(sqrt, legs, r, v)
  {
    hide IsSquareRoot, Drive, StepOk, LegSeconds, EndSpeed, Secs;
    if legs == [] {
      journey := [];
    } else {
      assert StepOk(legs[0], r, v[0], v[1]);
      var phases := FastestDrive(sqrt, legs[0], r, v[0], v[1]);
      forall i | 0 <= i < |legs| - 1 ensures StepOk(legs[1..][i], r, v[1..][i], v[1..][i + 1]) {
        assert StepOk(legs[i + 1], r, v[i + 1], v[i + 2]);
      }
      var rest := ProfileJourney(sqrt, legs[1..], r, v[1..]);
      journey := [phases] + rest;
      assert journey[1..] == rest;
    }
  }

  /** And some journey takes exactly the run time: it is the least there is. */
  lemma FastestJourney(sqrt: real -> real, legs: seq<Leg>, r: Rates) returns (journey: seq<seq<Phase>>)
    requires IsSquareRoot(sqrt) && ValidRates(r) && ValidLegs(legs)
    ensures Travels(journey, 0.0, legs, r.accel, r.decel)
    ensures JourneySecs(journey) == RunSeconds(sqrt, legs, r)
  {
    hide IsSquareRoot, Travels, StepOk, TotalSeconds, NodeSpeeds;
    NodeSpeedsFeasible(sqrt, legs, r);
    journey := ProfileJourney(sqrt, legs, r, NodeSpeeds(sqrt, legs, r));
  }
}
