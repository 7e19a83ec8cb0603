/**
 Inter-stop run times (internal/physics/runtime.go), over exact reals.

 A span is a sequence of legs, each with a length and a speed cap. `NodeSpeeds` bounds the speed
 at every leg boundary with a forward and a backward pass; `LegSeconds` times one leg with a
 trapezoidal or triangular speed profile. The partner of the two passes is `Feasible`, the set of
 boundary-speed profiles that respect the caps and both rates and start and end at rest.
 */
module Kinematics {
  import opened Reals

  datatype Leg = Leg(distM: real, capMS: real)

  datatype Rates = Rates(accel: real, decel: real)

  ghost predicate ValidRates(r: Rates) {
    0.0 < r.accel && 0.0 < r.decel
  }

  ghost predicate ValidLegs(legs: seq<Leg>) {
    forall i :: 0 <= i < |legs| ==> 0.0 <= legs[i].distM && 0.0 < legs[i].capMS
  }

  /** What a rate adds to the squared speed over a distance: the `2*a*d` of v'^2 = v^2 + 2*a*d. */
  function Gain(rate: real, distM: real): real {
    2.0 * rate * distM
  }

  /** Entering a leg at `u` and leaving it at `v` respects its cap and both rates. */
  ghost predicate StepOk(leg: Leg, r: Rates, u: real, v: real) {
    && 0.0 <= u <= leg.capMS
    && 0.0 <= v <= leg.capMS
    && Sq(v) <= Sq(u) + Gain(r.accel, leg.distM)
    && Sq(u) <= Sq(v) + Gain(r.decel, leg.distM)
  }

  /** A boundary-speed profile that can be driven over the legs. */
  ghost predicate Drivable(legs: seq<Leg>, r: Rates, v: seq<real>) {
    && |v| == |legs| + 1
    && forall i :: 0 <= i < |legs| ==> StepOk(legs[i], r, v[i], v[i + 1])
  }

  /** A drivable profile that starts and ends at rest. */
  ghost predicate Feasible(legs: seq<Leg>, r: Rates, v: seq<real>) {
    && Drivable(legs, r, v)
    && v[0] == 0.0
    && v[|legs|] == 0.0
  }

  ghost predicate PointwiseLe(v: seq<real>, w: seq<real>) {
    && |v| == |w|
    && forall i :: 0 <= i < |v| ==> v[i] <= w[i]
  }

  // ----- The two passes -----

  function FwdSpeed(sqrt: real -> real, legs: seq<Leg>, r: Rates, i: nat): real
    requires i <= |legs|
  {
    if i == 0 then 0.0 else
      var f := FwdSpeed(sqrt, legs, r, i - 1);
      Min(legs[i - 1].capMS, sqrt(Sq(f) + Gain(r.accel, legs[i - 1].distM)))
  }

  function BwdSpeed(sqrt: real -> real, legs: seq<Leg>, r: Rates, i: nat): real
    requires i <= |legs|
    decreases |legs| - i
  {
    if i == |legs| then 0.0 else
      var b := BwdSpeed(sqrt, legs, r, i + 1);
      Min(legs[i].capMS, sqrt(Sq(b) + Gain(r.decel, legs[i].distM)))
  }

  function NodeSpeeds(sqrt: real -> real, legs: seq<Leg>, r: Rates): (v: seq<real>)
    ensures |v| == |legs| + 1
  {
    seq(|legs| + 1, i requires 0 <= i <= |legs| =>
      Min(FwdSpeed(sqrt, legs, r, i), BwdSpeed(sqrt, legs, r, i)))
  }

  lemma FwdUnfold(sqrt: real -> real, legs: seq<Leg>, r: Rates, i: nat)
    requires i <= |legs|
    ensures i == 0 ==> FwdSpeed(sqrt, legs, r, i) == 0.0
    ensures i > 0 ==>
              FwdSpeed(sqrt, legs, r, i) ==
              Min(legs[i - 1].capMS,
                  sqrt(Sq(FwdSpeed(sqrt, legs, r, i - 1)) + Gain(r.accel, legs[i - 1].distM)))
  {
  }

  lemma BwdUnfold(sqrt: real -> real, legs: seq<Leg>, r: Rates, i: nat)
    requires i <= |legs|
    ensures i == |legs| ==> BwdSpeed(sqrt, legs, r, i) == 0.0
    ensures i < |legs| ==>
              BwdSpeed(sqrt, legs, r, i) ==
              Min(legs[i].capMS, sqrt(Sq(BwdSpeed(sqrt, legs, r, i + 1)) + Gain(r.decel, legs[i].distM)))
  {
  }

  /** The pass that speeds up from rest at the start. */
  method ForwardPass(sqrt: real -> real, legs: seq<Leg>, r: Rates) returns (fwd: array<real>)
    ensures fresh(fwd) && fwd.Length == |legs| + 1
    ensures forall k :: 0 <= k <= |legs| ==> fwd[k] == FwdSpeed(sqrt, legs, r, k)
  {
    hide Sq, Gain, FwdSpeed;
    var n := |legs|;
    FwdUnfold(sqrt, legs, r, 0);
    fwd := new real[n + 1](_ => 0.0);
    var i := 1;
    while i <= n
      modifies fwd
      invariant 1 <= i <= n + 1
      invariant forall k :: 0 <= k < i ==> fwd[k] == FwdSpeed(sqrt, legs, r, k)
    {
      var reachable := sqrt(Sq(fwd[i - 1]) + Gain(r.accel, legs[i - 1].distM));
      FwdUnfold(sqrt, legs, r, i);
      fwd[i] := Min(legs[i - 1].capMS, reachable);
      i := i + 1;
    }
  }

  /** The pass that slows down to rest at the end, from the end. */
  method BackwardPass(sqrt: real -> real, legs: seq<Leg>, r: Rates) returns (bwd: array<real>)
    ensures fresh(bwd) && bwd.Length == |legs| + 1
    ensures forall k :: 0 <= k <= |legs| ==> bwd[k] == BwdSpeed(sqrt, legs, r, k)
  {
    hide Sq, Gain, BwdSpeed;
    var n := |legs|;
    BwdUnfold(sqrt, legs, r, n);
    bwd := new real[n + 1](_ => 0.0);
    var i := n;
    while i > 0
      modifies bwd
      invariant 0 <= i <= n
      invariant forall k :: i <= k <= n ==> bwd[k] == BwdSpeed(sqrt, legs, r, k)
    {
      i := i - 1;
      var reachable := sqrt(Sq(bwd[i + 1]) + Gain(r.decel, legs[i].distM));
      BwdUnfold(sqrt, legs, r, i);
      bwd[i] := Min(legs[i].capMS, reachable);
    }
  }

  method BoundedNodeSpeeds(sqrt: real -> real, legs: seq<Leg>, r: Rates) returns (v: seq<real>)
    ensures v == NodeSpeeds(sqrt, legs, r)
  {
    hide FwdSpeed, BwdSpeed, Min;
    var fwd := ForwardPass(sqrt, legs, r);
    var bwd := BackwardPass(sqrt, legs, r);
    var n := |legs|;
    var out := new real[n + 1](_ => 0.0);
    var i := 0;
    while i <= n
      modifies out
      invariant 0 <= i <= n + 1
      invariant forall k :: 0 <= k < i ==> out[k] == Min(fwd[k], bwd[k])
    {
      out[i] := Min(fwd[i], bwd[i]);
      i := i + 1;
    }
    v := out[..];
  }

  /** One step of a pass: bounded by its cap, non-negative, and as fast as the rate allows. */
  ghost predicate PassStep(cap: real, from: real, gain: real, to: real) {
    && 0.0 <= to <= cap
    && Sq(to) <= Sq(from) + gain
    && (to == cap || Sq(to) == Sq(from) + gain)
  }

  lemma PassStepHolds(sqrt: real -> real, cap: real, from: real, gain: real)
    requires IsSquareRoot(sqrt)
    requires 0.0 < cap && 0.0 <= gain
    ensures PassStep(cap, from, gain, Min(cap, sqrt(Sq(from) + gain)))
  {
    SqNonNegative(from);
    var root := sqrt(Sq(from) + gain);
    SqOrder(cap, root);
    hide Sq;
  }

  lemma PassStepGreatest(cap: real, from: real, gain: real, to: real, w: real)
    requires PassStep(cap, from, gain, to)
    requires 0.0 <= w <= cap && Sq(w) <= Sq(from) + gain
    ensures w <= to
  {
    SqOrder(w, to);
    hide Sq;
  }

  lemma GainNonNegative(rate: real, dist: real)
    requires 0.0 < rate && 0.0 <= dist
    ensures 0.0 <= Gain(rate, dist)
  {
    MulNonNegative(rate, dist);
  }

  lemma FwdStep(sqrt: real -> real, legs: seq<Leg>, r: Rates, i: nat)
    requires IsSquareRoot(sqrt) && ValidRates(r) && ValidLegs(legs)
    requires i < |legs|
    ensures PassStep(legs[i].capMS, FwdSpeed(sqrt, legs, r, i), Gain(r.accel, legs[i].distM),
                     FwdSpeed(sqrt, legs, r, i + 1))
  {
    hide Sq, Gain;
    GainNonNegative(r.accel, legs[i].distM);
    PassStepHolds(sqrt, legs[i].capMS, FwdSpeed(sqrt, legs, r, i), Gain(r.accel, legs[i].distM));
  }

  lemma BwdStep(sqrt: real -> real, legs: seq<Leg>, r: Rates, i: nat)
    requires IsSquareRoot(sqrt) && ValidRates(r) && ValidLegs(legs)
    requires i < |legs|
    ensures PassStep(legs[i].capMS, BwdSpeed(sqrt, legs, r, i + 1), Gain(r.decel, legs[i].distM),
                     BwdSpeed(sqrt, legs, r, i))
  {
    hide Sq, Gain;
    GainNonNegative(r.decel, legs[i].distM);
    PassStepHolds(sqrt, legs[i].capMS, BwdSpeed(sqrt, legs, r, i + 1), Gain(r.decel, legs[i].distM));
  }

  lemma PassesNonNegative(sqrt: real -> real, legs: seq<Leg>, r: Rates, i: nat)
    requires IsSquareRoot(sqrt) && ValidRates(r) && ValidLegs(legs)
    requires i <= |legs|
    ensures 0.0 <= FwdSpeed(sqrt, legs, r, i) && 0.0 <= BwdSpeed(sqrt, legs, r, i)
  {
    hide Sq, Gain;
    if i > 0 { FwdStep(sqrt, legs, r, i - 1); }
    if i < |legs| { BwdStep(sqrt, legs, r, i); }
  }

  /**
   The `min` of a step the forward pass allows and a step the backward pass allows. `f`, `g` are
   the forward speeds at the two ends, `h`, `k` the backward ones.
   */
  lemma MinStepOk(leg: Leg, r: Rates, f: real, g: real, h: real, k: real)
    requires ValidRates(r) && 0.0 <= leg.distM && 0.0 < leg.capMS
    requires 0.0 <= f && 0.0 <= k
    requires PassStep(leg.capMS, f, Gain(r.accel, leg.distM), g)
    requires PassStep(leg.capMS, k, Gain(r.decel, leg.distM), h)
    ensures StepOk(leg, r, Min(f, h), Min(g, k))
  {
    hide Sq, Gain;
    var u, v := Min(f, h), Min(g, k);
    GainNonNegative(r.accel, leg.distM);
    GainNonNegative(r.decel, leg.distM);
    SqOrder(v, g);
    SqOrder(v, k);
    SqOrder(u, f);
    SqOrder(u, h);
    SqOrder(v, h);
    SqOrder(u, g);
  }

  lemma NodeSpeedsStep(sqrt: real -> real, legs: seq<Leg>, r: Rates, i: nat)
    requires IsSquareRoot(sqrt) && ValidRates(r) && ValidLegs(legs)
    requires i < |legs|
    ensures StepOk(legs[i], r, NodeSpeeds(sqrt, legs, r)[i], NodeSpeeds(sqrt, legs, r)[i + 1])
  {
    hide Sq, Gain, IsSquareRoot, FwdSpeed, BwdSpeed, PassStep, StepOk;
    FwdStep(sqrt, legs, r, i);
    BwdStep(sqrt, legs, r, i);
    PassesNonNegative(sqrt, legs, r, i);
    PassesNonNegative(sqrt, legs, r, i + 1);
    MinStepOk(legs[i], r, FwdSpeed(sqrt, legs, r, i), FwdSpeed(sqrt, legs, r, i + 1),
              BwdSpeed(sqrt, legs, r, i), BwdSpeed(sqrt, legs, r, i + 1));
  }

  /** The bounded speeds are themselves a feasible profile. */
  lemma NodeSpeedsFeasible(sqrt: real -> real, legs: seq<Leg>, r: Rates)
    requires IsSquareRoot(sqrt) && ValidRates(r) && ValidLegs(legs)
    ensures Feasible(legs, r, NodeSpeeds(sqrt, legs, r))
  {
    hide Sq, Gain, IsSquareRoot, StepOk;
    var v := NodeSpeeds(sqrt, legs, r);
    PassesNonNegative(sqrt, legs, r, 0);
    PassesNonNegative(sqrt, legs, r, |legs|);
    forall i | 0 <= i < |legs| ensures StepOk(legs[i], r, v[i], v[i + 1]) {
      NodeSpeedsStep(sqrt, legs, r, i);
    }
  }

  lemma {:induction false} BelowFwd(sqrt: real -> real, legs: seq<Leg>, r: Rates, v: seq<real>, i: nat)
    requires IsSquareRoot(sqrt) && ValidRates(r) && ValidLegs(legs)
    requires Feasible(legs, r, v) && i <= |legs|
    ensures v[i] <= FwdSpeed(sqrt, legs, r, i)
  {
    hide Sq, Gain;
    if i > 0 {
      BelowFwd(sqrt, legs, r, v, i - 1);
      FwdStep(sqrt, legs, r, i - 1);
      assert StepOk(legs[i - 1], r, v[i - 1], v[i]);
      var f := FwdSpeed(sqrt, legs, r, i - 1);
      SqOrder(v[i - 1], f);
      PassStepGreatest(legs[i - 1].capMS, f, Gain(r.accel, legs[i - 1].distM),
                       FwdSpeed(sqrt, legs, r, i), v[i]);
    }
  }

  lemma {:induction false} BelowBwd(sqrt: real -> real, legs: seq<Leg>, r: Rates, v: seq<real>, i: nat)
    requires IsSquareRoot(sqrt) && ValidRates(r) && ValidLegs(legs)
    requires Feasible(legs, r, v) && i <= |legs|
    ensures v[i] <= BwdSpeed(sqrt, legs, r, i)
    decreases |legs| - i
  {
    hide Sq, Gain;
    if i < |legs| {
      BelowBwd(sqrt, legs, r, v, i + 1);
      BwdStep(sqrt, legs, r, i);
      assert StepOk(legs[i], r, v[i], v[i + 1]);
      var b := BwdSpeed(sqrt, legs, r, i + 1);
      SqOrder(v[i + 1], b);
      PassStepGreatest(legs[i].capMS, b, Gain(r.decel, legs[i].distM), BwdSpeed(sqrt, legs, r, i), v[i]);
    }
  }

  /** No feasible profile is faster anywhere: the bounded speeds are the greatest one. */
  lemma NodeSpeedsGreatest(sqrt: real -> real, legs: seq<Leg>, r: Rates, v: seq<real>)
    requires IsSquareRoot(sqrt) && ValidRates(r) && ValidLegs(legs)
    requires Feasible(legs, r, v)
    ensures PointwiseLe(v, NodeSpeeds(sqrt, legs, r))
  {
    hide Sq, Gain;
    forall i | 0 <= i < |v| ensures v[i] <= NodeSpeeds(sqrt, legs, r)[i] {
      BelowFwd(sqrt, legs, r, v, i);
      BelowBwd(sqrt, legs, r, v, i);
    }
  }
}
