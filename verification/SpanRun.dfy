/** `SpanRunSeconds` (internal/physics/runtime.go): validation, speed caps, node speeds and the sum. */
module SpanRun {
  import opened Reals
  import opened Kinematics
  import opened LegTime
  import opened SpanTime
  import opened SpeedLimits
  import opened Drives

  datatype VehicleLimits = VehicleLimits(maxSpeedKMH: real, accelerationMS2: real, decelerationMS2: real)

  datatype SpanSegment = SpanSegment(distanceM: real, physics: Segment)

  datatype Error = BadMaxSpeed | BadAcceleration | BadDeceleration | NoSegments

  datatype Result = Ok(seconds: real) | Err(error: Error)

  ghost predicate ValidVehicle(vehicle: VehicleLimits) {
    0.0 < vehicle.maxSpeedKMH && 0.0 < vehicle.accelerationMS2 && 0.0 < vehicle.decelerationMS2
  }

  function CapMS(sqrt: real -> real, seg: Segment, vehicleMaxKMH: real): real {
    ToMS(LimitKMH(sqrt, Inputs(seg.curveRadiusM, seg.cantMM, 0.0, seg.gradePct / 100.0, vehicleMaxKMH)))
  }

  function LegsOf(sqrt: real -> real, segments: seq<SpanSegment>, vehicleMaxKMH: real): (legs: seq<Leg>)
    ensures |legs| == |segments|
  {
    seq(|segments|, i requires 0 <= i < |segments| =>
      Leg(segments[i].distanceM, CapMS(sqrt, segments[i].physics, vehicleMaxKMH)))
  }

  /** Every leg built from a positive vehicle maximum has a positive cap no greater than it. */
  lemma LegsValid(sqrt: real -> real, segments: seq<SpanSegment>, vehicleMaxKMH: real)
    requires IsSquareRoot(sqrt) && 0.0 < vehicleMaxKMH
    requires forall i :: 0 <= i < |segments| ==> 0.0 <= segments[i].distanceM
    ensures ValidLegs(LegsOf(sqrt, segments, vehicleMaxKMH))
    ensures forall i :: 0 <= i < |segments| ==>
              LegsOf(sqrt, segments, vehicleMaxKMH)[i].capMS <= ToMS(vehicleMaxKMH)
  {
    hide LimitKMH;
    forall i | 0 <= i < |segments|
      ensures 0.0 < LegsOf(sqrt, segments, vehicleMaxKMH)[i].capMS <= ToMS(vehicleMaxKMH)
    {
      var seg := segments[i].physics;
      LimitBounds(sqrt, Inputs(seg.curveRadiusM, seg.cantMM, 0.0, seg.gradePct / 100.0, vehicleMaxKMH));
    }
  }

  // ----- What the caps are -----

  /** In metres per second, a speed that a vehicle and a curve allow; a radius of zero or less is straight. */
  ghost predicate CurveAllows(seg: Segment, vehicleMaxKMH: real, w: real) {
    && 0.0 <= w && w * 3.6 <= vehicleMaxKMH
    && (0.0 < seg.curveRadiusM ==>
          Sq(w) * 1500.0 <= (Max(seg.cantMM, 0.0) + 150.0) * 9.81 * seg.curveRadiusM)
  }

  /** What is left of a speed on a slope: past a fall of 2 % every percent costs 5 %, down to half. */
  function LeftOnSlope(gradePct: real): real {
    if -2.0 <= gradePct then 1.0 else if gradePct <= -12.0 then 0.5 else 1.0 - 0.05 * (-2.0 - gradePct)
  }

  /** The cap is what the slope leaves of the greatest speed the vehicle and the curve allow. */
  ghost predicate CappedFor(seg: Segment, vehicleMaxKMH: real, capMS: real) {
    exists top :: && CurveAllows(seg, vehicleMaxKMH, top)
                  && (forall w :: CurveAllows(seg, vehicleMaxKMH, w) ==> w <= top)
                  && capMS == Mul(top, LeftOnSlope(seg.gradePct))
  }

  function TrackInputs(seg: Segment, vehicleMaxKMH: real): Inputs {
    Inputs(seg.curveRadiusM, seg.cantMM, 0.0, seg.gradePct / 100.0, vehicleMaxKMH)
  }

  lemma AllowedIffCurveAllows(seg: Segment, vehicleMaxKMH: real, w: real)
    ensures Allowed(TrackInputs(seg, vehicleMaxKMH), w * 3.6) <==> CurveAllows(seg, vehicleMaxKMH, w)
  {
    assert ToMS(w * 3.6) == w;
    var cant := Max(seg.cantMM, 0.0) + 150.0;
    var x := TrackInputs(seg, vehicleMaxKMH);
    assert EffectiveCantMM(x) == cant;
    assert LateralSq(x) * 1500.0 == cant * 9.81 * seg.curveRadiusM;
  }

  lemma SlopeFactor(gradePct: real)
    ensures GradeFactor(gradePct / 100.0) == LeftOnSlope(gradePct)
  {
  }

  /** Every leg is capped by its own segment's curve, cant and slope. */
  lemma LegsCapped(sqrt: real -> real, segments: seq<SpanSegment>, vehicleMaxKMH: real, i: nat)
    requires IsSquareRoot(sqrt) && 0.0 < vehicleMaxKMH && i < |segments|
    ensures LegsOf(sqrt, segments, vehicleMaxKMH)[i].distM == segments[i].distanceM
    ensures CappedFor(segments[i].physics, vehicleMaxKMH, LegsOf(sqrt, segments, vehicleMaxKMH)[i].capMS)
  {
    var seg := segments[i].physics;
    var x := TrackInputs(seg, vehicleMaxKMH);
    var kmh := LimitIsGreatestAllowed(sqrt, x);
    SlopeFactor(seg.gradePct);
    var top := kmh / 3.6;
    hide Allowed, CurveAllows, GradeFactor, LeftOnSlope, IsSquareRoot, LimitKMH;
    assert top * 3.6 == kmh;
    AllowedIffCurveAllows(seg, vehicleMaxKMH, top);
    forall w | CurveAllows(seg, vehicleMaxKMH, w) ensures w <= top {
      AllowedIffCurveAllows(seg, vehicleMaxKMH, w);
    }
    assert ToMS(Mul(kmh, LeftOnSlope(seg.gradePct))) == Mul(top, LeftOnSlope(seg.gradePct)) by {
      DividedProduct(kmh, LeftOnSlope(seg.gradePct));
    }
  }

  lemma DividedProduct(x: real, y: real)
    ensures ToMS(Mul(x, y)) == Mul(x / 3.6, y)
  {
  }

  lemma StraightAllows(seg: Segment, vehicleMaxKMH: real, w: real)
    requires seg.curveRadiusM <= 0.0
    ensures CurveAllows(seg, vehicleMaxKMH, w) <==> 0.0 <= w <= vehicleMaxKMH / 3.6
  {
  }

  lemma StraightCap(seg: Segment, vehicleMaxKMH: real, capMS: real)
    requires 0.0 < vehicleMaxKMH && seg.curveRadiusM <= 0.0 && CappedFor(seg, vehicleMaxKMH, capMS)
    ensures capMS == Mul(vehicleMaxKMH / 3.6, LeftOnSlope(seg.gradePct))
  {
    hide LeftOnSlope, CurveAllows, Mul;
    var top :| && CurveAllows(seg, vehicleMaxKMH, top)
               && (forall w :: CurveAllows(seg, vehicleMaxKMH, w) ==> w <= top)
               && capMS == Mul(top, LeftOnSlope(seg.gradePct));
    StraightAllows(seg, vehicleMaxKMH, top);
    StraightAllows(seg, vehicleMaxKMH, vehicleMaxKMH / 3.6);
  }

  /**
   On straight track only a fall past 2 % costs speed: climbing, level and gently falling track is capped by
   the vehicle alone, a steep fall strictly lower, and a steeper one never higher.
   */
  lemma OnlyFallsDerate(sqrt: real -> real, segments: seq<SpanSegment>, vehicleMaxKMH: real, i: nat, j: nat)
    requires IsSquareRoot(sqrt) && 0.0 < vehicleMaxKMH && i < |segments| && j < |segments|
    requires segments[i].physics.curveRadiusM <= 0.0 && segments[j].physics.curveRadiusM <= 0.0
    ensures var legs := LegsOf(sqrt, segments, vehicleMaxKMH);
            && (-2.0 <= segments[i].physics.gradePct ==> legs[i].capMS == vehicleMaxKMH / 3.6)
            && (segments[i].physics.gradePct < -2.0 ==> legs[i].capMS < vehicleMaxKMH / 3.6)
            && (segments[i].physics.gradePct <= segments[j].physics.gradePct ==> legs[i].capMS <= legs[j].capMS)
  {
    var legs, top := LegsOf(sqrt, segments, vehicleMaxKMH), vehicleMaxKMH / 3.6;
    LegsCapped(sqrt, segments, vehicleMaxKMH, i);
    LegsCapped(sqrt, segments, vehicleMaxKMH, j);
    hide LegsOf, CappedFor, IsSquareRoot;
    StraightCap(segments[i].physics, vehicleMaxKMH, legs[i].capMS);
    StraightCap(segments[j].physics, vehicleMaxKMH, legs[j].capMS);
    hide LeftOnSlope, Mul;
    SlopeCosts(top, segments[i].physics.gradePct, segments[j].physics.gradePct);
  }

  lemma SlopeCosts(top: real, x: real, y: real)
    requires 0.0 < top
    ensures -2.0 <= x ==> Mul(top, LeftOnSlope(x)) == top
    ensures x < -2.0 ==> Mul(top, LeftOnSlope(x)) < top
    ensures x <= y ==> Mul(top, LeftOnSlope(x)) <= Mul(top, LeftOnSlope(y))
  {
    AllOfIt(top);
    PartOfIt(top, LeftOnSlope(x), 1.0);
    PartOfIt(top, LeftOnSlope(x), LeftOnSlope(y));
    hide Mul;
  }

  lemma AllOfIt(x: real)
    ensures Mul(x, 1.0) == x
  {
  }

  lemma PartOfIt(x: real, f: real, g: real)
    requires 0.0 < x
    ensures f <= g ==> Mul(x, f) <= Mul(x, g)
    ensures f < g ==> Mul(x, f) < Mul(x, g)
  {
    if f < g {
      MulPositive(g - f, x);
      assert (g - f) * x == x * g - x * f;
    }
  }

  /**
   On track that falls at most 2 % the cap is the greatest speed that the vehicle allows and, on a curve, that
   the applied cant and 150 mm of deficiency carry over a gauge of 1500 mm.
   */
  lemma CurvesCap(sqrt: real -> real, segments: seq<SpanSegment>, vehicleMaxKMH: real, i: nat, w: real)
    requires IsSquareRoot(sqrt) && 0.0 < vehicleMaxKMH && i < |segments| && -2.0 <= segments[i].physics.gradePct
    ensures var seg, capMS := segments[i].physics, LegsOf(sqrt, segments, vehicleMaxKMH)[i].capMS;
            var cantMM := (if seg.cantMM < 0.0 then 0.0 else seg.cantMM) + 150.0;
            && 0.0 <= capMS <= vehicleMaxKMH / 3.6
            && (0.0 < seg.curveRadiusM ==> capMS * capMS * 1500.0 <= cantMM * 9.81 * seg.curveRadiusM)
            && (0.0 <= w <= vehicleMaxKMH / 3.6 && (0.0 < seg.curveRadiusM ==> w * w * 1500.0 <= cantMM * 9.81 * seg.curveRadiusM)
                ==> w <= capMS)
  {
    LegsCapped(sqrt, segments, vehicleMaxKMH, i);
    hide LegsOf, IsSquareRoot;
    var seg, capMS := segments[i].physics, LegsOf(sqrt, segments, vehicleMaxKMH)[i].capMS;
    LevelCap(seg, vehicleMaxKMH, capMS, w);
  }

  lemma LevelCap(seg: Segment, vehicleMaxKMH: real, capMS: real, w: real)
    requires CappedFor(seg, vehicleMaxKMH, capMS) && -2.0 <= seg.gradePct
    ensures CurveAllows(seg, vehicleMaxKMH, capMS)
    ensures CurveAllows(seg, vehicleMaxKMH, w) ==> w <= capMS
  {
    hide CurveAllows;
    var top :| && CurveAllows(seg, vehicleMaxKMH, top)
               && (forall w :: CurveAllows(seg, vehicleMaxKMH, w) ==> w <= top)
               && capMS == Mul(top, LeftOnSlope(seg.gradePct));
    AllOfIt(top);
  }

  // ----- The run time -----

  /** One leg for every segment, of its length and with the cap its own track gives. */
  ghost predicate OwnLegs(segments: seq<SpanSegment>, vehicleMaxKMH: real, legs: seq<Leg>) {
    && |legs| == |segments|
    && forall i :: 0 <= i < |segments| ==>
         legs[i].distM == segments[i].distanceM && CappedFor(segments[i].physics, vehicleMaxKMH, legs[i].capMS)
  }

  /** The least time in which the legs can be travelled from rest to rest at the two rates. */
  ghost predicate LeastJourney(legs: seq<Leg>, accel: real, decel: real, secs: real) {
    && (exists j :: Travels(j, 0.0, legs, accel, decel) && JourneySecs(j) == secs)
    && (forall j :: Travels(j, 0.0, legs, accel, decel) ==> secs <= JourneySecs(j))
  }

  lemma RunIsLeast(sqrt: real -> real, legs: seq<Leg>, accel: real, decel: real)
    requires IsSquareRoot(sqrt) && 0.0 < accel && 0.0 < decel && ValidLegs(legs)
    ensures LeastJourney(legs, accel, decel, RunSeconds(sqrt, legs, Rates(accel, decel)))
  {
    hide RunSeconds, Travels, IsSquareRoot;
    var best := FastestJourney(sqrt, legs, Rates(accel, decel));
    forall j | Travels(j, 0.0, legs, accel, decel) ensures RunSeconds(sqrt, legs, Rates(accel, decel)) <= JourneySecs(j) {
      NoFasterJourney(sqrt, j, legs, Rates(accel, decel));
    }
  }

  lemma LegsOwn(sqrt: real -> real, segments: seq<SpanSegment>, vehicleMaxKMH: real)
    requires IsSquareRoot(sqrt) && 0.0 < vehicleMaxKMH
    ensures OwnLegs(segments, vehicleMaxKMH, LegsOf(sqrt, segments, vehicleMaxKMH))
  {
    hide LegsOf, CappedFor, IsSquareRoot;
    forall i | 0 <= i < |segments|
      ensures var legs := LegsOf(sqrt, segments, vehicleMaxKMH);
              legs[i].distM == segments[i].distanceM && CappedFor(segments[i].physics, vehicleMaxKMH, legs[i].capMS)
    {
      LegsCapped(sqrt, segments, vehicleMaxKMH, i);
    }
  }

  /**
   The span's run time, or the first check that fails. A cap is never refused: the check on it in
   the loop cannot fail for a vehicle that passed the earlier ones.
   */
  method SpanRunSeconds(sqrt: real -> real, distanceM: real, segments: seq<SpanSegment>, vehicle: VehicleLimits)
    returns (result: Result)
    requires IsSquareRoot(sqrt)
    requires forall i :: 0 <= i < |segments| ==> 0.0 <= segments[i].distanceM
    ensures result.Err? <==> !ValidVehicle(vehicle) || (0.0 < distanceM && segments == [])
    ensures result.Err? ==>
              result.error == if vehicle.maxSpeedKMH <= 0.0 then BadMaxSpeed
                              else if vehicle.accelerationMS2 <= 0.0 then BadAcceleration
                              else if vehicle.decelerationMS2 <= 0.0 then BadDeceleration
                              else NoSegments
    ensures result.Ok? && distanceM <= 0.0 ==> result.seconds == 0.0
    ensures result.Ok? && 0.0 < distanceM ==>
              && ValidLegs(LegsOf(sqrt, segments, vehicle.maxSpeedKMH))
              && result.seconds == RunSeconds(sqrt, LegsOf(sqrt, segments, vehicle.maxSpeedKMH),
                                              Rates(vehicle.accelerationMS2, vehicle.decelerationMS2))
    ensures result.Ok? && 0.0 < distanceM ==>
              exists legs :: OwnLegs(segments, vehicle.maxSpeedKMH, legs)
                             && LeastJourney(legs, vehicle.accelerationMS2, vehicle.decelerationMS2, result.seconds)
  {
    hide OwnLegs, LeastJourney, LimitKMH, LegSeconds, TotalSeconds, NodeSpeeds, ToMS, IsSquareRoot;
    if !(vehicle.maxSpeedKMH > 0.0) { return Err(BadMaxSpeed); }
    if !(vehicle.accelerationMS2 > 0.0) { return Err(BadAcceleration); }
    if !(vehicle.decelerationMS2 > 0.0) { return Err(BadDeceleration); }
    if distanceM <= 0.0 { return Ok(0.0); }
    if segments == [] { return Err(NoSegments); }

    LegsValid(sqrt, segments, vehicle.maxSpeedKMH);
    ghost var want := LegsOf(sqrt, segments, vehicle.maxSpeedKMH);
    var n, legs, i := |segments|, [], 0;
    while i < n
      invariant 0 <= i <= n
      invariant legs == want[..i]
    {
      var seg := segments[i].physics;
      var limit := SpeedLimit(sqrt, Inputs(seg.curveRadiusM, seg.cantMM, 0.0, seg.gradePct / 100.0, vehicle.maxSpeedKMH));
      assert ToMS(limit) == want[i].capMS;
      if !(ToMS(limit) > 0.0) { assert false; }
      legs := legs + [Leg(segments[i].distanceM, ToMS(limit))];
      i := i + 1;
    }
    assert legs == want;
    var rates := Rates(vehicle.accelerationMS2, vehicle.decelerationMS2);
    var v := BoundedNodeSpeeds(sqrt, legs, rates);
    var total := SumLegs(sqrt, legs, rates, v);
    LegsOwn(sqrt, segments, vehicle.maxSpeedKMH);
    RunIsLeast(sqrt, legs, vehicle.accelerationMS2, vehicle.decelerationMS2);
    return Ok(total);
  }

  /** The summing loop of `SpanRunSeconds`. */
  method SumLegs(sqrt: real -> real, legs: seq<Leg>, r: Rates, v: seq<real>) returns (total: real)
    requires ValidRates(r) && ValidLegs(legs) && |v| == |legs| + 1
    ensures total == TotalSeconds(sqrt, legs, r, v)
  {
    hide LegSeconds;
    total := 0.0;
    var i := 0;
    while i < |legs|
      invariant 0 <= i <= |legs|
      invariant total + TotalSeconds(sqrt, legs[i..], r, v[i..]) == TotalSeconds(sqrt, legs, r, v)
    {
      total := total + LegSeconds(sqrt, legs[i], r, v[i], v[i + 1]);
      assert legs[i..][1..] == legs[i + 1..] && v[i..][1..] == v[i + 1..];
      i := i + 1;
    }
  }
}
