/**
 Speed caps from track geometry (internal/physics/speedlimit.go). Not-a-number and infinite
 inputs have no counterpart over the reals; a radius of zero or less is straight track, as in the
 source.
 */
module SpeedLimits {
  import opened Reals

  datatype Segment = Segment(cantMM: real, curveRadiusM: real, gradePct: real)

  datatype Inputs = Inputs(
    curveRadiusM: real, appliedCantMM: real, maxCantDeficiencyMM: real, grade: real, vehicleMaxKMH: real)

  function GradeFactor(grade: real): (f: real)
    ensures 0.5 <= f <= 1.0
    ensures -0.02 <= grade <==> f == 1.0
  {
    if grade >= 0.0 then 1.0
    else if -grade <= 0.02 then 1.0
    else Max(0.5, 1.0 - 5.0 * (-grade - 0.02))
  }

  /** The cant a train may use: what is applied plus the deficiency allowed. */
  function EffectiveCantMM(x: Inputs): (cant: real)
    ensures 0.0 < cant
  {
    (if x.appliedCantMM < 0.0 then 0.0 else x.appliedCantMM)
    + (if x.maxCantDeficiencyMM <= 0.0 then 150.0 else x.maxCantDeficiencyMM)
  }

  /** The squared speed in m/s that a curve supports on a 1500 mm gauge. */
  function LateralSq(x: Inputs): (r: real)
    ensures 0.0 < x.curveRadiusM ==> 0.0 < r
  {
    MulPositiveAuto(EffectiveCantMM(x) / 1500.0 * 9.81, x.curveRadiusM);
    EffectiveCantMM(x) / 1500.0 * 9.81 * x.curveRadiusM
  }

  lemma MulPositiveAuto(x: real, y: real)
    ensures 0.0 < x && 0.0 < y ==> 0.0 < x * y
  {
  }

  function ToMS(kmh: real): real {
    kmh / 3.6
  }

  method SpeedLimit(sqrt: real -> real, x: Inputs) returns (speed: real)
    requires IsSquareRoot(sqrt)
    ensures speed == LimitKMH(sqrt, x)
  {
    if !(x.vehicleMaxKMH > 0.0) {
      return 0.0;
    }
    speed := x.vehicleMaxKMH;
    if x.curveRadiusM > 0.0 {
      var vCurveMS := sqrt(LateralSq(x));
      speed := Min(vCurveMS * 3.6, x.vehicleMaxKMH);
    }
    speed := Mul(speed, GradeFactor(x.grade));
  }

  function LimitKMH(sqrt: real -> real, x: Inputs): real {
    if x.vehicleMaxKMH <= 0.0 then 0.0
    else if x.curveRadiusM <= 0.0 then Mul(x.vehicleMaxKMH, GradeFactor(x.grade))
    else Mul(Min(sqrt(LateralSq(x)) * 3.6, x.vehicleMaxKMH), GradeFactor(x.grade))
  }

  /**
   With a positive vehicle maximum the cap is positive and at most that maximum, and on a curve the
   squared speed in m/s never exceeds what the effective cant supports.
   */
  lemma LimitBounds(sqrt: real -> real, x: Inputs)
    requires IsSquareRoot(sqrt) && 0.0 < x.vehicleMaxKMH
    ensures 0.0 < LimitKMH(sqrt, x) <= x.vehicleMaxKMH
    ensures 0.0 < x.curveRadiusM ==>
              Sq(ToMS(LimitKMH(sqrt, x))) <= LateralSq(x)
  {
    hide Mul, GradeFactor, LateralSq;
    var f := GradeFactor(x.grade);
    if x.curveRadiusM <= 0.0 {
      Derate(x.vehicleMaxKMH, f);
    } else {
      var lateral := LateralSq(x);
      var root := sqrt(lateral);
      assert Sq(root) == lateral;
      assert 0.0 < root;
      var speed := Min(root * 3.6, x.vehicleMaxKMH);
      Derate(speed, f);
      SqOrder(ToMS(LimitKMH(sqrt, x)), root);
    }
  }

  lemma Derate(speed: real, f: real)
    requires 0.0 < speed && 0.5 <= f <= 1.0
    ensures 0.0 < Mul(speed, f) <= speed
  {
    MulPositive(speed, f);
    MulOrder(f, 1.0, speed);
  }

  /** A speed within the vehicle maximum that, on a curve, the effective cant supports. */
  ghost predicate Allowed(x: Inputs, kmh: real) {
    && 0.0 <= kmh <= x.vehicleMaxKMH
    && (0.0 < x.curveRadiusM ==> Sq(ToMS(kmh)) <= LateralSq(x))
  }

  /** The limit is the greatest allowed speed, derated for the grade. */
  lemma LimitIsGreatestAllowed(sqrt: real -> real, x: Inputs) returns (top: real)
    requires IsSquareRoot(sqrt) && 0.0 < x.vehicleMaxKMH
    ensures Allowed(x, top) && forall w :: Allowed(x, w) ==> w <= top
    ensures LimitKMH(sqrt, x) == Mul(top, GradeFactor(x.grade))
  {
    hide Mul, GradeFactor, LateralSq, Sq;
    if x.curveRadiusM <= 0.0 {
      top := x.vehicleMaxKMH;
    } else {
      var root := sqrt(LateralSq(x));
      top := Min(root * 3.6, x.vehicleMaxKMH);
      assert Sq(root) == LateralSq(x) && 0.0 <= root;
      SqOrder(ToMS(top), root);
      forall w | Allowed(x, w) ensures w <= top {
        SqOrder(ToMS(w), root);
      }
    }
  }
}
