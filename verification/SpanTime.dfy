/**
 The run time of a whole span (internal/physics/runtime.go, `SpanRunSeconds`): the sum of the leg
 times over the bounded node speeds. The results compare it with every other profile, with the
 same span cut at an extra boundary, with the same span split by an extra stop, and with the span
 driven the other way.
 */
module SpanTime {
  import opened Reals
  import opened Sorting
  import opened Kinematics
  import opened LegTime

  /** The total time of a profile over the legs. */
  function TotalSeconds(sqrt: real -> real, legs: seq<Leg>, r: Rates, v: seq<real>): real
    requires ValidRates(r) && ValidLegs(legs) && |v| == |legs| + 1
  {
    if legs == [] then 0.0
    else LegSeconds(sqrt, legs[0], r, v[0], v[1]) + TotalSeconds(sqrt, legs[1..], r, v[1..])
  }

  function RunSeconds(sqrt: real -> real, legs: seq<Leg>, r: Rates): real
    requires ValidRates(r) && ValidLegs(legs)
  {
    TotalSeconds(sqrt, legs, r, NodeSpeeds(sqrt, legs, r))
  }

  lemma {:induction false} TotalSplit(sqrt: real -> real, legs: seq<Leg>, r: Rates, v: seq<real>, k: nat)
    requires ValidRates(r) && ValidLegs(legs) && |v| == |legs| + 1 && k <= |legs|
    ensures TotalSeconds(sqrt, legs, r, v)
            == TotalSeconds(sqrt, legs[..k], r, v[..k + 1]) + TotalSeconds(sqrt, legs[k..], r, v[k..])
  {
    hide LegSeconds;
    if k == 0 {
      assert legs[0..] == legs && v[0..] == v;
    } else {
      TotalSplit(sqrt, legs[1..], r, v[1..], k - 1);
      assert legs[..k][1..] == legs[1..][..k - 1];
      assert v[..k + 1][1..] == v[1..][..k];
      assert legs[1..][k - 1..] == legs[k..];
      assert v[1..][k - 1..] == v[k..];
    }
  }

  /** Two profiles over the same legs: the pointwise faster one is never slower in total. */
  lemma {:induction false} FasterProfile(sqrt: real -> real, legs: seq<Leg>, r: Rates, v: seq<real>, w: seq<real>)
    requires IsSquareRoot(sqrt) && ValidRates(r) && ValidLegs(legs)
    requires Drivable(legs, r, v) && Drivable(legs, r, w) && PointwiseLe(v, w)
    ensures TotalSeconds(sqrt, legs, r, w) <= TotalSeconds(sqrt, legs, r, v)
  {
    hide LegSeconds, StepOk, IsSquareRoot;
    if legs != [] {
      assert StepOk(legs[0], r, v[0], v[1]) && StepOk(legs[0], r, w[0], w[1]);
      FasterBoundaries(sqrt, legs[0], r, v[0], v[1], w[0], w[1]);
      FasterProfile(sqrt, legs[1..], r, v[1..], w[1..]);
    }
  }

  /** No feasible profile beats the run time. */
  lemma LeastTime(sqrt: real -> real, legs: seq<Leg>, r: Rates, v: seq<real>)
    requires IsSquareRoot(sqrt) && ValidRates(r) && ValidLegs(legs)
    requires Feasible(legs, r, v)
    ensures RunSeconds(sqrt, legs, r) <= TotalSeconds(sqrt, legs, r, v)
  {
    hide StepOk, IsSquareRoot;
    NodeSpeedsFeasible(sqrt, legs, r);
    NodeSpeedsGreatest(sqrt, legs, r, v);
    FasterProfile(sqrt, legs, r, v, NodeSpeeds(sqrt, legs, r));
  }

  lemma LegTakesTime(sqrt: real -> real, leg: Leg, r: Rates, u: real, v: real)
    requires IsSquareRoot(sqrt) && ValidRates(r) && 0.0 < leg.capMS && StepOk(leg, r, u, v)
    ensures 0.0 <= LegSeconds(sqrt, leg, r, u, v)
  {
    hide IsSquareRoot, PeakSq, Budget, PeakScale, RampDist;
    if 0.0 < leg.distM && leg.distM < RampDist(leg, r, u, v) {
      var peak := PeakSeconds(sqrt, leg, r, u, v);
      hide StepOk, LegSeconds;
      QuotientNonNegative(peak - u, r.accel);
      QuotientNonNegative(peak - v, r.decel);
    } else if 0.0 < leg.distM {
      QuotientNonNegative(leg.capMS - u, r.accel);
      QuotientNonNegative(leg.capMS - v, r.decel);
      QuotientNonNegative(leg.distM - RampDist(leg, r, u, v), leg.capMS);
    }
  }

  lemma QuotientNonNegative(x: real, y: real)
    requires 0.0 <= x && 0.0 < y
    ensures 0.0 <= x / y
  {
  }

  lemma {:induction false} ProfileTakesTime(sqrt: real -> real, legs: seq<Leg>, r: Rates, v: seq<real>)
    requires IsSquareRoot(sqrt) && ValidRates(r) && ValidLegs(legs) && Drivable(legs, r, v)
    ensures 0.0 <= TotalSeconds(sqrt, legs, r, v)
  {
    hide IsSquareRoot, StepOk, LegSeconds;
    if legs != [] {
      LegTakesTime(sqrt, legs[0], r, v[0], v[1]);
      forall i | 0 <= i < |legs| - 1 ensures StepOk(legs[1..][i], r, v[1..][i], v[1..][i + 1]) {
        assert StepOk(legs[i + 1], r, v[i + 1], v[i + 2]);
      }
      ProfileTakesTime(sqrt, legs[1..], r, v[1..]);
    }
  }

  lemma RunTakesTime(sqrt: real -> real, legs: seq<Leg>, r: Rates)
    requires IsSquareRoot(sqrt) && ValidRates(r) && ValidLegs(legs)
    ensures 0.0 <= RunSeconds(sqrt, legs, r)
  {
    hide IsSquareRoot, StepOk, NodeSpeeds, TotalSeconds, ValidLegs;
    NodeSpeedsFeasible(sqrt, legs, r);
    ProfileTakesTime(sqrt, legs, r, NodeSpeeds(sqrt, legs, r));
  }

  // ----- An extra stop -----

  /**
   A stop between two parts of a line never lowers the total: driving the parts separately is one
   of the profiles of driving them through.
   */
  lemma StopNeverSaves(sqrt: real -> real, before: seq<Leg>, after: seq<Leg>, r: Rates)
    requires IsSquareRoot(sqrt) && ValidRates(r) && ValidLegs(before) && ValidLegs(after)
    ensures ValidLegs(before + after)
    ensures RunSeconds(sqrt, before + after, r) <= RunSeconds(sqrt, before, r) + RunSeconds(sqrt, after, r)
  {
    hide StepOk, IsSquareRoot, NodeSpeeds;
    var v, w := NodeSpeeds(sqrt, before, r), NodeSpeeds(sqrt, after, r);
    NodeSpeedsFeasible(sqrt, before, r);
    NodeSpeedsFeasible(sqrt, after, r);
    var legs, both, k := before + after, v + w[1..], |before|;
    forall i | 0 <= i < |legs| ensures StepOk(legs[i], r, both[i], both[i + 1]) {
      if i < k {
        assert StepOk(before[i], r, v[i], v[i + 1]);
      } else {
        assert both[i] == w[i - k] && both[i + 1] == w[i - k + 1];
        assert StepOk(after[i - k], r, w[i - k], w[i - k + 1]);
      }
    }
    LeastTime(sqrt, legs, r, both);
    TotalSplit(sqrt, legs, r, both, k);
    assert legs[..k] == before && both[..k + 1] == v && legs[k..] == after && both[k..] == w;
  }

  // ----- Cutting a leg in two -----

  function Cut(pre: seq<Leg>, d1: real, d2: real, cap: real, post: seq<Leg>): seq<Leg> {
    pre + [Leg(d1, cap), Leg(d2, cap)] + post
  }

  function Uncut(pre: seq<Leg>, d1: real, d2: real, cap: real, post: seq<Leg>): seq<Leg> {
    pre + [Leg(d1 + d2, cap)] + post
  }

  lemma TotalAt(sqrt: real -> real, legs: seq<Leg>, r: Rates, v: seq<real>, k: nat)
    requires ValidRates(r) && ValidLegs(legs) && |v| == |legs| + 1 && k < |legs|
    ensures TotalSeconds(sqrt, legs, r, v)
            == TotalSeconds(sqrt, legs[..k], r, v[..k + 1]) + LegSeconds(sqrt, legs[k], r, v[k], v[k + 1])
               + TotalSeconds(sqrt, legs[k + 1..], r, v[k + 1..])
  {
    hide LegSeconds;
    TotalSplit(sqrt, legs, r, v, k);
    assert legs[k..][1..] == legs[k + 1..] && v[k..][1..] == v[k + 1..];
  }

  /** The time of the legs away from the cut. */
  function Elsewhere(sqrt: real -> real, pre: seq<Leg>, post: seq<Leg>, r: Rates, v: seq<real>): real
    requires ValidRates(r) && ValidLegs(pre) && ValidLegs(post) && |v| == |pre| + |post| + 2
  {
    TotalSeconds(sqrt, pre, r, v[..|pre| + 1]) + TotalSeconds(sqrt, post, r, v[|pre| + 1..])
  }

  lemma UncutTotal(sqrt: real -> real, pre: seq<Leg>, d1: real, d2: real, cap: real, post: seq<Leg>, r: Rates,
                   v: seq<real>)
    requires ValidRates(r) && ValidLegs(pre) && ValidLegs(post) && 0.0 < cap && 0.0 < d1 && 0.0 < d2
    requires |v| == |pre| + |post| + 2
    ensures var k := |pre|;
            TotalSeconds(sqrt, Uncut(pre, d1, d2, cap, post), r, v)
            == Elsewhere(sqrt, pre, post, r, v) + LegSeconds(sqrt, Leg(d1 + d2, cap), r, v[k], v[k + 1])
  {
    hide LegSeconds, TotalSeconds;
    var k, legs := |pre|, Uncut(pre, d1, d2, cap, post);
    TotalAt(sqrt, legs, r, v, k);
    assert legs[..k] == pre && legs[k] == Leg(d1 + d2, cap) && legs[k + 1..] == post;
  }

  lemma CutTotal(sqrt: real -> real, pre: seq<Leg>, d1: real, d2: real, cap: real, post: seq<Leg>, r: Rates,
                 v: seq<real>, m: real)
    requires ValidRates(r) && ValidLegs(pre) && ValidLegs(post) && 0.0 < cap && 0.0 < d1 && 0.0 < d2
    requires |v| == |pre| + |post| + 2
    ensures var k := |pre|;
            TotalSeconds(sqrt, Cut(pre, d1, d2, cap, post), r, v[..k + 1] + [m] + v[k + 1..])
            == Elsewhere(sqrt, pre, post, r, v)
               + LegSeconds(sqrt, Leg(d1, cap), r, v[k], m) + LegSeconds(sqrt, Leg(d2, cap), r, m, v[k + 1])
  {
    hide LegSeconds, TotalSeconds;
    var k, legs, w := |pre|, Cut(pre, d1, d2, cap, post), v[..|pre| + 1] + [m] + v[|pre| + 1..];
    TotalAt(sqrt, legs, r, w, k);
    assert legs[..k] == pre && legs[k] == Leg(d1, cap) && w[..k + 1] == v[..k + 1];
    TotalAt(sqrt, legs[k + 1..], r, w[k + 1..], 0);
    assert legs[k + 1..][0] == Leg(d2, cap) && legs[k + 1..][1..] == post && w[k + 1..][1..] == v[k + 1..];
    EmptyTotal(sqrt, legs[k + 1..][..0], r, w[k + 1..][..1]);
  }

  lemma EmptyTotal(sqrt: real -> real, legs: seq<Leg>, r: Rates, v: seq<real>)
    requires ValidRates(r) && legs == [] && |v| == 1
    ensures TotalSeconds(sqrt, legs, r, v) == 0.0
  {
  }

  /** A feasible cut profile stays feasible when the boundary at the cut is dropped. */
  lemma DropCut(pre: seq<Leg>, d1: real, d2: real, cap: real, post: seq<Leg>, r: Rates, w: seq<real>)
    requires Feasible(Cut(pre, d1, d2, cap, post), r, w)
    ensures var k := |pre|;
            && Feasible(Uncut(pre, d1, d2, cap, post), r, w[..k + 1] + w[k + 2..])
            && StepOk(Leg(d1, cap), r, w[k], w[k + 1]) && StepOk(Leg(d2, cap), r, w[k + 1], w[k + 2])
  {
    hide StepOk;
    var k, cut, uncut := |pre|, Cut(pre, d1, d2, cap, post), Uncut(pre, d1, d2, cap, post);
    var v := w[..k + 1] + w[k + 2..];
    assert StepOk(cut[k], r, w[k], w[k + 1]) && StepOk(cut[k + 1], r, w[k + 1], w[k + 2]);
    JoinSteps(d1, d2, cap, r, w[k], w[k + 1], w[k + 2]);
    forall i | 0 <= i < |uncut| ensures StepOk(uncut[i], r, v[i], v[i + 1]) {
      if i < k {
        assert StepOk(cut[i], r, w[i], w[i + 1]);
      } else if i > k {
        assert StepOk(cut[i + 1], r, w[i + 1], w[i + 2]);
      }
    }
  }

  lemma UncutNoSlower(sqrt: real -> real, pre: seq<Leg>, d1: real, d2: real, cap: real, post: seq<Leg>, r: Rates)
    requires IsSquareRoot(sqrt) && ValidRates(r) && ValidLegs(pre) && ValidLegs(post)
    requires 0.0 < cap && 0.0 < d1 && 0.0 < d2
    ensures RunSeconds(sqrt, Uncut(pre, d1, d2, cap, post), r) <= RunSeconds(sqrt, Cut(pre, d1, d2, cap, post), r)
  {
    hide StepOk, IsSquareRoot, NodeSpeeds, LegSeconds, Feasible, TotalSeconds;
    var k, cut := |pre|, Cut(pre, d1, d2, cap, post);
    var w := NodeSpeeds(sqrt, cut, r);
    NodeSpeedsFeasible(sqrt, cut, r);
    DropCut(pre, d1, d2, cap, post, r, w);
    var v := w[..k + 1] + w[k + 2..];
    LeastTime(sqrt, Uncut(pre, d1, d2, cap, post), r, v);
    UncutTotal(sqrt, pre, d1, d2, cap, post, r, v);
    CutTotal(sqrt, pre, d1, d2, cap, post, r, v, w[k + 1]);
    assert w == v[..k + 1] + [w[k + 1]] + v[k + 1..];
    AnyCutNoFaster(sqrt, d1, d2, cap, r, w[k], w[k + 1], w[k + 2]);
  }

  lemma JoinSteps(d1: real, d2: real, cap: real, r: Rates, u: real, m: real, v: real)
    requires StepOk(Leg(d1, cap), r, u, m) && StepOk(Leg(d2, cap), r, m, v)
    ensures StepOk(Leg(d1 + d2, cap), r, u, v)
  {
    GainSum(r.accel, d1, d2);
    GainSum(r.decel, d1, d2);
    hide Sq, Gain;
  }

  lemma AnyCutNoFaster(sqrt: real -> real, d1: real, d2: real, cap: real, r: Rates, u: real, m: real, v: real)
    requires IsSquareRoot(sqrt) && ValidRates(r) && 0.0 < cap && 0.0 < d1 && 0.0 < d2
    requires StepOk(Leg(d1, cap), r, u, m) && StepOk(Leg(d2, cap), r, m, v)
    ensures LegSeconds(sqrt, Leg(d1 + d2, cap), r, u, v)
            <= LegSeconds(sqrt, Leg(d1, cap), r, u, m) + LegSeconds(sqrt, Leg(d2, cap), r, m, v)
  {
    JoinSteps(d1, d2, cap, r, u, m, v);
    var best := CutSpeed(sqrt, d1, d2, cap, r, u, v);
    CutSpeedOk(sqrt, d1, d2, cap, r, u, v);
    CutSpeedGreatest(sqrt, d1, d2, cap, r, u, v, m);
    CutExact(sqrt, d1, d2, cap, r, u, v);
    hide LegSeconds, StepOk, IsSquareRoot;
    FasterBoundaries(sqrt, Leg(d1, cap), r, u, m, u, best);
    FasterBoundaries(sqrt, Leg(d2, cap), r, m, v, best, v);
  }

  /** The uncut optimum, with its own speed at the cut inserted, is a feasible cut profile of the same time. */
  lemma CutNoSlower(sqrt: real -> real, pre: seq<Leg>, d1: real, d2: real, cap: real, post: seq<Leg>, r: Rates)
    requires IsSquareRoot(sqrt) && ValidRates(r) && ValidLegs(pre) && ValidLegs(post)
    requires 0.0 < cap && 0.0 < d1 && 0.0 < d2
    ensures RunSeconds(sqrt, Cut(pre, d1, d2, cap, post), r) <= RunSeconds(sqrt, Uncut(pre, d1, d2, cap, post), r)
  {
    hide StepOk, IsSquareRoot, NodeSpeeds, LegSeconds;
    var k, cut, uncut := |pre|, Cut(pre, d1, d2, cap, post), Uncut(pre, d1, d2, cap, post);
    var v := NodeSpeeds(sqrt, uncut, r);
    NodeSpeedsFeasible(sqrt, uncut, r);
    assert StepOk(uncut[k], r, v[k], v[k + 1]);
    var m := CutSpeed(sqrt, d1, d2, cap, r, v[k], v[k + 1]);
    CutSpeedOk(sqrt, d1, d2, cap, r, v[k], v[k + 1]);
    CutExact(sqrt, d1, d2, cap, r, v[k], v[k + 1]);
    var w := v[..k + 1] + [m] + v[k + 1..];
    forall i | 0 <= i < |cut| ensures StepOk(cut[i], r, w[i], w[i + 1]) {
      if i < k {
        assert StepOk(uncut[i], r, v[i], v[i + 1]);
      } else if i > k + 1 {
        assert StepOk(uncut[i - 1], r, v[i - 1], v[i]);
      }
    }
    LeastTime(sqrt, cut, r, w);
    UncutTotal(sqrt, pre, d1, d2, cap, post, r, v);
    CutTotal(sqrt, pre, d1, d2, cap, post, r, v, m);
  }

  /** Cutting a leg into two positive pieces with the same cap leaves the run time exactly unchanged. */
  lemma CutInvariant(sqrt: real -> real, pre: seq<Leg>, d1: real, d2: real, cap: real, post: seq<Leg>, r: Rates)
    requires IsSquareRoot(sqrt) && ValidRates(r) && ValidLegs(pre) && ValidLegs(post)
    requires 0.0 < cap && 0.0 < d1 && 0.0 < d2
    ensures RunSeconds(sqrt, Cut(pre, d1, d2, cap, post), r) == RunSeconds(sqrt, Uncut(pre, d1, d2, cap, post), r)
  {
    hide *;
    UncutNoSlower(sqrt, pre, d1, d2, cap, post, r);
    CutNoSlower(sqrt, pre, d1, d2, cap, post, r);
  }

  /** A stop in the middle of a leg never lowers the total either. */
  lemma StopInsideLegNeverSaves(sqrt: real -> real, pre: seq<Leg>, d1: real, d2: real, cap: real, post: seq<Leg>,
                                r: Rates)
    requires IsSquareRoot(sqrt) && ValidRates(r) && ValidLegs(pre) && ValidLegs(post)
    requires 0.0 < cap && 0.0 < d1 && 0.0 < d2
    ensures RunSeconds(sqrt, Uncut(pre, d1, d2, cap, post), r)
            <= RunSeconds(sqrt, pre + [Leg(d1, cap)], r) + RunSeconds(sqrt, [Leg(d2, cap)] + post, r)
  {
    hide RunSeconds, IsSquareRoot;
    CutInvariant(sqrt, pre, d1, d2, cap, post, r);
    StopNeverSaves(sqrt, pre + [Leg(d1, cap)], [Leg(d2, cap)] + post, r);
    assert pre + [Leg(d1, cap)] + ([Leg(d2, cap)] + post) == Cut(pre, d1, d2, cap, post);
  }

  // ----- The other direction -----

  lemma {:induction false} TotalReversed(sqrt: real -> real, legs: seq<Leg>, r: Rates, v: seq<real>)
    requires ValidRates(r) && ValidLegs(legs) && |v| == |legs| + 1
    ensures TotalSeconds(sqrt, legs, r, v)
            == TotalSeconds(sqrt, Reversed(legs), Rates(r.decel, r.accel), Reversed(v))
  {
    hide LegSeconds;
    var r', n := Rates(r.decel, r.accel), |legs|;
    if n > 0 {
      var back, w := Reversed(legs), Reversed(v);
      TotalReversed(sqrt, legs[1..], r, v[1..]);
      assert back[..n - 1] == Reversed(legs[1..]) && w[..n] == Reversed(v[1..]);
      TotalSplit(sqrt, back, r', w, n - 1);
      assert back[n - 1..] == [legs[0]] && w[n - 1..] == [v[1], v[0]];
      assert TotalSeconds(sqrt, [legs[0]], r', [v[1], v[0]]) == LegSeconds(sqrt, legs[0], r', v[1], v[0]);
      Mirror(sqrt, legs[0], r, v[0], v[1]);
    }
  }

  lemma ReversedNoSlower(sqrt: real -> real, legs: seq<Leg>, r: Rates)
    requires IsSquareRoot(sqrt) && ValidRates(r) && ValidLegs(legs)
    ensures RunSeconds(sqrt, Reversed(legs), Rates(r.decel, r.accel)) <= RunSeconds(sqrt, legs, r)
  {
    hide StepOk, IsSquareRoot, NodeSpeeds, TotalSeconds;
    var v, back, r' := NodeSpeeds(sqrt, legs, r), Reversed(legs), Rates(r.decel, r.accel);
    NodeSpeedsFeasible(sqrt, legs, r);
    var w := Reversed(v);
    forall i | 0 <= i < |back| ensures StepOk(back[i], r', w[i], w[i + 1]) {
      var j := |legs| - 1 - i;
      assert StepOk(legs[j], r, v[j], v[j + 1]);
      Mirror(sqrt, legs[j], r, v[j], v[j + 1]);
    }
    LeastTime(sqrt, back, r', w);
    TotalReversed(sqrt, legs, r, v);
  }

  /** Reversing the legs and swapping acceleration with braking keeps the run time. */
  lemma ReverseRunSameTime(sqrt: real -> real, legs: seq<Leg>, r: Rates)
    requires IsSquareRoot(sqrt) && ValidRates(r) && ValidLegs(legs)
    ensures RunSeconds(sqrt, Reversed(legs), Rates(r.decel, r.accel)) == RunSeconds(sqrt, legs, r)
  {
    hide IsSquareRoot, RunSeconds;
    var r' := Rates(r.decel, r.accel);
    ReversedNoSlower(sqrt, legs, r);
    ReversedNoSlower(sqrt, Reversed(legs), r');
    assert Reversed(Reversed(legs)) == legs;
    assert Rates(r'.decel, r'.accel) == r;
  }
}
