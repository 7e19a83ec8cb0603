/**
 Facts about real arithmetic that the kinematics and projection models share, and the assumption
 under which they use a square root: `math.Sqrt` is a parameter constrained by `IsSquareRoot`.
 */
module Reals {

  /** What the models assume of `math.Sqrt`. Rounding is not modelled. */
  ghost predicate IsSquareRoot(sqrt: real -> real) {
    forall x :: 0.0 <= x ==> 0.0 <= sqrt(x) && Sq(sqrt(x)) == x
  }

  function Sq(x: real): real {
    x * x
  }

  /** A product that a proof can hide, to reason about it linearly. */
  function Mul(x: real, y: real): real {
    x * y
  }

  function Min(x: real, y: real): real {
    if x <= y then x else y
  }

  function Max(x: real, y: real): real {
    if x <= y then y else x
  }

  lemma MulNonNegative(x: real, y: real)
    requires 0.0 <= x && 0.0 <= y
    ensures 0.0 <= x * y
  {
  }

  lemma MulPositive(x: real, y: real)
    requires 0.0 < x && 0.0 < y
    ensures 0.0 < x * y
  {
  }

  lemma MulOrder(x: real, y: real, s: real)
    requires x <= y && 0.0 <= s
    ensures x * s <= y * s
  {
    MulNonNegative(y - x, s);
  }

  lemma SqNonNegative(x: real)
    ensures 0.0 <= Sq(x)
  {
    if x < 0.0 {
      MulNonNegative(-x, -x);
    } else {
      MulNonNegative(x, x);
    }
  }

  /** Squaring preserves and reflects the order of non-negative reals. */
  lemma SqOrder(x: real, y: real)
    requires 0.0 <= x && 0.0 <= y
    ensures x <= y <==> Sq(x) <= Sq(y)
  {
    if x <= y {
      MulOrder(x, y, x);
      MulOrder(x, y, y);
    } else {
      MulPositive(x - y, x + y);
      assert (x - y) * (x + y) == x * x - y * y;
    }
  }

  lemma SqEqual(x: real, y: real)
    requires 0.0 <= x && 0.0 <= y
    requires Sq(x) == Sq(y)
    ensures x == y
  {
    SqOrder(x, y);
    SqOrder(y, x);
  }

  /** A positive factor can be cancelled from an inequality. */
  lemma CancelFactor(x: real, y: real, s: real)
    requires 0.0 < s
    requires x * s <= y * s
    ensures x <= y
  {
    if y < x {
      MulPositive(x - y, s);
    }
  }

  lemma CancelEqual(x: real, y: real, s: real)
    requires 0.0 < s
    requires x * s == y * s
    ensures x == y
  {
    CancelFactor(x, y, s);
    CancelFactor(y, x, s);
  }

  /** Equal products with positive factors have factors of equal sign. */
  lemma SameSign(x: real, s: real, y: real, t: real)
    requires 0.0 < s && 0.0 < t
    requires x * s == y * t
    ensures 0.0 <= x <==> 0.0 <= y
  {
    if 0.0 <= x {
      MulNonNegative(x, s);
      CancelFactor(0.0, y, t);
    }
    if 0.0 <= y {
      MulNonNegative(y, t);
      CancelFactor(0.0, x, s);
    }
  }
}
