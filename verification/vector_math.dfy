/**
 * Distance and blending over feature vectors.
 *
 * The source compares Euclidean distances `norm(a - b)` with `<` and with
 * thresholds. The model works with the SQUARED distance instead: distances
 * are non-negative and squaring is strictly monotone on non-negative reals,
 * so every comparison between two distances, and every threshold test, has
 * an exact counterpart on squares (`SquareOrder`, `ThresholdTestsAgree`).
 * This keeps all arithmetic exact and free of `sqrt`.
 */
module VectorMath {

  type Vector = seq<real>

  /** Squared Euclidean distance between two vectors of equal length. */
  function SqDist(a: Vector, b: Vector): (d: real)
    requires |a| == |b|
    ensures d >= 0.0
  {
    if |a| == 0 then 0.0 else (a[0] - b[0]) * (a[0] - b[0]) + SqDist(a[1..], b[1..])
  }

  /** Every vector is at distance zero from itself. */
  lemma {:induction false} SqDistSelf(a: Vector)
    ensures SqDist(a, a) == 0.0
  {
    if |a| > 0 {
      SqDistSelf(a[1..]);
    }
  }

  /** The distance is symmetric. */
  lemma {:induction false} SqDistSymmetric(a: Vector, b: Vector)
    requires |a| == |b|
    ensures SqDist(a, b) == SqDist(b, a)
  {
    if |a| > 0 {
      SqDistSymmetric(a[1..], b[1..]);
      assert (a[0] - b[0]) * (a[0] - b[0]) == (b[0] - a[0]) * (b[0] - a[0]);
    }
  }

  // ---- thresholds on squared distances --------------------------------

  /** `d <= t` for the distance `d` whose square is `d2`. */
  predicate AtMost(d2: real, t: real) {
    0.0 <= t && d2 <= t * t
  }

  /** `d < t` for the distance `d` whose square is `d2`. */
  predicate Below(d2: real, t: real) {
    0.0 < t && d2 < t * t
  }

  /** `d > t` for the distance `d` whose square is `d2`. */
  predicate Exceeds(d2: real, t: real) {
    !AtMost(d2, t)
  }

  lemma PositiveProduct(x: real, y: real)
    requires x > 0.0 && y > 0.0
    ensures x * y > 0.0
  {
  }

  /** Squaring is strictly increasing on the non-negative reals. */
  lemma SquareOrder(x: real, y: real)
    requires 0.0 <= x < y
    ensures x * x < y * y
  {
    PositiveProduct(y - x, y + x);
    assert (y - x) * (y + x) == y * y - x * x;
  }

  /**
   * Every threshold test of the source has its squared counterpart:
   * for a distance `d >= 0`, `d <= t`, `d < t` and `d > t` hold exactly
   * when `AtMost`, `Below` and `Exceeds` hold of `d * d`.
   */
  lemma ThresholdTestsAgree(d: real, t: real)
    requires 0.0 <= d
    ensures d <= t <==> AtMost(d * d, t)
    ensures d < t <==> Below(d * d, t)
    ensures d > t <==> Exceeds(d * d, t)
  {
    if 0.0 <= t {
      if d < t {
        SquareOrder(d, t);
      } else if t < d {
        SquareOrder(t, d);
      }
    }
  }

  /** Comparing two distances is the same as comparing their squares. */
  lemma DistanceOrderAgrees(d: real, e: real)
    requires 0.0 <= d && 0.0 <= e
    ensures d < e <==> d * d < e * e
  {
    if d < e {
      SquareOrder(d, e);
    } else if e < d {
      SquareOrder(e, d);
    }
  }

  // ---- blending --------------------------------------------------------

  /** One coordinate of a blend: `keep * x + adopt * y`. */
  function Blend(x: real, y: real, keep: real, adopt: real): real {
    keep * x + adopt * y
  }

  /**
   * The element-wise weighted sum `keep * prior + adopt * capture`. This is
   * the reference definition of a blend; what a blend means (every
   * coordinate between the stored and captured values, and a capture equal
   * to the template leaving it unchanged) is proved about it by
   * `BlendsStayBetween` and `BlendsFixEqual` in the update module.
   */
  function Mix(prior: Vector, capture: Vector, keep: real, adopt: real): (r: Vector)
    requires |prior| == |capture|
    ensures |r| == |prior|
    ensures forall i :: 0 <= i < |r| ==> r[i] == Blend(prior[i], capture[i], keep, adopt)
  {
    seq(|prior|, i requires 0 <= i < |prior| => Blend(prior[i], capture[i], keep, adopt))
  }
}
