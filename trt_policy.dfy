/**
 * The policy stage: the risk curve R(t) = PoF(t) * CoF, the critical risk
 * level Rcrit = CoF * epsilon, and the Time to Risk Threshold (TRT), the
 * earliest grid time at which risk reaches Rcrit.
 */
module TrtPolicy {
  import opened Crossing

  /** `compute_risk_curve`: PoF scaled element by element by the cost of failure. */
  function RiskCurve(times: seq<real>, pof: seq<real>, cof: real): (risk: seq<real>)
    ensures |risk| == |pof|
    ensures forall i :: 0 <= i < |pof| ==> risk[i] == pof[i] * cof
  {
    seq(|pof|, i requires 0 <= i < |pof| => pof[i] * cof)
  }

  /** `rcrit_from_rule`: the critical risk level is the fraction `epsilon` of the cost of failure. */
  function RcritFromRule(cof: real, epsilon: real): (rcrit: real)
    ensures cof == 0.0 || epsilon == 0.0 ==> rcrit == 0.0
    ensures cof > 0.0 && epsilon > 0.0 ==> rcrit > 0.0
    ensures cof >= 0.0 && 0.0 <= epsilon <= 1.0 ==> 0.0 <= rcrit <= cof
  {
    cof * epsilon
  }

  /**
   * `infer_trt`: the grid time at the first index where risk is at least
   * `rcrit`, or `Inf` when risk stays below it everywhere.
   */
  function InferTrt(times: seq<real>, risk: seq<real>, rcrit: real): (trt: Time)
    requires 0 < |risk| <= |times|
    ensures trt.Inf? <==> NoneAtLeast(risk, rcrit)
    ensures forall k :: IsFirstAtLeast(risk, rcrit, k) ==> trt == Finite(times[k])
    ensures risk[0] >= rcrit ==> trt == Finite(times[0])
  {
    CrossingTime(risk, times, rcrit)
  }

  /** The `times` argument of the risk curve has no effect on it. */
  lemma RiskIgnoresTimes(t1: seq<real>, t2: seq<real>, pof: seq<real>, cof: real)
    ensures RiskCurve(t1, pof, cof) == RiskCurve(t2, pof, cof)
  {
  }

  /** A non-negative CoF keeps a non-decreasing PoF curve non-decreasing. */
  lemma RiskNonDecreasing(times: seq<real>, pof: seq<real>, cof: real)
    requires cof >= 0.0 && NonDecreasing(pof)
    ensures NonDecreasing(RiskCurve(times, pof, cof))
  {
    var risk := RiskCurve(times, pof, cof);
    forall i, j | 0 <= i <= j < |risk| ensures risk[i] <= risk[j] {
      ScaleMonotone(pof[i], pof[j], cof);
    }
  }

  lemma ScaleMonotone(a: real, b: real, c: real)
    requires a <= b && c >= 0.0
    ensures a * c <= b * c
  {
    assert (b - a) * c >= 0.0;
  }

  /** Probabilities in [0, 1] and a non-negative CoF give risk in [0, CoF]. */
  lemma RiskBounded(times: seq<real>, pof: seq<real>, cof: real)
    requires cof >= 0.0
    requires forall i :: 0 <= i < |pof| ==> 0.0 <= pof[i] <= 1.0
    ensures forall i :: 0 <= i < |pof| ==> 0.0 <= RiskCurve(times, pof, cof)[i] <= cof
  {
    forall i | 0 <= i < |pof| ensures 0.0 <= pof[i] * cof <= cof {
      ScaleMonotone(0.0, pof[i], cof);
      ScaleMonotone(pof[i], 1.0, cof);
    }
  }

  /**
   * Raising Rcrit never makes the TRT earlier on a non-decreasing grid; once
   * the lower level is never reached, neither is the higher one.
   */
  lemma TrtMonotoneInRcrit(times: seq<real>, risk: seq<real>, lo: real, hi: real)
    requires 0 < |risk| <= |times|
    requires NonDecreasing(times) && lo <= hi
    ensures TimeLe(InferTrt(times, risk, lo), InferTrt(times, risk, hi))
  {
    CrossingTimeMonotone(risk, times, lo, hi);
  }

  /** On a non-decreasing risk curve, TRT is `Inf` exactly when the last risk value is below Rcrit. */
  lemma TrtOnNonDecreasingRisk(times: seq<real>, risk: seq<real>, rcrit: real)
    requires 0 < |risk| <= |times| && NonDecreasing(risk)
    ensures InferTrt(times, risk, rcrit).Inf? <==> risk[|risk| - 1] < rcrit
  {
    CrossingOnNonDecreasing(risk, times, rcrit);
  }

  /** With CoF = 0, Rcrit and every risk value are 0, so TRT is the first grid time. */
  lemma ZeroCofTriggersAtStart(times: seq<real>, pof: seq<real>, epsilon: real)
    requires 0 < |pof| <= |times|
    ensures InferTrt(times, RiskCurve(times, pof, 0.0), RcritFromRule(0.0, epsilon)) == Finite(times[0])
  {
    var risk := RiskCurve(times, pof, 0.0);
    assert risk[0] == 0.0;
  }

  /**
   * times = [0, 1, 2, 3], PoF = [0, 0.2, 0.6, 0.6], CoF = 5, epsilon = 0.1:
   * risk is [0, 1, 3, 3] and Rcrit is 0.5, so risk first reaches Rcrit at
   * index 1 and TRT is the grid time 1, not an interpolated 0.5.
   */
  lemma GridOnlyTrt()
    ensures RiskCurve([0.0, 1.0, 2.0, 3.0], [0.0, 0.2, 0.6, 0.6], 5.0) == [0.0, 1.0, 3.0, 3.0]
    ensures RcritFromRule(5.0, 0.1) == 0.5
    ensures InferTrt([0.0, 1.0, 2.0, 3.0], [0.0, 1.0, 3.0, 3.0], 0.5) == Finite(1.0)
  {
    assert IsFirstAtLeast([0.0, 1.0, 3.0, 3.0], 0.5, 1);
  }
}
