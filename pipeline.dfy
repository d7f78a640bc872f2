/**
 * The two stages chained as the demo drivers chain them: first-passage times
 * from the paths, PoF on the same time grid, then risk and TRT.
 */
module Pipeline {
  import opened Crossing
  import opened WienerGamma
  import opened TrtPolicy

  /**
   * When no path ever reaches the failure level, PoF is identically 0 and,
   * for a positive CoF and epsilon, the TRT is `Inf`.
   */
  lemma NeverFailingPathsNeverTrigger(paths: seq<seq<real>>, times: seq<real>, level: real, cof: real, epsilon: real)
    requires RowsFit(paths, times) && 0 < |times|
    requires forall i :: 0 <= i < |paths| ==> NoneAtLeast(paths[i], level)
    requires cof > 0.0 && epsilon > 0.0
    ensures forall i :: 0 <= i < |times| ==> PoF(FirstPassages(paths, times, level), times)[i] == 0.0
    ensures InferTrt(times, RiskCurve(times, PoF(FirstPassages(paths, times, level), times), cof),
                     RcritFromRule(cof, epsilon)) == Inf
  {
    var fpt := FirstPassages(paths, times, level);
    PoFZeroWhenNoneFinite(fpt, times);
    var risk := RiskCurve(times, PoF(fpt, times), cof);
    assert NoneAtLeast(risk, RcritFromRule(cof, epsilon)) by {
      forall k | 0 <= k < |risk| ensures risk[k] < RcritFromRule(cof, epsilon) {
        assert risk[k] == 0.0 * cof;
      }
    }
  }
}
