/**
 * The threshold search shared by first-passage extraction and TRT inference:
 * `np.argmax(values >= threshold)` followed by a check of the value at the
 * index it returns. The result is a grid time, or `Inf` for "+inf" when no
 * value reaches the threshold.
 */
module Crossing {

  /** A time on the grid, or the "+inf" sentinel for "never reached". */
  datatype Time = Finite(t: real) | Inf

  /** The order on times extended with `Inf` as the top element. */
  predicate TimeLe(a: Time, b: Time)
  {
    match (a, b)
    case (_, Inf) => true
    case (Inf, Finite(_)) => false
    case (Finite(x), Finite(y)) => x <= y
  }

  predicate NonDecreasing(s: seq<real>)
  {
    forall i, j :: 0 <= i <= j < |s| ==> s[i] <= s[j]
  }

  /** No entry of `s` reaches `threshold`. */
  predicate NoneAtLeast(s: seq<real>, threshold: real)
  {
    forall j :: 0 <= j < |s| ==> s[j] < threshold
  }

  /** `k` is the leftmost index of `s` whose entry is at least `threshold`. */
  predicate IsFirstAtLeast(s: seq<real>, threshold: real, k: int)
  {
    0 <= k < |s| && s[k] >= threshold &&
    forall j :: 0 <= j < k ==> s[j] < threshold
  }

  /**
   * `np.argmax` over the boolean mask `s >= threshold`: the index of the first
   * `True`, or 0 when the mask is all `False`. An empty mask makes numpy raise,
   * hence the precondition.
   */
  function ArgMaxAtLeast(s: seq<real>, threshold: real): (idx: nat)
    requires |s| > 0
    ensures idx < |s|
    ensures s[idx] >= threshold ==> IsFirstAtLeast(s, threshold, idx)
    ensures s[idx] < threshold ==> idx == 0 && NoneAtLeast(s, threshold)
  {
    if s[0] >= threshold || |s| == 1 then 0
    else
      var rest := ArgMaxAtLeast(s[1..], threshold);
      if s[1..][rest] >= threshold then rest + 1 else 0
  }

  /**
   * The argmax-then-check pattern: the time at the first index whose value is
   * at least `threshold`, or `Inf` when there is none. Times are looked up by
   * index, so the result is always a grid point.
   */
  function CrossingTime(values: seq<real>, times: seq<real>, threshold: real): (r: Time)
    requires 0 < |values| <= |times|
    ensures r.Inf? <==> NoneAtLeast(values, threshold)
    ensures forall k :: IsFirstAtLeast(values, threshold, k) ==> r == Finite(times[k])
    ensures values[0] >= threshold ==> r == Finite(times[0])
    ensures r.Finite? ==> r.t in times[..|values|]
  {
    var idx := ArgMaxAtLeast(values, threshold);
    if values[idx] >= threshold then Finite(times[idx]) else Inf
  }

  /** Raising the threshold never moves the selected index earlier. */
  lemma ArgMaxMonotone(s: seq<real>, lo: real, hi: real)
    requires |s| > 0 && lo <= hi
    requires s[ArgMaxAtLeast(s, hi)] >= hi
    ensures s[ArgMaxAtLeast(s, lo)] >= lo
    ensures ArgMaxAtLeast(s, lo) <= ArgMaxAtLeast(s, hi)
  {
  }

  /**
   * On non-decreasing times, raising the threshold never makes the crossing
   * time earlier (with `Inf` as the latest).
   */
  lemma CrossingTimeMonotone(values: seq<real>, times: seq<real>, lo: real, hi: real)
    requires 0 < |values| <= |times|
    requires NonDecreasing(times) && lo <= hi
    ensures TimeLe(CrossingTime(values, times, lo), CrossingTime(values, times, hi))
  {
    var j := ArgMaxAtLeast(values, hi);
    if values[j] >= hi {
      ArgMaxMonotone(values, lo, hi);
      var i := ArgMaxAtLeast(values, lo);
      assert times[i] <= times[j];
    }
  }

  /**
   * On non-decreasing values, whether a crossing exists is decided by the
   * last value alone, and everything from the crossing index on is at or
   * above the threshold.
   */
  lemma CrossingOnNonDecreasing(values: seq<real>, times: seq<real>, threshold: real)
    requires 0 < |values| <= |times| && NonDecreasing(values)
    ensures CrossingTime(values, times, threshold).Inf? <==> values[|values| - 1] < threshold
    ensures values[ArgMaxAtLeast(values, threshold)] >= threshold ==>
      forall j :: ArgMaxAtLeast(values, threshold) <= j < |values| ==> values[j] >= threshold
  {
    var last := |values| - 1;
    if values[last] < threshold {
      forall j | 0 <= j < |values| ensures values[j] < threshold {
        assert values[j] <= values[last];
      }
    }
  }
}
