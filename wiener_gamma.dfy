/**
 * The simulation stage after path generation: first-passage extraction on the
 * time grid and the empirical probability-of-failure (PoF) curve built from
 * the first-passage times.
 */
module WienerGamma {
  import opened Crossing

  /**
   * What extraction needs of its inputs: numpy's argmax raises on an empty
   * row, and a crossing index must exist in `times`.
   */
  predicate RowsFit(paths: seq<seq<real>>, times: seq<real>)
  {
    forall i :: 0 <= i < |paths| ==> 0 < |paths[i]| <= |times|
  }

  /** The first-passage time of every path: the grid time of its first entry at or above `level`. */
  function FirstPassages(paths: seq<seq<real>>, times: seq<real>, level: real): (fpt: seq<Time>)
    requires RowsFit(paths, times)
    ensures |fpt| == |paths|
    ensures forall i :: 0 <= i < |paths| ==> fpt[i] == CrossingTime(paths[i], times, level)
  {
    seq(|paths|, i requires 0 <= i < |paths| => CrossingTime(paths[i], times, level))
  }

  /**
   * `first_passage_times`: start from an array of `Inf` and, path by path,
   * overwrite the entry with the grid time of the first index whose value is
   * at least `level`, when there is one.
   */
  method FirstPassageTimes(paths: seq<seq<real>>, times: seq<real>, level: real) returns (fpt: seq<Time>)
    requires RowsFit(paths, times)
    ensures fpt == FirstPassages(paths, times, level)
    ensures |fpt| == |paths|
    ensures forall i :: 0 <= i < |paths| ==> (fpt[i].Inf? <==> NoneAtLeast(paths[i], level))
    ensures forall i, k :: 0 <= i < |paths| && IsFirstAtLeast(paths[i], level, k) ==> fpt[i] == Finite(times[k])
    ensures forall i :: 0 <= i < |paths| && paths[i][0] >= level ==> fpt[i] == Finite(times[0])
    ensures forall i :: 0 <= i < |paths| && fpt[i].Finite? ==> fpt[i].t in times
  {
    var buf := new Time[|paths|](_ => Inf);
    for i := 0 to |paths|
      invariant forall j :: 0 <= j < i ==> buf[j] == CrossingTime(paths[j], times, level)
      invariant forall j :: i <= j < buf.Length ==> buf[j] == Inf
    {
      var idx := ArgMaxAtLeast(paths[i], level);
      if paths[i][idx] >= level {
        buf[i] := Finite(times[idx]);
      }
    }
    fpt := buf[..];
    forall i | 0 <= i < |paths| && fpt[i].Finite? ensures fpt[i].t in times {
      assert fpt[i].t in times[..|paths[i]|];
    }
  }

  /**
   * The finite first-passage times, in path order (`fpt[np.isfinite(fpt)]`):
   * every finite entry is kept, duplicates included.
   */
  function FiniteTimes(fpt: seq<Time>): (xs: seq<real>)
    ensures |xs| <= |fpt|
    ensures forall x :: x in xs <==> Finite(x) in fpt
    ensures forall x :: multiset(xs)[x] == multiset(fpt)[Finite(x)]
    ensures |xs| == 0 <==> forall i :: 0 <= i < |fpt| ==> fpt[i].Inf?
  {
    if fpt == [] then []
    else
      var head := if fpt[0].Finite? then [fpt[0].t] else [];
      assert fpt == [fpt[0]] + fpt[1..];
      head + FiniteTimes(fpt[1..])
  }

  /** The positions of `xs` whose value is at most `tt`. */
  ghost function IndicesAtMost(xs: seq<real>, tt: real): set<int>
  {
    set k | 0 <= k < |xs| && xs[k] <= tt
  }

  /** How many of `xs` are at most `tt` (`(xs <= tt).sum()`). */
  function CountAtMost(xs: seq<real>, tt: real): (c: nat)
    ensures c <= |xs|
    ensures c == |IndicesAtMost(xs, tt)|
  {
    if xs == [] then 0
    else
      var n := |xs| - 1;
      assert IndicesAtMost(xs, tt) ==
        IndicesAtMost(xs[..n], tt) + (if xs[n] <= tt then {n} else {});
      CountAtMost(xs[..n], tt) + (if xs[n] <= tt then 1 else 0)
  }

  /**
   * One point of the PoF curve: the fraction of finite first-passage times
   * that are at most `tt`, or 0 when none is finite. The denominator is the
   * number of finite times, not the number of paths.
   */
  function FailedFraction(fpt: seq<Time>, tt: real): (p: real)
    ensures 0.0 <= p <= 1.0
  {
    var xs := FiniteTimes(fpt);
    if |xs| == 0 then 0.0
    else
      QuotientBounds(CountAtMost(xs, tt) as real, |xs| as real);
      CountAtMost(xs, tt) as real / |xs| as real
  }

  lemma QuotientBounds(c: real, n: real)
    requires 0.0 <= c <= n && n > 0.0
    ensures 0.0 <= c / n <= 1.0
  {
    var q := c / n;
    assert q * n == c;
  }

  lemma QuotientSelf(n: real)
    requires n > 0.0
    ensures n / n == 1.0
  {
  }

  lemma QuotientMonotone(a: real, b: real, n: real)
    requires a <= b && n > 0.0
    ensures a / n <= b / n
  {
    assert a / n * n == a && b / n * n == b;
  }

  /** `pof_from_fpt`: the PoF curve sampled at every time of `grid`. */
  function PoF(fpt: seq<Time>, grid: seq<real>): (pof: seq<real>)
    ensures |pof| == |grid|
    ensures forall i :: 0 <= i < |grid| ==> pof[i] == FailedFraction(fpt, grid[i])
    ensures forall i :: 0 <= i < |pof| ==> 0.0 <= pof[i] <= 1.0
  {
    seq(|grid|, i requires 0 <= i < |grid| => FailedFraction(fpt, grid[i]))
  }

  lemma {:induction false} CountAtMostMonotone(xs: seq<real>, lo: real, hi: real)
    requires lo <= hi
    ensures CountAtMost(xs, lo) <= CountAtMost(xs, hi)
  {
    if xs != [] {
      CountAtMostMonotone(xs[..|xs| - 1], lo, hi);
    }
  }

  lemma {:induction false} CountAtMostAll(xs: seq<real>, tt: real)
    requires forall k :: 0 <= k < |xs| ==> xs[k] <= tt
    ensures CountAtMost(xs, tt) == |xs|
  {
    if xs != [] {
      CountAtMostAll(xs[..|xs| - 1], tt);
    }
  }

  lemma {:induction false} CountAtMostNone(xs: seq<real>, tt: real)
    requires forall k :: 0 <= k < |xs| ==> xs[k] > tt
    ensures CountAtMost(xs, tt) == 0
  {
    if xs != [] {
      CountAtMostNone(xs[..|xs| - 1], tt);
    }
  }

  /** On a non-decreasing grid the PoF curve is non-decreasing. */
  lemma PoFNonDecreasing(fpt: seq<Time>, grid: seq<real>)
    requires NonDecreasing(grid)
    ensures NonDecreasing(PoF(fpt, grid))
  {
    var pof, xs := PoF(fpt, grid), FiniteTimes(fpt);
    forall i, j | 0 <= i <= j < |pof| ensures pof[i] <= pof[j] {
      if |xs| > 0 {
        CountAtMostMonotone(xs, grid[i], grid[j]);
        QuotientMonotone(CountAtMost(xs, grid[i]) as real, CountAtMost(xs, grid[j]) as real, |xs| as real);
      }
    }
  }

  /** When no first-passage time is finite, every PoF entry is 0. */
  lemma PoFZeroWhenNoneFinite(fpt: seq<Time>, grid: seq<real>)
    requires forall i :: 0 <= i < |fpt| ==> fpt[i].Inf?
    ensures forall i :: 0 <= i < |grid| ==> PoF(fpt, grid)[i] == 0.0
  {
  }

  /** At a grid time no earlier than every finite first-passage time, PoF is 1. */
  lemma PoFOneAfterLastFailure(fpt: seq<Time>, grid: seq<real>, i: int)
    requires 0 <= i < |grid|
    requires exists j :: 0 <= j < |fpt| && fpt[j].Finite?
    requires forall j :: 0 <= j < |fpt| && fpt[j].Finite? ==> fpt[j].t <= grid[i]
    ensures PoF(fpt, grid)[i] == 1.0
  {
    var xs := FiniteTimes(fpt);
    forall k | 0 <= k < |xs| ensures xs[k] <= grid[i] {
      assert Finite(xs[k]) in fpt;
    }
    CountAtMostAll(xs, grid[i]);
    QuotientSelf(|xs| as real);
  }

  /** At a grid time earlier than every finite first-passage time, PoF is 0. */
  lemma PoFZeroBeforeFirstFailure(fpt: seq<Time>, grid: seq<real>, i: int)
    requires 0 <= i < |grid|
    requires forall j :: 0 <= j < |fpt| && fpt[j].Finite? ==> fpt[j].t > grid[i]
    ensures PoF(fpt, grid)[i] == 0.0
  {
    var xs := FiniteTimes(fpt);
    if |xs| > 0 {
      forall k | 0 <= k < |xs| ensures xs[k] > grid[i] {
        assert Finite(xs[k]) in fpt;
      }
      CountAtMostNone(xs, grid[i]);
      assert FailedFraction(fpt, grid[i]) == 0.0 / |xs| as real;
    }
  }

  /**
   * A path that only reaches the level between two grid points gets the later
   * grid time as its first-passage time: nothing is interpolated.
   */
  lemma GridOnlyPassage()
    ensures FirstPassages([[0.0, 0.5, 1.5]], [0.0, 1.0, 2.0], 1.0) == [Finite(2.0)]
  {
    var path := [0.0, 0.5, 1.5];
    assert IsFirstAtLeast(path, 1.0, 2);
  }
}
