# Threshold search for first passage and time to risk threshold

This project models the deterministic core of a reliability pipeline. Simulated
degradation paths are turned into first-passage times (FPT), the first grid time
at which a path reaches a failure level `L`. The FPTs become an empirical
probability-of-failure curve PoF(t). PoF(t) times a cost of failure (CoF) gives a
risk curve R(t). The Time to Risk Threshold (TRT) is the earliest grid time at
which R(t) reaches a critical level Rcrit = CoF · epsilon.

Both the FPT of one path and the TRT come from the same search:
`np.argmax(values >= threshold)`, followed by a check of the value at that index.
Module `Crossing` models this search once. `WienerGamma` models
`sim/wiener_gamma.py`. `TrtPolicy` models `policies/trt_policy.py`. `Pipeline`
holds one lemma that chains the two stages.

Modelling choices:
- numpy arrays are `seq<real>`. The path matrix is `seq<seq<real>>`, one row per path.
- `+inf` is the `Inf` case of `datatype Time = Finite(t: real) | Inf`.
- `first_passage_times` fills a fresh array with `Inf` and, inside a loop,
  overwrites the entry of each path that reaches `L`, so it is the method
  `WienerGamma.FirstPassageTimes`. Its
  loop writes into an `array<Time>`. The method is proved equal to the
  specification function `WienerGamma.FirstPassages`.
- `np.argmax` on an empty array raises an error, so the search requires a
  non-empty input.

The model follows the code as written:
- No FPT or TRT is interpolated between grid points. Every finite result is an
  entry of `times` (`GridOnlyPassage` and `GridOnlyTrt` show the two worked
  examples: the answers are 2 and 1, not the interpolated 1.5 and 0.5).
- The PoF curve is not post-processed with a running maximum. It is
  non-decreasing anyway whenever the grid is non-decreasing (`PoFNonDecreasing`).
- The PoF denominator is the number of finite FPTs, not the number of paths.
- `infer_trt` does not check `R[last] < Rcrit` first. It uses argmax and then
  checks the value at that index. On a non-decreasing risk curve the two agree
  (`TrtOnNonDecreasingRisk`).

## Model

| member | source | states |
|---|---|---|
| `Crossing.ArgMaxAtLeast` | policies/trt_policy.py:17 | numpy argmax over the mask `s >= threshold`: the result is in range. If the value there reaches the threshold, it is the leftmost such index. Otherwise the result is 0 and no value reaches the threshold. |
| `Crossing.CrossingTime` | sim/wiener_gamma.py:22-24 | argmax then check: the result is `Inf` if and only if no value reaches the threshold. For the leftmost qualifying index `k` it is `times[k]`. A first value at or above the threshold gives `times[0]`. A finite result is always a grid time. |
| `Crossing.ArgMaxMonotone` | policies/trt_policy.py:17-18 | a higher threshold that is reached is also reached at the lower threshold, and the selected index for the lower threshold is no later |
| `Crossing.CrossingTimeMonotone` | policies/trt_policy.py:17-20 | on non-decreasing times, raising the threshold never makes the crossing time earlier, with `Inf` as the latest value |
| `Crossing.CrossingOnNonDecreasing` | policies/trt_policy.py:17-20 | on non-decreasing values, there is no crossing exactly when the last value is below the threshold. From the crossing index on, every value is at or above it. |
| `WienerGamma.FirstPassages` | sim/wiener_gamma.py:19-25 | one first-passage time per path, each the crossing time of that row |
| `WienerGamma.FirstPassageTimes` | sim/wiener_gamma.py:19-25 | the array loop yields `FirstPassages`: one entry per path. An entry is `Inf` if and only if the path never reaches `L`; otherwise it is `times[k]` for the leftmost `k` with `paths[i][k] >= L`. A path starting at or above `L` gets `times[0]`. Every finite entry is a member of `times`. |
| `WienerGamma.FiniteTimes` | sim/wiener_gamma.py:28-29 | `fpt[np.isfinite(fpt)]`: one entry per finite entry of `fpt`, duplicates kept (each value occurs as often as its `Finite` entry does in `fpt`). Its members are exactly the finite values of `fpt`. It is empty if and only if every entry is `Inf`. |
| `WienerGamma.CountAtMost` | sim/wiener_gamma.py:29 | the count is the number of positions `k` of `xs` with `xs[k] <= tt`, and so never exceeds the number of values |
| `WienerGamma.FailedFraction` | sim/wiener_gamma.py:29 | one point of the PoF curve lies in [0, 1] |
| `WienerGamma.PoF` | sim/wiener_gamma.py:27-29 | one value per grid time, each in [0, 1], each the failed fraction at that grid time |
| `WienerGamma.CountAtMostMonotone` | sim/wiener_gamma.py:29 | a later time counts at least as many failures |
| `WienerGamma.CountAtMostAll` | sim/wiener_gamma.py:29 | when every value is at most `tt`, all of them are counted |
| `WienerGamma.CountAtMostNone` | sim/wiener_gamma.py:29 | when every value is above `tt`, none is counted |
| `WienerGamma.PoFNonDecreasing` | sim/wiener_gamma.py:29 | a non-decreasing grid gives a non-decreasing PoF curve |
| `WienerGamma.PoFZeroWhenNoneFinite` | sim/wiener_gamma.py:28-29 | if no FPT is finite, every PoF entry is 0 |
| `WienerGamma.PoFOneAfterLastFailure` | sim/wiener_gamma.py:29 | if some FPT is finite, PoF is 1 at a grid time no earlier than every finite FPT |
| `WienerGamma.PoFZeroBeforeFirstFailure` | sim/wiener_gamma.py:29 | PoF is 0 at a grid time earlier than every finite FPT |
| `WienerGamma.GridOnlyPassage` | sim/wiener_gamma.py:22-24 | the path [0, 0.5, 1.5] on times [0, 1, 2] with `L = 1` has FPT 2, the grid time of the crossing index, with no interpolation |
| `TrtPolicy.RiskCurve` | policies/trt_policy.py:7-9 | one risk value per PoF value, `R[i] = PoF[i] * CoF` |
| `TrtPolicy.RcritFromRule` | policies/trt_policy.py:11-13 | Rcrit is 0 when CoF or epsilon is 0. It is positive when both are positive. It lies in [0, CoF] for CoF ≥ 0 and epsilon in [0, 1]. |
| `TrtPolicy.InferTrt` | policies/trt_policy.py:15-20 | TRT is `Inf` if and only if every risk value is below Rcrit. Otherwise it is `times[k]` for the leftmost `k` with `risk[k] >= Rcrit`. `risk[0] >= Rcrit` gives `times[0]`. |
| `TrtPolicy.RiskIgnoresTimes` | policies/trt_policy.py:7-9 | the `times` argument has no effect on the risk curve |
| `TrtPolicy.RiskNonDecreasing` | policies/trt_policy.py:9 | CoF ≥ 0 and a non-decreasing PoF give a non-decreasing risk curve |
| `TrtPolicy.RiskBounded` | policies/trt_policy.py:9 | PoF in [0, 1] and CoF ≥ 0 give risk in [0, CoF] |
| `TrtPolicy.TrtMonotoneInRcrit` | policies/trt_policy.py:15-20 | on a non-decreasing grid, raising Rcrit never makes the TRT earlier |
| `TrtPolicy.TrtOnNonDecreasingRisk` | policies/trt_policy.py:15-20 | on a non-decreasing risk curve, TRT is `Inf` exactly when the last risk value is below Rcrit |
| `TrtPolicy.ZeroCofTriggersAtStart` | policies/trt_policy.py:17-19 | CoF = 0 makes Rcrit and every risk value 0, so TRT is `times[0]` |
| `TrtPolicy.GridOnlyTrt` | policies/trt_policy.py:15-20 | times [0, 1, 2, 3], PoF [0, 0.2, 0.6, 0.6], CoF 5 and epsilon 0.1 give risk [0, 1, 3, 3], Rcrit 0.5 and TRT 1, a grid time |
| `Pipeline.NeverFailingPathsNeverTrigger` | sim/wiener_gamma.py:19-29 | if no path reaches `L`, PoF is identically 0. With CoF and epsilon positive, TRT is then `Inf`. |

## Left out

- `simulate_wiener` (sim/wiener_gamma.py:7-17): it draws random numbers from a
  seeded numpy generator and sizes the grid with floating-point arithmetic. Paths
  and times are parameters of the model instead.
- The `__main__` block of sim/wiener_gamma.py and all of policies/run_trt_demo.py:
  they only create directories, load and save arrays, write CSV rows and print.
- IEEE floating point: values are exact `real`s. NaN, rounding and overflow are
  not modelled. `float("inf")` and `np.inf` are the `Inf` case of `Time`.
- `WienerGamma.FirstPassageTimes`: it requires every row to be no longer than
  `times`. numpy would raise an error only when the crossing index actually
  falls past the end of `times`, and it accepts a shorter `times` otherwise.
- `Crossing.ArgMaxAtLeast` and `Crossing.CrossingTime`: they require a non-empty
  input, because numpy's argmax raises an error on an empty array. The model has
  no error result for that case. `CrossingTime` also requires `values` to be no
  longer than `times`, where numpy only fails when the crossing index falls past
  the end of `times`.
- `TrtPolicy.InferTrt`: it requires `risk` to be no longer than `times`, for
  the same reason.
- Interpolated first-passage times and interpolated TRT: the code has neither.
