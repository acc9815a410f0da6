# False Position (regula falsi) root finding, modelled in Dafny

The repository has two scripts. Each defines its own `false_position(func, xl, xu, error_tolerance, max_iterations)`:

- `graph_plotter.py` feeds a plot. It measures the error in percent and keeps the per-pass lists `xr_points`, `xl_points` and `xu_points`.
- `working.py` is the console calculator. It measures the error as a fraction and ends with a summary of the root, the error and the final interval.

Both functions follow the same steps:

1. Reject an interval whose end values do not have strictly opposite signs.
2. Run at most `max_iterations` passes. Each pass:
   - computes the secant x-intercept `xr`;
   - computes the relative change against the previous estimate;
   - replaces exactly one bound, chosen by the sign of `f(xl)*f(xr)`;
   - leaves early when the change is defined and strictly below the tolerance.

The model has three modules:

- `Bracketing` (`bracketing.dfy`) holds what both variants share:
  - the estimate formula `Estimate`;
  - the bound replacement `Update`;
  - the fractional error `RelativeChange`;
  - the sign invariant;
  - `BoundsChain`, which describes the sequence of passes a run from `[xl0, xu0]` makes, with the lemmas about it.
- `GraphPlotter` (`graph_plotter.dfy`) models `false_position` of `graph_plotter.py`.
- `Working` (`working.dfy`) models `false_position` of `working.py`.

In both variant modules the function is a `method FalsePosition` with a `while` loop that follows the source's `for` loop and its `break`. Its postcondition `Ends` says how the run finishes. `EndsUnique` proves that `Ends` admits exactly one outcome for given inputs:

- `Unbracketed`: the entry test failed. This happens exactly when `f(xl)*f(xu) >= 0`, and no pass runs.
- `Raised(fault, rows)`: one of the two Python exceptions the code can reach.
  - `ZeroDivision`: the relative error divides by an estimate of exactly 0.
  - `UnboundEstimate`: `max_iterations < 1`, so the final report reads an `xr` that was never assigned.
- `Reported(...)`: the passes made, together with the points (graph_plotter.py) or the summary (working.py).

Each pass is a `Pass` record. It holds the bounds the pass started from, its estimate, and its error, with `None` for the `-` the tables print.

The user's expression is an arbitrary total function `f: real -> real`, and all arithmetic is exact.

## Model

| member | source | states |
|---|---|---|
| Bracketing.Estimate | working.py:24 | The estimate is the x-intercept of the secant through (xl, f(xl)) and (xu, f(xu)): `f(xu)*(xr-xl) == f(xl)*(xr-xu)`, defined when `f(xl) != f(xu)` |
| Bracketing.InterceptUnique | graph_plotter.py:38 | Any point satisfying the intercept equation is the estimate, so the formula is the unique secant intercept |
| Bracketing.SignInvariant | working.py:41-44 | The invariant `f(xl)*f(xu) <= 0 && f(xu) != 0` implies `f(xl) != f(xu)`, so the update formula's denominator is nonzero |
| Bracketing.EntryEstablishesInvariant | graph_plotter.py:19-21 | An interval that passes the entry test (`f(xl)*f(xu) < 0`) satisfies the sign invariant |
| Bracketing.EstimateInBracket | working.py:24 | Under the sign invariant, `xr` lies in the closed interval between the current `xl` and `xu` |
| Bracketing.Update | graph_plotter.py:51-54 | Exactly one bound is replaced by `xr`: the result is `[xl, xr]` or `[xr, xu]` |
| Bracketing.UpdateKeepsInvariant | working.py:41-44 | One pass (estimate, then replacement) keeps the sign invariant, and the new interval lies inside the old |
| Bracketing.RelativeChange | working.py:27-30 | The fractional error `abs((xr-prev)/xr)` is nonnegative, is 0 exactly when `xr == prev`, and times `abs(xr)` equals `abs(xr-prev)` |
| Bracketing.ChainKeepsSignInvariant | working.py:8-44 | Given the entry test, the sign invariant holds before every pass and after the last update, so no pass divides by zero at line 24 |
| Bracketing.ChainNested | graph_plotter.py:37-54 | The intervals only shrink: every later pass's bounds and estimate lie inside every earlier pass's interval, and the final interval lies inside all of them and inside the initial one |
| Bracketing.ChainUnique | working.py:21-44 | The bounds and the estimate of each pass are determined by the inputs: two pass sequences from the same initial interval agree on the bounds and the estimate at every index both reach |
| GraphPlotter.TraceUnique | graph_plotter.py:37-59 | Whole passes, error included, are determined by the inputs: two traces from the same initial interval agree on every pass both make |
| GraphPlotter.EndsUnique | graph_plotter.py:5-61 | `Ends` has exactly one solution: two outcomes that both satisfy it for the same inputs are equal, so the method's postcondition fixes its result |
| GraphPlotter.PercentError | graph_plotter.py:43 | The percent error is nonnegative and is 0 exactly when `xr == xr_previous` |
| GraphPlotter.PercentUnits | graph_plotter.py:56-57 | The percent error is 100 times the fractional one, so the stopping test against the tolerance equals the fractional test against a tolerance 100 times smaller |
| GraphPlotter.FalsePosition | graph_plotter.py:5-61 | The run ends as `Ends` says: unbracketed iff the entry test fails; otherwise between 1 and `max_iterations` passes (or an exception), each starting from the interval the previous one left, with the error column as at line 43; fewer passes than the cap only after an error strictly below the tolerance; point lists are the per-pass `xr`, `xl`, `xu`; the reported root is the last `xr` |
| GraphPlotter.ReportedPoints | graph_plotter.py:37-41 | In a reported run the three point lists have one entry per pass (at most `max_iterations`), each `xr_points[i]` lies between `xl_points[i]` and `xu_points[i]`, and the root is the last `xr_points` entry |
| GraphPlotter.ErrorDefinedness | graph_plotter.py:43 | The error is undefined exactly on the first pass and after a previous estimate of 0, otherwise nonnegative; a stopping last pass is never the first |
| GraphPlotter.ReportedPasses | graph_plotter.py:51-59 | In a reported run the sign invariant holds before every pass, the intervals only shrink, and a run that stopped before the cap made at least two passes |
| Working.FalsePosition | working.py:1-56 | The run ends as `Ends` says: unbracketed iff the entry test fails; otherwise between 1 and `max_iterations` passes (or an exception), each starting from the interval the previous one left, with the fractional error of lines 27-30; fewer passes than the cap only after an error strictly below the tolerance; the summary is the last `xr`, the last error and the interval after the last update |
| Working.TraceUnique | working.py:21-50 | Whole passes, error included, are determined by the inputs: two traces from the same initial interval agree on every pass both make |
| Working.EndsUnique | working.py:1-56 | `Ends` has exactly one solution: two outcomes that both satisfy it for the same inputs are equal, so the method's postcondition fixes its result |
| Working.ErrorDefinedness | working.py:26-30 | The error is undefined exactly on the first pass and nonnegative after it; a stopping last pass is never the first |
| Working.ReportedFacts | working.py:46-56 | In a reported run every `xr` lies between its pass's bounds, the sign invariant holds before every pass and in the final interval, the final interval lies inside every pass's interval and the initial one, the root lies in the initial interval, the reported error is undefined iff only one pass ran, and a run that stopped before the cap made at least two passes |

## Left out

- Evaluating the user's expression with `eval` (graph_plotter.py:8-16, working.py:4-5) is foreign code. `f` is a parameter: an arbitrary total function on the reals.
- Floating point is not modelled. Rounding, NaN, infinity and overflow are absent, and all facts hold over exact reals. The model claims no convergence rate or root accuracy.
- Printing and table formatting are not modelled (graph_plotter.py:20, 23-26, 45-48, 61; working.py:9-10, 14-17, 35-38, 53-56). The model returns the records and the final values instead of strings.
- The rows printed before an exception are not kept as printed text. `Raised` keeps the passes completed before the exception. The pass whose error computation raises is not among them.
- The matplotlib/numpy graph section of graph_plotter.py and the interactive `input()` code of both scripts are not part of this model.
- The order of the `xr_previous` update relative to the `break` is kept as each script writes it. No later step reads that value, so the outputs cannot observe the difference.
- `f` is pure in the model. The scripts call it several times per pass on the same point, and the model assumes each call returns the same value.
- Four behaviours of the code are kept as written:
  - the stopping test is a strict `<`;
  - `max_iterations < 1` runs no pass and then fails with `UnboundEstimate`;
  - a zero sign product `f(xl)*f(xr)` takes the `else` branch and moves `xl`;
  - an estimate of 0 after a previous estimate that the error test counts ends in `ZeroDivision`. In graph_plotter.py the test counts only a nonzero previous estimate.
- The degenerate-interval failure (`f(xl) == f(xu)` at line 38 / line 24) has no outcome. `ChainKeepsSignInvariant` proves it cannot occur after the entry test.
