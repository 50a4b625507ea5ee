# simpson_integral in Dafny

`simpson_integral(array, mode, x1, x2)` (example/simpson.py) integrates a function over
`[x1, x2]` from its samples on a uniform grid. All modes use the step `dx = (x2 - x1) / (len - 1)`.
The mode selects one of four composite rules:

- 0: the samples' sum times `dx`;
- 1: the trapezoid loop;
- 2: Simpson's 1/3 rule, with a coefficient list built from `3 - (-1)**i` and patched at
  the ends;
- 3: Simpson's 3/8 rule, with `[2, 3, 3]` repeated, its first entry set to 1 and a tail
  chosen by `len % 3`.

The function returns the area or raises: `ZeroDivisionError` for a single sample, and
`NotImplementedError` for an unknown mode or for modes 2 and 3 on no samples.

The project has five modules:

- `RealSums` (real_sums.dfy): sums and weighted sums of real sequences, the model of `np.sum`
  and `np.sum(c * y)`.
- `Outcome` (outcome.dfy): the two exceptions, and results that are a value or a raised
  exception.
- `Panels` (panels.dfy): composite rules seen as superpositions of basic panels
  (trapezoid, Simpson 1/3, Simpson 3/8). It proves that each basic rule integrates
  `1, x, ..., x^d` exactly, and that exact panels tiling the grid telescope to the integral.
- `Coefficients` (coefficients.dfy): the coefficient lists of modes 2 and 3, built as the
  code builds them (mode 2 in an array it patches in place, mode 3 in a list it overwrites
  and extends). They are proved equal to closed-form tables, and each table is proved to be
  a composite of panels.
- `Simpson` (simpson.dfy): `Integral`, the function that says what `simpson_integral` returns
  or raises; the methods `TrapezoidArea` (the mode 1 loop) and `SimpsonIntegral` (the whole
  function), proved to compute `Integral`; and the theorems about it (failures, exactness on
  constants and on monomials).

The step for mode 0 follows the code, `(x2 - x1) / (len - 1)`, not the rectangle rule's
`(x2 - x1) / len`. See "## Findings" for what this does to mode 0.

## Model

| member | source | states |
|---|---|---|
| Simpson.Step | example/simpson.py:8 | The step raises ZeroDivisionError exactly when there is one sample, and otherwise is a value. |
| Simpson.StepSpansInterval | example/simpson.py:8 | Using that step, the grid from x1 reaches x2 at index len - 1, for every sample count other than 1. |
| Simpson.TrapezoidArea | example/simpson.py:12-14 | The loop's accumulated terms `(y[i] + y[i+1]) dx / 2` equal the weights 1, 2, ..., 2, 1 applied to the samples, times dx / 2. With at most one sample the area is 0. |
| Simpson.TrapezoidsArePanels | example/simpson.py:13-14 | The sum of the loop's first i terms `(y[j] + y[j+1]) / 2` is the first i trapezoid panels applied to the samples, and those panels fit the grid. |
| Simpson.TrapezoidStep | example/simpson.py:13-14 | Each loop iteration adds one trapezoid panel, worth half the two samples it spans. |
| Simpson.TrapezoidsAreWeighted | example/simpson.py:13-14 | All len - 1 trapezoid terms together are half the weighted sum with weights 1, 2, ..., 2, 1. |
| Simpson.SimpsonIntegral | example/simpson.py:7-53 | The imperative function returns exactly what `Integral` specifies: the step first, then the mode's area or its exception. |
| Simpson.Integral | example/simpson.py:7-53 | ZeroDivisionError iff len == 1, whatever the mode. NotImplementedError iff len != 1 and (the mode is outside 0..3, or the mode is 2 or 3 with no samples). A value in every other case. Modes 0 and 1 on no samples give 0. |
| Simpson.Area | example/simpson.py:10-52 | Given the step, the mode's branch raises NotImplementedError exactly for a mode outside 0..3 or for modes 2 and 3 on no samples, and raises nothing else. Modes 0 and 1 on no samples give 0. |
| Simpson.MonomialExact | example/simpson.py:12-50 | On exact samples of x^k, modes 1, 2 and 3 return x2^(k+1)/(k+1) - x1^(k+1)/(k+1) for every k up to the rule's degree. The degree is 3 for mode 2 at odd len and for mode 3 when len % 3 != 2, and 1 otherwise. |
| Simpson.ScaledPanelsExact | example/simpson.py:29 | If a coefficient list scaled by the mode's factor is a tiling of panels exact for x^k, then on samples of x^k its weighted sum, times the factor and dx, is the exact integral over the grid. |
| Simpson.TrapezoidModeExact | example/simpson.py:12-14 | The mode 1 area on samples of 1 or x is the exact integral over the grid. |
| Simpson.Simpson13ModeExact | example/simpson.py:15-29 | The mode 2 area on samples of x^k, up to its degree, is the exact integral over the grid. |
| Simpson.Simpson38ModeExact | example/simpson.py:30-50 | The mode 3 area on samples of x^k, up to its degree, is the exact integral over the grid. |
| Simpson.ConstantExact | example/simpson.py:12-50 | Modes 1, 2 and 3 on constant samples c return c (x2 - x1), for every len >= 2, including the two- and three-sample tables. |
| Simpson.TrapezoidOnConstant | example/simpson.py:12-14 | Mode 1 on n copies of c returns c (x2 - x1). |
| Simpson.Simpson13OnConstant | example/simpson.py:15-29 | Mode 2 on n copies of c returns c (x2 - x1). |
| Simpson.Simpson38OnConstant | example/simpson.py:30-50 | Mode 3 on n copies of c returns c (x2 - x1). |
| Simpson.RectangleOnConstant | example/simpson.py:10-11 | Mode 0 on constant samples c returns c (x2 - x1) len / (len - 1): it covers one step more than the interval. |
| Simpson.RectangleOvercounts | example/simpson.py:10-11 | Mode 0 on [1, 1] over [0, 1] returns 2. |
| Simpson.IntendedRectangle | example/simpson.py:10-11 | The rectangle rule with step (x2 - x1) / len raises ZeroDivisionError exactly on no samples. |
| Simpson.IntendedRectangleOnConstant | example/simpson.py:10-11 | That rule returns c (x2 - x1) on constant samples c. |
| Coefficients.MinusOnePower | example/simpson.py:17 | `(-1)**i` is 1 at even i and -1 at odd i. |
| Coefficients.Repeat | example/simpson.py:33 | Python's `unit * k` has length k times the unit's length, and its entry i is entry i mod len(unit) of the unit. |
| Coefficients.TrapezoidWeights | example/simpson.py:13-14 | The mode 1 weights 1, 2, ..., 2, 1 give one weight per sample. |
| Coefficients.Simpson13Table | example/simpson.py:16-27 | The closed-form mode 2 table has one coefficient per sample, so the element-wise product with the samples is defined. |
| Coefficients.Simpson38Table | example/simpson.py:31-48 | The closed-form mode 3 table has one coefficient per sample, so the element-wise product with the samples is defined. |
| Coefficients.Simpson13Coefficients | example/simpson.py:16-27 | Building the mode 2 list raises NotImplementedError iff len == 0. Otherwise it yields the closed-form table: [3] for len 1; [1.5, 1.5] for len 2; for len >= 3, 1 at index 0 and the pattern 2 at even and 4 at odd indices, with 1 at the end for odd len and 2.5, 1.5 at the end for even len. |
| Coefficients.Simpson38Coefficients | example/simpson.py:31-48 | Building the mode 3 list raises NotImplementedError iff len == 0. Otherwise it yields the closed-form table: the fixed lists for len 1, 2 and 3; for len >= 4, 1 at index 0, 2 at the other multiples of 3 and 3 elsewhere in the prefix, then the tail [1], [7/3, 4/3] or [17/9, 32/9, 8/9] chosen by len % 3. |
| Coefficients.TrapezoidWeightsArePanels | example/simpson.py:13-14 | Half the mode 1 weights is the superposition of one trapezoid panel per interval, and those panels tile the grid. |
| Coefficients.Simpson13TableIsPanels | example/simpson.py:16-25 | A third of the mode 2 table is composite Simpson 1/3 tiling the grid. At even len the last interval gets a trapezoid panel, which is the whole rule for len 2. |
| Coefficients.Simpson38TableIsPanels | example/simpson.py:31-46 | 3/8 of the mode 3 table is composite Simpson 3/8 tiling the grid. At len % 3 == 2 a trapezoid panel ends the rule, and at len % 3 == 0 a Simpson 1/3 panel does; len 2 and 3 are those end panels alone. |
| Coefficients.Simpson13OddAt | example/simpson.py:18-19 | At odd len >= 3, every entry of the mode 2 table times 1/3 is the Simpson panels' weight at that sample. |
| Coefficients.Simpson13EvenAt | example/simpson.py:20-23 | At even len, every entry of the mode 2 table times 1/3 is the weight of the Simpson panels plus the final trapezoid panel. |
| Coefficients.Simpson38WholeAt | example/simpson.py:33-36 | At len % 3 == 1, every entry of the mode 3 table times 3/8 is the 3/8 panels' weight. |
| Coefficients.Simpson38TrapezoidEndAt | example/simpson.py:37-44 | At len % 3 == 2, every entry of the mode 3 table times 3/8 is the weight of the 3/8 panels plus a final trapezoid panel. |
| Coefficients.Simpson38SimpsonEndAt | example/simpson.py:39-46 | At len % 3 == 0, every entry of the mode 3 table times 3/8 is the weight of the 3/8 panels plus a final Simpson 1/3 panel. |
| Coefficients.TrapezoidPanelsExactFor | example/simpson.py:13-14 | Every mode 1 panel is exact up to degree 1. |
| Coefficients.Simpson13PanelsExactFor | example/simpson.py:16-25 | Every mode 2 panel is exact up to degree 3 at odd len, and up to degree 1 at even len. |
| Coefficients.Simpson38PanelsExactFor | example/simpson.py:31-46 | Every mode 3 panel is exact up to degree 3 when len % 3 != 2, and up to degree 1 otherwise. |
| Coefficients.CompositeSum | example/simpson.py:29 | Weights that, scaled by the mode's factor, form a tiling of rules exact for 1 add up, after scaling, to len - 1. |
| Coefficients.TrapezoidWeightsSum | example/simpson.py:13-14 | The mode 1 weights add up to 2 (len - 1). |
| Coefficients.Simpson13TableSum | example/simpson.py:16-25 | The mode 2 table adds up to 3 (len - 1) for every len >= 2. |
| Coefficients.Simpson38TableSum | example/simpson.py:31-46 | The mode 3 table adds up to 8 (len - 1) / 3 for every len >= 2. |
| Panels.SuperposeApplied | example/simpson.py:29 | Weighing the samples with superposed panel weights equals summing each panel applied to its own samples. |
| Panels.UniformTrapezoidAt | example/simpson.py:13-14 | c trapezoid panels weigh the samples 1/2, 1, ..., 1, 1/2 over 0..c and 0 beyond. |
| Panels.UniformSimpsonAt | example/simpson.py:17 | c Simpson panels weigh the samples 1/3 at both ends of 0..2c, 4/3 at odd and 2/3 at even interior samples, and 0 beyond. |
| Panels.UniformThreeEighthsAt | example/simpson.py:31-33 | c 3/8 panels weigh the samples 3/8 at both ends of 0..3c, 3/4 at interior multiples of 3, 9/8 elsewhere inside, and 0 beyond. |
| Panels.TrapezoidRuleExact | example/simpson.py:14 | h (f(a) + f(a+h)) / 2 is the exact integral of 1 and of x over [a, a+h]. |
| Panels.SimpsonRuleExact | example/simpson.py:29 | h/3 (f0 + 4 f1 + f2) is the exact integral of 1, x, x^2 and x^3 over [a, a+2h]. |
| Panels.ThreeEighthsRuleExact | example/simpson.py:50 | 3h/8 (f0 + 3 f1 + 3 f2 + f3) is the exact integral of 1, x, x^2 and x^3 over [a, a+3h]. |
| Panels.PanelExact | example/simpson.py:29 | A basic panel over exact samples of x^k, with k within its rule's degree, yields F(end) - F(start) for the antiderivative F. |
| Panels.Telescoping | example/simpson.py:29 | Panels that tile 0..e, each exact for F, add up (times dx) to F(x1 + e dx) - F(x1). |
| Panels.CompositeExact | example/simpson.py:29 | A tiling by panels exact for x^k, applied to samples of x^k, times dx, is the integral of x^k from x1 to x1 + e dx. |
| Panels.OnesPanelSum | example/simpson.py:29 | On unit samples, a tiling of 0..e by panels exact for 1 adds up to e. |
| Panels.UniformTiles | example/simpson.py:33 | c copies of a stencil with m + 1 points, each starting where the last ended, tile 0..c m. |

## Left out

- Floating point: every quantity is an exact real. IEEE rounding, the order of the mode 1
  accumulation, NaN and infinities, and numpy's float64 are not modelled. So `7/3` and
  `2 * 8/9` are exact fractions here.
- numpy arrays: `array` is a sequence of reals. The element-wise product `array_coeff * array`
  always has equal lengths here, because the lists are built with `len(array)` entries.
  numpy broadcasting and non-numeric entries are not modelled.
- `mode` is an integer. Python would also compare floats or booleans equal to 0..3 with the
  mode tests; that is not modelled.
- The one-sample tables `[3]` and `[8/3]` are built, but `simpson_integral` never reaches
  them because the step divides by zero first (`Simpson.Integral`).
- The helpers `gauss`, `sin` and `cos` and the `print` calls at example/simpson.py:55-66 are
  not part of this model. They are thin numpy calls on transcendental functions. The calls
  pass keyword arguments (`dev`, `func`) that `simpson_integral` does not accept, so as
  written they would fail with a TypeError.
- Simpson.MonomialExact: proves exactness up to each rule's degree, for samples of one
  monomial at a time. It does not prove the rule inexact above that degree, and it does not
  combine monomials into one theorem about polynomials.

## Findings

| source | as written | input that shows it | evidently intended | confidence | as-written member | corrected member |
|---|---|---|---|---|---|---|
| example/simpson.py:8-11 | mode 0 multiplies the sum of all len samples by `dx = (x2 - x1) / (len - 1)`, so it weighs len cells of a grid that has only len - 1 intervals; on a constant c it returns c (x2 - x1) len / (len - 1) | `simpson_integral([1.0, 1.0], 0, 0.0, 1.0)` returns 2 instead of 1 | a rectangle rule whose len cells split [x1, x2], with step (x2 - x1) / len, exact on constants | medium, not executed | Simpson.RectangleOvercounts | Simpson.IntendedRectangleOnConstant |

`Simpson.Integral` and `Simpson.SimpsonIntegral` keep mode 0 as written, since they model
the function itself. `Simpson.IntendedRectangle` is the corrected rule, with its exactness on
constants proved beside it.
