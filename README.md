# marsaglia-rs core, modelled in Dafny

This project models the numerical core of marsaglia-rs, a small Rust
toolkit for statistical data analysis:

- `src/chi2.rs`:
  - `fi1` inverts a monotone function by bisection.
  - `chi2_df` and `chi2pdf_df` are the chi-square distribution functions, built on the regularised incomplete gamma function `gamma_p`.
  - `chi2_xq` and `chi2pdf_xq` are the quantile searches, which grow a bracket and then call `fi1`.
- `src/steb.rs`: the measurement combiners.
  - `steb0` gives the mean and the standard error of a sample (returned squared in the model; see "## Left out").
  - `steb1` normalises a caller's weight buffer in place, then forms the weighted mean and spread.
  - `steb2` can first derive the weights from error bars as `1/eb²`, then normalises them in place and combines the error bars in quadrature.
- `src/lib.rs`:
  - `qtiles` gives interpolated lower and upper quantiles of a sorted sample.
  - `uniform_pdf` and `uniform_cdf` are the density and distribution function of the uniform distribution.

Reals stand in for `f64`. The modules are:

- `Wrappers` (`wrappers.dfy`): `Option` and `Result`.
- `Chi2` (`chi2.dfy`).
- `Steb` (`steb.dfy`).
- `Lib` (`lib.dfy`).

The imperative parts of the source are Dafny methods, each proved equal to a specification function. These are:

- the bisection loop of `fi1`;
- the bracket-growth loop of `chi2_xq`;
- the in-place weight loops of `steb1` and `steb2`, over an `array<real>`.

The properties are proved as lemmas about those functions. The estimators return the *squared* error, so no square root is needed. `gamma_p` is a parameter `gammaP`. Where a lemma needs `gammaP` to be monotone, it says so with `GammaMonotone(gammaP)`.

The source panics, loops forever or computes NaN in some cases. Each of these is an explicit error value here:

- `Chi2.Error`:
  - `OutOfRange(y1, y, y2)`: the target lies outside the end values.
  - `NoConvergence(y1, y, y2)`: 1000 halvings leave a bracket wider than 1e-8.
  - `BracketNotFound(steps)`: the growth search ran out of its step cap.
  - `ZeroDegreesOfFreedom`: `chi2pdf_xq` would divide by zero.
- `Steb.Error`:
  - `TooFewSamples`: fewer than two samples.
  - `LengthMismatch(n, m)`: the `assert_eq!` of `steb1` fails.
  - `ZeroWeightSum`: the weights sum to zero.
  - `EmptyWeights`: `steb2` received an empty weight buffer.
  - `ZeroErrorBar(i)`: `steb2` would derive a weight from the zero error bar `eb[i]`.

Three points of the code are worth knowing:

- Only `steb1` checks that its slices have equal lengths. `steb2` zips its slices, which stops at the shorter one, and the model does the same (`Steb.Zip`).
- The quantile index of `qtiles` is `(q * n as f64) as usize`, which truncates and saturates (`Lib.AsUsize`).
- The weight `w2 = q·(n+1) − nq` of `qtiles` can exceed 1, so the estimate can lie outside `[x[nq-1], x[nq]]`. The model keeps the formula as written, and `Lib.QtilesMayExtrapolate` proves such a case.

## Model

| member | source | states |
|---|---|---|
| Chi2.Orient | src/chi2.rs:48-54 | after the initial evaluation and conditional swap, the end values ascend, and the ends are the original two, in the original order when the values already ascend |
| Chi2.Halve | src/chi2.rs:58-64 | one bisection step keeps `f(below) <= y <= f(above)` for every `f`, halves the width exactly, and keeps both ends inside the old bracket |
| Chi2.Bisect | src/chi2.rs:57-68 | the loop of at most `budget` halvings, when it stops, ends with a bracket at most 1e-8 wide, inside the initial bracket and still around the target |
| Chi2.HalvingsWidth | src/chi2.rs:58-64 | k halvings divide the width by exactly 2^k |
| Chi2.BisectStopsAtFirstFit | src/chi2.rs:57-68 | the loop stops after exactly the first k in 1..budget with `width <= 1e-8 · 2^k`, and returns the bracket after k halvings |
| Chi2.BisectFailsWhenTooWide | src/chi2.rs:57-68 | when the width exceeds `1e-8 · 2^j` for every j in 1..budget, the loop finds nothing |
| Chi2.Inverse | src/chi2.rs:44-74 | what fi1 computes. It fails with `OutOfRange` exactly when `y < y1` or `y > y2`, and every failure carries `y1`, `y`, `y2`. A success is the midpoint of a bracket at most 1e-8 wide, inside `[x1, x2]`, with `f(below) <= y <= f(above)`. The result is always between `x1` and `x2` |
| Chi2.InverseConverges | src/chi2.rs:45-68 | with the target in range, fi1 succeeds after exactly the first k in 1..1000 with `|x2 - x1| <= 1e-8 · 2^k` |
| Chi2.InverseNoConvergence | src/chi2.rs:56-74 | with the target in range and `|x2 - x1| > 1e-8 · 2^k` for every k in 1..1000, fi1 fails with `NoConvergence(y1, y, y2)` |
| Chi2.InverseLocatesCrossing | src/chi2.rs:56-66 | for a non-decreasing `f`, points of the bracket with `f < y` lie below `r + 5e-9`, and points with `f > y` lie above `r - 5e-9`. The same holds mirrored for a non-increasing `f` |
| Chi2.Fi1 | src/chi2.rs:40-75 | the method with the swap and the early-return loop computes `Inverse` |
| Chi2.BisectLoop | src/chi2.rs:57-68 | the `for` loop over 1000 steps with an early return computes `Bisect` from the oriented bracket |
| Chi2.Chi2Df | src/chi2.rs:3-7 | no contract of its own: `chi2_df(c, nf)` is `gamma_p(nf/2, c/2)` for the parameter `gamma_p`. Its property is `Chi2DfMonotone` |
| Chi2.Chi2DfMonotone | src/chi2.rs:3-7 | `chi2_df(c, nf) = gamma_p(nf/2, c/2)` is non-decreasing in `c >= 0` when `gamma_p` is non-decreasing in its second argument |
| Chi2.Chi2PdfDf | src/chi2.rs:9-13 | `chi2pdf_df(c, nf) = gamma_p(nf/2, (nf/2)·c)` is `chi2_df` at `nf·c` |
| Chi2.Grow | src/chi2.rs:22-29 | a point the growth loop stops at has `chi2_df >= q`, and lies at least one step of `nf` beyond the start |
| Chi2.GrowFindsFirstStep | src/chi2.rs:22-29 | the growth loop returns `m·nf` for the least m in 1..cap with `chi2_df(m·nf) >= q`. It finds nothing exactly when no such m exists |
| Chi2.Chi2Quantile | src/chi2.rs:19-33 | what chi2_xq computes: `BracketNotFound` exactly when the growth loop fails, otherwise fi1's result on `[0, x2]`. A success is `>= 0` |
| Chi2.Chi2QuantileBracket | src/chi2.rs:20-32 | when the growth loop succeeds, chi2_xq is fi1 on `[0, m·nf]` with target `q`, where m is the first step that reaches `q` |
| Chi2.Chi2QuantileZeroDof | src/chi2.rs:22-29 | with `nf = 0` the point never moves, so a target above `chi2_df(0, 0)` is never reached, whatever the cap |
| Chi2.Chi2QuantileLocatesCrossing | src/chi2.rs:19-33 | for a monotone `gamma_p`, every `x >= 0` with `chi2_df(x) < q` lies below the result plus 5e-9, and every `x >= 0` with `chi2_df(x) > q` lies above it minus 5e-9 |
| Chi2.Chi2Xq | src/chi2.rs:19-33 | the method with the growth loop and the call of fi1 computes `Chi2Quantile` |
| Chi2.PerDegree | src/chi2.rs:15-17 | succeeds exactly when the quantile does and `nf > 0`. The result `r` has `nf·r` equal to the quantile, and `chi2pdf_df(r) = chi2_df(quantile)`. Failures pass through, and `nf = 0` gives `ZeroDegreesOfFreedom` |
| Chi2.PerDegreeKeepsCrossing | src/chi2.rs:15-17 | if the chi-square quantile locates the crossing of `q` to within 5e-9, the per-degree quantile locates the crossing of `chi2pdf_df` to within 5e-9 on the scale `nf·x` |
| Chi2.Chi2PdfXq | src/chi2.rs:15-17 | the method computes `PerDegree` of `Chi2Quantile` |
| Steb.SumSqDev | src/steb.rs:5 | the sum of squared deviations is non-negative |
| Steb.Steb0 | src/steb.rs:3-7 | succeeds exactly for at least two samples, and otherwise fails with `TooFewSamples`. The squared error is non-negative |
| Steb.Steb0Moments | src/steb.rs:4-6 | `xm·n` is the sum of the data, and `errorSq·n·(n-1)` is the sum of `(x - xm)²`. So `xm = Σx/n`, `xv = Σ(x-xm)²/(n-1)` and `errorSq = xv/n` |
| Steb.Steb0ShiftInvariant | src/steb.rs:3-7 | adding a constant to every sample shifts the mean by that constant and leaves the error unchanged |
| Steb.Steb0Constant | src/steb.rs:3-7 | a constant sample has that constant as its mean, and error zero |
| Steb.Steb0Example | src/steb.rs:3-7 | `[2,4,4,4,5,5,7,9]` has mean 5 and squared error 4/7 |
| Steb.SumScaled | src/steb.rs:37-40 | dividing every weight by `c` divides the sum by `c` |
| Steb.NormalizedSumsToOne | src/steb.rs:37-40 | weights divided by their non-zero sum sum to 1 |
| Steb.Normalize | src/steb.rs:37-40 | the in-place loop leaves `w[i] = old(w[i]) / wnorm` for every `i`, with the length unchanged |
| Steb.Steb1Spec | src/steb.rs:32-51 | `LengthMismatch` exactly when the lengths differ. Success exactly when the lengths are equal and at least 2 and the sum is non-zero. With equal lengths and a non-zero sum, the new weights are `old(w)/Σold(w)` and sum to 1; otherwise the weights are unchanged |
| Steb.WeightedMoments | src/steb.rs:41-49 | steb1's mean `Σ w·x` and spread `Σ w·(x-xm)² / (n-1)` over the zipped pairs. For non-negative weights the squared error is non-negative |
| Steb.Steb1 | src/steb.rs:32-51 | the method returns `Steb1Spec`'s result and leaves `w` as `Steb1Spec` says, touching no other state |
| Steb.Steb1ErrorNonNegative | src/steb.rs:45-49 | for non-negative weights the squared error `Σ w·(x-xm)² / (n-1)` is non-negative |
| Steb.Steb1MeanBounded | src/steb.rs:41-44 | for non-negative weights, when every sample lies in `[lo, hi]`, so does the weighted mean `Σ w·x` |
| Steb.Steb1EqualWeightsIsSteb0 | src/steb.rs:32-51 | with equal non-zero weights, steb1 gives exactly steb0's mean and squared error |
| Steb.Zip | src/steb.rs:43 | the pairs of two slices up to the shorter length, as an iterator zip yields them: the length is the smaller one, and pair `i` is `(a[i], b[i])` |
| Steb.InverseSquare | src/steb.rs:62 | the derived weight `1/e²` of a non-zero error bar is positive, and times `e²` it is 1 |
| Steb.FirstZeroBar | src/steb.rs:60-63 | the first zero among the first k error bars, or none exactly when all of them are non-zero |
| Steb.Derive | src/steb.rs:60-63 | after k steps of the derivation loop, `w[j] = 1/eb[j]²` for `j < k`, and the rest is unchanged |
| Steb.Steb2Weights | src/steb.rs:60-64 | derivation fails exactly when `w[0] < 0` and a zero error bar lies within the zipped length |
| Steb.Steb2Spec | src/steb.rs:59-87 | `EmptyWeights` exactly for an empty `w`. On success the new weights sum to 1, `xm = Σ w·data` and `errorSq = Σ eb²·w²` over the zipped pairs, and `errorSq >= 0`. When `w[0] >= 0`, the supplied weights are kept and normalised, or `ZeroWeightSum` if they sum to 0 |
| Steb.Steb2 | src/steb.rs:59-87 | the method with the derivation and normalisation loops returns `Steb2Spec`'s result and leaves `w` as `Steb2Spec` says |
| Steb.Steb2DerivesWeights | src/steb.rs:60-69 | when `w[0] < 0`, every `w[i]` with `i < min(|w|, |eb|)` is first set to `1/eb[i]²`, and the rest are left as they are. The call fails at the first zero error bar among those, leaving the weights derived up to it. Otherwise the weights end as the derived ones divided by their sum, or stay as derived (with `ZeroWeightSum`) when that sum is 0 |
| Steb.Steb2InverseVariance | src/steb.rs:60-82 | with one error bar per weight (`|w| = |eb|`), derived weights and no zero error bar, the call succeeds, and the squared error is `1 / Σ(1/eb[i]²)` |
| Lib.AsUsize | src/lib.rs:33 | the float-to-usize cast gives 0 for negative values and the largest usize at or beyond it, and otherwise the floor |
| Lib.Qtiles | src/lib.rs:31-46 | `None` exactly when `nq == 0` or `nq >= n`, so always for an empty slice. With `Some`, `1 <= nq < n`, so all four reads are in range |
| Lib.UpperWeight | src/lib.rs:39 | the weight `w2 = q·(n+1) − nq`. When `q·n` is within usize range, `q <= w2 < q + 1` |
| Lib.QtilesDefinedRange | src/lib.rs:32-37 | for a slice within usize range, there is a value exactly when `1 <= q·n < n` |
| Lib.QtilesWeightRange | src/lib.rs:39-40 | for a slice within usize range, when there is a value, `q <= w2 < q + 1` |
| Lib.QtilesMayExtrapolate | src/lib.rs:39-42 | for `[0, 1, 2]` and `q = 0.6`, `nq = 1` and `w2 = 1.4`, and the lower estimate 1.4 lies above `x[1]` |
| Lib.QtilesInterpolates | src/lib.rs:39-45 | for a sorted slice and `0 <= w2 <= 1`, each estimate lies between the two values it weighs |
| Lib.QtilesMirror | src/lib.rs:42-43 | negating and reversing the slice swaps the lower and upper estimates and negates them, and leaves the `None` cases alone |
| Lib.QtilesConstant | src/lib.rs:39-45 | a constant slice gives the constant as both estimates |
| Lib.QtilesExamples | src/lib.rs:31-46 | for 1..10, `q = 0.05` gives `None`, and `q = 0.5` gives `(5.5, 5.5)` |
| Lib.UniformPdf | src/lib.rs:56-62 | the density is non-negative, and positive exactly on the closed interval `[x0, x1]` |
| Lib.UniformCdf | src/lib.rs:64-72 | between `x0` and `x1` the value times the interval length is the distance `x - x0` from the left end. Its range and end values are `UniformCdfRange` |
| Lib.UniformCdfRange | src/lib.rs:64-72 | the distribution function lies in `[0, 1]`, for every interval. It is 0 below `x0`, and 1 at and beyond `max(x0, x1)` |
| Lib.UniformCdfMonotone | src/lib.rs:64-72 | the distribution function is non-decreasing in `x` |
| Lib.UniformCdfIntegratesPdf | src/lib.rs:56-72 | between two points of `[x0, x1]`, the distribution function rises by the density times their distance |
| Lib.UniformCdfExample | src/lib.rs:64-72 | the uniform distribution on `[0, 10]` is `1/2` at 5 |

## Left out

- The square roots of `steb0`, `steb1` and `steb2`: each estimator returns the squared error. The root of a non-negative real carries no further structure.
- `f64` rounding, NaN, infinities and overflow: the model computes over exact reals.
- `gamma_p` and the module `gamma`: this model does not include them. `gamma_p` is the parameter `gammaP`, and the lemmas that need it to be monotone require `GammaMonotone`.
- The `println!` diagnostics before the `panic!` of `fi1` (`src/chi2.rs:71-73`): the diagnosed values `y1`, `y`, `y2` are carried in the failure value instead.
- Chi2.Chi2Xq: the growth loop has no bound in the source, which loops forever when `nf = 0` and `q > chi2_df(0, 0)`, or when no step reaches `q`. The model stops after `maxSteps` steps with `BracketNotFound`.
- Chi2.PerDegree: at `nf = 0` the source divides by zero. The model returns `ZeroDegreesOfFreedom`.
- Chi2.Inverse: the single `panic!` of `fi1` is split into `OutOfRange` and `NoConvergence`. The bracket invariant is proved for every `f`, so only the crossing lemma needs monotonicity.
- The unused locals `q1` and `q2` of `chi2_xq`: they have no effect.
- `cauchy_pdf` and `cauchy_cdf`: they only evaluate `atan` and `PI`, transcendental values with nothing structural to prove.
- `get_input` and `get_float`: they read standard input.
- The modules `beta`, `student`, `gau`, `marsaglia` and `plot`: they are not part of this model.
- The commented-out one-pass variance of `steb0`: it is not compiled.
- Steb.Steb0: with fewer than two samples the source returns NaN. The model returns `TooFewSamples`.
- Steb.Steb1: on a length mismatch the source aborts. The model returns `LengthMismatch` and leaves `w` unchanged.
  - With a zero weight sum, the source writes NaN or infinity into `w`. The model returns `ZeroWeightSum` and leaves `w` unchanged.
  - With one sample, the source divides by zero. The model normalises `w` and returns `TooFewSamples`.
  - With no samples, `data.len() - 1` underflows in the source. The model returns `TooFewSamples` and leaves `w` unchanged.
- Steb.Steb2: with an empty `w` the source panics on `w[0]`. The model returns `EmptyWeights`.
  - With a zero error bar `eb[i]` among the derived weights, the source stores infinity there and carries on. The model fails with `ZeroErrorBar(i)` at the first such `i`, with the weights before `i` already rewritten.
  - With a zero weight sum, the source divides by zero in the normalisation loop. The model returns `ZeroWeightSum` and keeps the (possibly derived) weights.
- Lib.UniformPdf: at `x0 = x = x1` the source divides by zero. That single input is excluded by the precondition.
- Lib.AsUsize: it models a 64-bit `usize`. It ignores that `f64` cannot represent the largest usize exactly, and a NaN product, which Rust casts to 0.
