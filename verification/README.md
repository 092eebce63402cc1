# autocrop — a Dafny model of the page-edge analysis

autocrop looks at a scanned book page lying on a black background. It works
out the angle by which the page is tilted and the rectangle that crops the
black border away. The analysis works like this:

- It samples `n` rows and `n` columns of the image.
- Along each sample it reads the grey values of a strip one sixteenth of
  the image wide, starting at every edge.
- It smooths each strip with a one-pole low-pass filter and differentiates
  it.
- It takes the peak of the first rising edge above a threshold as the page
  border on that side.

The border positions of each side are then cleaned of noise and fitted with
a least-squares line. Its slope gives the side's angle, the line's value at
the middle sample, `a + b*len/2` (autocrop.go:149), the crop distance, and
its squared correlation the confidence.

This project models the signal utilities of `util/util.go` and the sampling
and edge-search geometry of `autocrop.go`. Values are Dafny `real`s and
image coordinates are `int`s. Every operation is a pure function, or a
method over sequences whose result is proved equal to a pure definition.

| file | module | what it holds |
|---|---|---|
| `wrappers.dfy` | `Wrappers` | `Option` |
| `seqmath.dfy` | `SeqMath` | sums, prefix extremes, `Min2`/`Max2`, small real-arithmetic lemmas |
| `filter.dfy` | `Filter` | `Lowpass`, `Differentiate` |
| `stats.dfy` | `Stats` | `Mean`, `AvgAbsDev`, `MinMax`, `Trim` |
| `regression.dfy` | `Regression` | the sums of `LinearFit`, the fit, and its least-squares properties |
| `cleaner.dfy` | `Cleaner` | the three passes of `Clean`, and `Clean` as a loop program |
| `edgesearch.dfy` | `EdgeSearch` | the peak search of `search` |
| `sampling.dfy` | `Sampling` | `grayAt`, `sampleX`/`sampleY`, `analyzeX`/`analyzeY` |
| `analyzer.dfy` | `Analyzer` | the sample positions of `Analyze`, the fan-out run in order, the bounds and angle assembly |

Conventions:

- `Lowpass` computes its smoothing factor as `1/(1/(2*pi*fc) + 1)`. For
  every positive cutoff that factor lies strictly between 0 and 1, so the
  model takes the factor itself as the parameter `alpha`, with
  `0 < alpha < 1`.
- The fixed cutoff `0.1` inside `Differentiate` becomes the parameter
  `alphaD`.
- The squared correlation is written without a square root, as
  `cov^2 / (varX * varY)`.
- It is `None` where the source computes NaN, that is, when every nonzero
  sample has the same value (`Regression.R2NoneIffFlat`).
- Divisions by zero that the source does not guard are preconditions: the
  mean of an empty slice, and a fit with fewer than two nonzero samples.
- The image is a total function from coordinates to 16-bit RGB colours.

How the chunk pass of `Clean` (util/util.go:120-130) treats the end of
the signal:

- Each iteration starts a block at `t`, a multiple of `chunkSize`.
- While at least 8 entries remain, the window it measures is the block
  itself, `xs[t:t+chunkSize]`.
- Once fewer than 8 entries remain, the window is the whole remainder
  `xs[t:]`. If that window is noisy, only its first `chunkSize` entries are
  zeroed, because the zero buffer holds `chunkSize` entries. Later
  iterations measure the shrinking rest again.
- The model follows this (`Cleaner.WindowEnd`, `Cleaner.BlockEnd`,
  `Cleaner.ChunkPass`).
- Every window starts at or after the blocks zeroed before it, so each
  decision reads original values. That is why the chunk pass can be
  defined on the input alone.

## Model

| member | source | states |
|---|---|---|
| Filter.Lowpass | util/util.go:23-31 | the output has the input's length, starts with `x[0]`, and every `y[t]` lies between the least and the greatest of `x[0..t]` |
| Filter.Blend | util/util.go:29 | one filter step lands between the previous output and the new input (a convex combination) |
| Filter.LowpassBounded | util/util.go:27-30 | every output of the filter lies between the extremes of the inputs seen so far |
| Filter.LowpassAtBounded | util/util.go:27-30 | the same bound at one index, by induction over the loop |
| Filter.LowpassPrefix | util/util.go:27-30 | the filter is causal: filtering a prefix gives the prefix of the output |
| Filter.LowpassConstant | util/util.go:23-31 | a constant signal comes back unchanged |
| Filter.Differentiate | util/util.go:36-50 | empty input gives empty output; otherwise the length is kept, the first value is `xs[1] - xs[0]`, and every output lies between the least and greatest raw difference |
| Filter.DifferentiateLinear | util/util.go:43-49 | on a line `c0 + c*i` every raw difference is the slope `c` and the smoothed derivative is constantly `c` |
| Stats.Mean | util/util.go:53-59 | the mean lies between the least and the greatest element, and is the element itself for a constant input |
| Stats.AvgAbsDev | util/util.go:156-165 | the average absolute deviation is never negative, and is zero exactly when all elements are equal |
| Stats.MinMax | util/util.go:62-72 | both results start at zero: `(0, 0)` for empty input, otherwise `min(0, least)` and `max(0, greatest)` |
| Stats.Trim | util/util.go:169-189 | `lo <= hi <= len`; nothing before `lo` or from `hi` on is strictly between 0 and `thresh`; `lo` and `hi-1` are plausible when any entry is plausible; otherwise `(0, len)` |
| Regression.LinearFit | util/util.go:81-109 | with two or more nonzero samples, the fitted line solves the least-squares normal equations, is their only solution, and `r2` lies in [0, 1] when defined |
| Regression.AccumulateCount | util/util.go:84-90 | the effective sample count is the number of nonzero entries |
| Regression.SameNonzeroPairsSameFit | util/util.go:86-97 | two inputs with the same nonzero entries at the same indices have the same sums, count and fit |
| Regression.TrailingZeros | util/util.go:86-90 | appending zeros changes none of the sums |
| Regression.NormalUnique | util/util.go:104-105 | when the indices are spread out, the normal equations have exactly one solution |
| Regression.FitCorrelationBounded | util/util.go:104-107 | the squared correlation of the source's formulas lies in [0, 1] |
| Regression.ExactLineFit | util/util.go:104-107 | when every nonzero entry lies on `a + b*i`, the fit returns `(a, b)`, with `r2 = 1` for `b != 0` and undefined for a flat line |
| Regression.PerfectFitIff | util/util.go:104-107 | `r2 = 1` exactly when every nonzero entry lies on the fitted line and that line is not flat |
| Regression.R2Explained | util/util.go:98-107 | `r2` is the share of the total sum of squares about the mean that the fitted line explains, `1 - residual/total`, and is undefined exactly when that total is 0 |
| Regression.R2NoneIffFlat | util/util.go:104-107 | `r2` is undefined (the source's NaN) exactly when every nonzero entry has the same value |
| Regression.FillKeepsFit | util/util.go:146-151 | filling zero entries with values of the fitted line leaves the fitted line unchanged |
| Regression.FillSameResiduals | util/util.go:146-151 | filling zeros from the line changes neither residual sum of the normal equations |
| Regression.GapIsResidual | util/util.go:86-97 | the distance of the accumulated sums from the normal equations is the sum of the per-entry residuals |
| Cleaner.ChunkStart | util/util.go:120 | every index lies in exactly one block `[t, t + chunkSize)` whose start `t` is a multiple the loop visits |
| Cleaner.WindowEnd | util/util.go:121-125 | the measured window is the whole remainder when fewer than 8 entries are left, and the block otherwise |
| Cleaner.ChunkPass | util/util.go:118-131 | an entry is zeroed exactly when the window of its block deviates more than `chunkMeanDev`, and kept otherwise |
| Cleaner.ConstantChunkKept | util/util.go:127-130 | a block whose window is constant is never zeroed when `chunkMeanDev >= 0` |
| Cleaner.ResidualPass | util/util.go:135-141 | an entry further than `regressionDev` from the line becomes 0 and every other entry is kept unchanged, so every surviving nonzero entry is within `regressionDev` of the line |
| Cleaner.FillPass | util/util.go:146-151 | nonzero entries are kept, and every zero takes the line's value at its index |
| Cleaner.Clean | util/util.go:114-152 | the loop program equals the composition of the three passes with a fit between them, and keeps the length |
| Cleaner.ZeroNoisyChunks | util/util.go:118-131 | the chunk loop computes the chunk pass |
| Cleaner.ZeroChunk | util/util.go:121-130 | one iteration zeroes the block at `t` exactly when its window in the input is noisy, and touches nothing else |
| Cleaner.ZeroOutliers | util/util.go:135-141 | the residual loop computes the residual pass |
| Cleaner.FillGaps | util/util.go:146-151 | the fill loop computes the fill pass |
| Cleaner.CleanedKeepsFit | util/util.go:146-151 | the cleaned signal has the same fitted line as the second fit |
| Cleaner.ResidualKeepsLine | util/util.go:135-141 | a signal on the fitted line loses nothing in the residual pass |
| Cleaner.FillCompletesLine | util/util.go:146-151 | the fill pass turns a signal on the fitted line into the whole line |
| Cleaner.CleanRecoversLine | util/util.go:114-152 | when the nonzero entries lie on a line and two survive the chunk pass, `Clean` returns exactly that line |
| Cleaner.CleanFixedPoint | util/util.go:114-152 | a zero-free signal on a line is a fixed point of `Clean` |
| EdgeSearch.FirstAbove | autocrop.go:230-231 | the first index from `from` whose value is above the threshold, or the length |
| EdgeSearch.RunEnd | autocrop.go:236-240 | the end of the run of values above the threshold |
| EdgeSearch.RunPeak | autocrop.go:235-245 | the inner loop returns the earliest maximum of the run, since only a strictly larger value replaces it |
| EdgeSearch.PeakIndex | autocrop.go:229-250 | 0 when no value exceeds the threshold; otherwise an index in the first run that holds the run's maximum, and the earliest one that does |
| EdgeSearch.PeakIndexUnique | autocrop.go:229-250 | the first-run peak is unique, so the search returns the only index with that property |
| EdgeSearch.ZeroIsAmbiguous | autocrop.go:223-252 | the result 0 occurs exactly when nothing is above the threshold or when the first value starts the run and is its maximum |
| EdgeSearch.Search | autocrop.go:223-253 | the edge lies inside the sampled window and is the first-run peak of the smoothed derivative, or 0 without an edge |
| EdgeSearch.FlatLineHasNoEdge | autocrop.go:223-253 | a constant scan line has no edge for a non-negative threshold and yields 0 |
| Sampling.Average16 | autocrop.go:178-179 | the average of the three 16-bit channels lies between the darkest and the brightest channel |
| Sampling.GrayAtAsWritten | autocrop.go:178-179 | the `uint8` conversion keeps the low byte of the average; it is right on true greys `v * 0x101` |
| Sampling.GrayAt | autocrop.go:178-179 | the high byte of the average lies between the high bytes of the darkest and the brightest channel, and is `v` on the grey `v * 0x101` |
| Sampling.AverageBytes | autocrop.go:179 | the average is `256 * GrayAt + GrayAtAsWritten`: the two conversions are its high and low byte |
| Sampling.GrayAtMonotone | autocrop.go:179 | the corrected grey never decreases when every channel increases |
| Sampling.GrayAtAsWrittenCounterexample | autocrop.go:179 | the grey `0x0100` reads darker than the grey `0x00FF`, and `(0xFFFF, 0xFFFF, 0xFEFE)` reads 169 instead of 255 |
| Sampling.SampleLine | autocrop.go:210-220 | sample `i` is the line's value at `start + i*delta` for every step before `end`, and the rest of the buffer is unchanged |
| Sampling.SampleX | autocrop.go:210-214 | the row walk fills the buffer with the program's grey values (`GrayAtAsWritten`, the low byte) along row `y` and leaves the rest alone |
| Sampling.SampleY | autocrop.go:216-220 | the column walk fills the buffer with the program's grey values (`GrayAtAsWritten`, the low byte) along column `x` and leaves the rest alone |
| Sampling.AnalyzeX | autocrop.go:182-194 | the left edge is searched in columns `0 .. m-1`, the right edge in `dx, dx-1, .., dx-m+1` with `m = dx/16`, over the program's grey values; both results lie inside the strip |
| Sampling.AnalyzeY | autocrop.go:196-208 | the same scans down a column with `m = dy/16` for the top and bottom edges |
| Sampling.RightScanColumns | autocrop.go:190 | the right scan covers exactly the columns `dx-m+1 .. dx`, starting one past the last pixel |
| Analyzer.SamplePos | autocrop.go:117-118 | the position `i*d/n` of sample `i` lies inside the side `[0, d)` |
| Analyzer.SamplePosFloor | autocrop.go:117-118 | the position is the floor of `i*d/n` and below `d` |
| Analyzer.SamplePosMonotone | autocrop.go:115-118 | later samples never have earlier positions |
| Analyzer.SampleEdges | autocrop.go:116-118 | the four edges of sample `k`, along row `k*dy/n` and column `k*dx/n`, lie inside their strips |
| Analyzer.AnalyzeSample | autocrop.go:116-120 | one goroutine's work yields exactly the edges of its sample index |
| Analyzer.SampleSides | autocrop.go:113-123 | the fan-out run in order fills entry `k` with the edges of sample `k`, for every `k < n`; with `n = 0` it yields no edges |
| Analyzer.Assemble | autocrop.go:125-136 | the minimum corner is `(left crop, top crop)`; the right and bottom crops are measured back from `dx` and `dy`; the confidences are in top, right, bottom, left order; the angle is exactly the unweighted mean `(top + right + bottom + left) / 4` of the four angles, so it lies between the least and the greatest of them |
| Analyzer.BoundsOrderedIff | autocrop.go:133-134 | nothing orders the corners: the rectangle is well formed exactly when the opposite crops fit in the image |

## Left out

- Image and file I/O is not modelled: `AnalyzeFile`, the command line in `autocrop/main.go`, and image decoding. They are wrappers with side effects.
- The goroutines and the `sync.WaitGroup` of `Analyze` are left out. Each task writes only its own index, so `Analyzer.SampleSides` runs the tasks in order.
- `util/draw.go`, `chart` and the colour constants only draw diagnostic pictures and are not modelled.
- `analyzeResult` (autocrop.go:142-163) is not modelled. It needs `math.Atan` for the angle and an `int` truncation for the crop. Its `lo`/`hi` reslicing has no effect on its results. `Analyzer.Assemble` takes each side's angle, confidence and integer crop as inputs instead.
- `Transform.String` uses `math.Sin` and `Sprintf`, and `Rad2deg` uses pi. Both are floating-point formatting and are not modelled.
- `Scale` is not used by the analysis and is not modelled.
- The factor `2*pi*fc` in `Lowpass` and the cutoff `0.1` in `Differentiate` become the parameters `alpha` and `alphaD`, because pi is not a rational number.
- `math.Sqrt` in `LinearFit` is avoided: `r*r` is written as `cov^2/(varX*varY)`, which is the same value whenever `varX*varY > 0`.
- IEEE-754 rounding is not modelled, and neither are NaN and infinity. A zero `varY` gives `None` instead of NaN. The other divisions by zero are preconditions.
- The `*image.Gray` fast path of `grayAt` (autocrop.go:174-175) and the dispatch through `img.At` are not modelled. The image is a total function to colours, and the alpha channel returned by `RGBA()` is never read.
- The colour read one pixel past the image by the right and bottom scans depends on the image type, so the model leaves it unconstrained.
- On the `*image.Gray` fast path (autocrop.go:174-175) the right scan's first read is `Pix[PixOffset(dx, y)]`, which wraps to the first pixel of row `y+1` and runs past the end of `Pix` only when `y = dy-1`; this is not modelled.
- On the same fast path the bottom scan's first read is `Pix[PixOffset(x, dy)]`, one row past the image and past the end of `Pix`; this is not modelled.
- `Sampling.GrayAtAsWritten` uses `uint32` arithmetic, but with 16-bit channels the sum stays below 2^32, so no wrap-around occurs.
- Chunk sizes outside 1..8 are outside the domain of `Clean`: a size of 0 never advances the loop, and a size above 8 can slice past the end.
- `Clean` works on a copy and returns the cleaned sequence rather than overwriting the caller's slice.
- `Clean` accepts `cutoff` and, like the source, never reads it.
- Scans shorter than two samples are outside the domain: `Lowpass` reads `x[0]`, and `Differentiate` of one value reads `xs[1]`. So `EdgeSearch.Search` needs two samples, and `Sampling.AnalyzeX` and `Sampling.AnalyzeY` need a side of at least 32 pixels.
- A walk of `sampleX`/`sampleY` that never reaches `end`, or that is longer than the buffer, is outside the domain.
- The search's inner loop re-reads the run's first value, which can never replace itself, so `EdgeSearch.PeakIndex` starts one index later. The source returns `edge` as a `float64`; the model returns the index.

## Findings

| source | as written | input that shows it | evidently intended | confidence | as-written member | corrected member |
|---|---|---|---|---|---|---|
| autocrop.go:179 | `uint8((r + g + b) / 3)` keeps the low byte of the 16-bit channel average | the greys `(0x00FF, 0x00FF, 0x00FF)` and `(0x0100, 0x0100, 0x0100)` read 255 and 0, so the brighter one reads darker; `(0xFFFF, 0xFFFF, 0xFEFE)` reads 169 instead of 255 | the high byte, `(r + g + b) / 3 / 256`, a grey value between the darkest and the brightest channel that never decreases as channels brighten | high; not executed | Sampling.GrayAtAsWritten, Sampling.GrayAtAsWrittenCounterexample | Sampling.GrayAt, Sampling.GrayAtMonotone |

The scans (`Sampling.SampleX`, `Sampling.SampleY` and everything built on
them) read grey values through `Sampling.GrayAtAsWritten`, as the program
does. `Sampling.GrayAt` states the intended conversion and its
monotonicity, and `Sampling.AverageBytes` relates the two.
