# NVision center detection, modelled in Dafny

NVision finds NV centers in confocal scans. A scan is a raster of count rates over X/Y stage
positions, stored as `datasets.ScanCounts` with the axes `datasets.xSteps` and `datasets.ySteps`.
The one piece of logic the repository owns is `detect_nv_centers`. It picks a threshold, smooths
the grid, decides whether to look for local maxima at all, maps each peak's pixel index
`[row, col]` to stage positions in microns, and reads the peak intensities from the raw grid.

The function exists in two copies, and both are modelled here:

- **Guarded** (`src/gui.py`). An empty or all-NaN grid returns an empty result with threshold 0.
  Mean and standard deviation skip NaN cells, with a fallback to 0 if either is NaN. Peak
  extraction is skipped when the threshold is not positive or no smoothed cell exceeds it.
- **Unguarded** (`src/main.py`). Plain mean and standard deviation over every cell, so, without
  `min_peak_height`, one NaN cell makes the threshold NaN. Extraction always runs. An empty grid makes the function raise.

Both copies are pure, so the model is functions and lemmas. Numbers are exact reals, and NaN is
a value of its own (`Floats.Float`). It stands for a float NaN cell (JSON `NaN`), not for a
JSON `null`. Three library calls are parameters, bundled in
`Detection.Library`:

- the square root inside `np.std`;
- `ndimage.gaussian_filter`;
- `skimage.feature.peak_local_max`.

Their subset types state all the model assumes about them. The square root is non-negative and 0
at 0. Smoothing keeps the grid's shape. Every reported peak lies inside the image.
`np.interp(i, np.arange(n), steps)` is written out as piecewise-linear interpolation over the
nodes `0..n-1`, clamped at the ends.

Modules:

- `Floats`: the NaN-or-number value, the optional override, and the result-or-exception wrapper.
- `Scan`: the grid, the dataset and its shape invariant.
- `Stats`: sums, means, variances, and NaN skipping.
- `Interpolation`: `np.interp`.
- `Detection`: the library types, the result record and the assembly both copies share.
- `Guarded`: `src/gui.py`.
- `Unguarded`: `src/main.py`.
- `Agreement`: the inputs on which the two copies agree, and those that tell them apart.

Observations about the source:

- In `src/gui.py`, for finite cells, the NaN fallback (lines 44-46) can never fire. The guard
  at line 24 has already rejected grids with no numeric cell, and with one finite numeric cell
  both `nanmean` and `nanstd` are numbers (`Guarded.FallbackUnreachable`). The model has no
  infinities. An infinite cell would make `nanstd` NaN (`inf - inf`), and the fallback would
  then fire. The fallback is kept in the model as written, and `Guarded.FallbackThresholdIsZero` states what it would do.
- `np.all(np.isnan(x))` is already true of an empty array. So the `size == 0` test at
  `src/gui.py:24` is subsumed by the all-NaN test. The model keeps both tests.
- The two copies of the function differ. The model follows each copy's code and states the
  differences as lemmas in `Agreement`.

## Model

| member | source | states |
|---|---|---|
| Interpolation.Interp | src/gui.py:79-80 | `np.interp` over the nodes `0..n-1`: the lemmas below state what it computes |
| Interpolation.InterpAtNode | src/gui.py:79-80 | at an in-range integer index, interpolation returns exactly that entry of the steps |
| Interpolation.InterpBetweenNodes | src/gui.py:79-80 | between two neighbouring indices the interpolated position lies between their two steps |
| Interpolation.InterpIdentity | src/main.py:41-42 | with steps `0, 1, ..., n-1` a position maps to itself inside `[0, n-1]` and clamps to the end values outside it |
| Interpolation.InterpMonotone | src/main.py:41-42 | for ascending steps, a larger index never gives a smaller position |
| Interpolation.InterpInCell | src/gui.py:79-80 | inside a cell `[k, k+1]` the result is the straight line through the two nodes, at both ends included |
| Stats.VarianceOf | src/gui.py:41 | the population variance `np.nanstd`/`np.std` take the root of is never negative |
| Stats.StdOf | src/gui.py:41 | the standard deviation is never negative |
| Stats.NonNaNMembers | src/gui.py:40-41 | the samples NaN-skipping statistics use are exactly the numeric cells, and there are none exactly when every cell is NaN |
| Stats.NonNaNOfNumbers | src/main.py:23-24 | on NaN-free cells, skipping NaNs leaves exactly the values plain `mean`/`std` use |
| Stats.NonNaNAppend | src/gui.py:40-41 | skipping NaNs commutes with concatenating cells |
| Stats.NonNaNIgnoresNaN | src/gui.py:40-41 | inserting a NaN cell anywhere leaves the samples unchanged |
| Stats.ConstantSample | src/gui.py:40-41 | a sample whose values are all `c` has mean `c` and standard deviation 0 |
| Scan.Size | src/gui.py:24 | numpy's `.size`, the length of the row-major flattening; `Scan.SizeZero` states when it is 0 |
| Scan.AllNaN | src/gui.py:24 | `np.all(np.isnan(...))`: every cell is NaN, which the empty grid satisfies |
| Scan.AllNaNCells | src/gui.py:24 | the all-NaN test over the flattening holds exactly when every cell `g[i][j]` is NaN |
| Scan.SizeZero | src/gui.py:24 | a grid has no cells exactly when every row is empty |
| Scan.AnyAbove | src/gui.py:57 | `np.any(smoothed > threshold)`: some numeric cell lies strictly above the threshold, and NaN never does |
| Scan.EmptyGridHasEmptySteps | src/main.py:41-42 | for a well-formed dataset the grid has no cells exactly when a step array is empty |
| Detection.Assemble | src/gui.py:75-92 | the assembled sequences run parallel to the coordinates; intensity `i` is the raw count at peak `i`; the X position is the X step of its column and the Y position the Y step of its row; coordinates, processed image and threshold pass through |
| Detection.AssembleNothing | src/main.py:37-54 | assembling no peaks gives the empty result |
| Guarded.NanMean | src/gui.py:40 | `nanmean` is NaN exactly when every cell is NaN |
| Guarded.NanStd | src/gui.py:41 | `nanstd` is NaN exactly when every cell is NaN, and otherwise non-negative |
| Guarded.Statistics | src/gui.py:40-46 | the standard deviation used is never negative, and an all-NaN grid falls back to mean 0 and deviation 0 |
| Guarded.Threshold | src/gui.py:48-51 | a given `min_peak_height` is the threshold; otherwise, with a non-negative factor, the threshold is at least the mean used |
| Guarded.DetectCenters | src/gui.py:16-92 | on every return path the four per-peak sequences have equal length, every peak lies in the raw grid, its intensity is the raw count and its positions are the steps of its column and row, and the threshold reported is a number |
| Guarded.DegenerateGridHasNoPeaks | src/gui.py:24-33 | an empty or all-NaN grid gives no peaks, threshold 0 and the raw grid as processed image, even with an override and whatever step arrays an empty grid records |
| Guarded.FallbackUnreachable | src/gui.py:44-46 | past the guard both statistics are numbers, so the fallback does not fire |
| Guarded.FallbackThresholdIsZero | src/gui.py:44-49 | when the fallback fires and there is no override, the threshold is 0 |
| Guarded.OverrideIsThreshold | src/gui.py:48-51 | past the guard, a given `min_peak_height` is the reported threshold exactly |
| Guarded.ReportedThreshold | src/gui.py:57-92 | past the guard, every return path reports the computed threshold, not the guard's constant 0 |
| Guarded.StatisticalThreshold | src/gui.py:40-49 | without an override the threshold is mean + factor * std over the numeric cells only |
| Guarded.ThresholdAtLeastMean | src/gui.py:48-49 | with a non-negative factor the statistical threshold is at least the mean |
| Guarded.ThresholdIgnoresNaN | src/gui.py:40-49 | a NaN cell inserted anywhere does not change the threshold |
| Guarded.UniformGridThreshold | src/gui.py:40-49 | if every numeric cell holds `c`, the statistical threshold is `c` |
| Guarded.NoCandidateSkipsExtraction | src/gui.py:57-72 | a threshold ≤ 0, or no smoothed cell above it, gives no peaks, the smoothed grid and the computed threshold |
| Guarded.CandidateRunsExtraction | src/gui.py:57-61 | otherwise the peaks are exactly what extraction returns on the smoothed grid at the computed threshold |
| Guarded.ZeroGridHasNoPeaks | src/gui.py:24-59 | a grid of zeros (NaN cells aside) gives no peaks without an override |
| Unguarded.Std | src/main.py:24 | `np.std` is a number exactly when the grid is non-empty and NaN-free, and then non-negative |
| Unguarded.Threshold | src/main.py:25-28 | the threshold is a number exactly when `min_peak_height` is given or the grid is non-empty and NaN-free; a given height is the threshold |
| Unguarded.DetectCenters | src/main.py:15-54 | it fails exactly on an empty grid; otherwise the four per-peak sequences have equal length, intensities are raw counts and positions are the steps of each peak's column and row |
| Unguarded.OverrideIsThreshold | src/main.py:25-28 | a given `min_peak_height` is the reported threshold exactly |
| Unguarded.StatisticalThreshold | src/main.py:23-26 | without an override, on NaN-free cells, the threshold is mean + factor * std over all cells |
| Unguarded.NaNCellPoisonsThreshold | src/main.py:23-26 | one NaN cell makes the statistical threshold NaN: no NaN exclusion, no fallback |
| Unguarded.ExtractionAlwaysRuns | src/main.py:31-34 | on any non-empty grid the peaks are exactly extraction's output on the smoothed grid, at the reported threshold, whatever its sign |
| Agreement.StatisticsAgree | src/main.py:23-24 | on a non-empty NaN-free grid, `np.mean` and `np.std` equal `np.nanmean` and `np.nanstd` |
| Agreement.ThresholdsAgree | src/main.py:23-28 | with an override, or on non-empty NaN-free cells, both copies compute the same threshold |
| Agreement.SameResultExactly | src/main.py:23-54 | past the guard, with an override or no NaN, the copies return the same result if and only if the guarded copy runs extraction or extraction finds nothing |
| Agreement.EmptyGridSeparates | src/main.py:41-42 | on an empty grid the unguarded copy raises and the guarded copy returns no peaks with threshold 0 |
| Agreement.MissingCellsSeparate | src/main.py:23-26 | on a grid with NaN and numeric cells, the unguarded threshold is NaN and the guarded one a number |
| Agreement.NonPositiveThresholdSeparates | src/main.py:34 | at a threshold ≤ 0 the guarded copy reports no peaks; the unguarded one reports whatever extraction returns |

## Left out

- `loadJson` (`src/gui.py:10-14`, `src/main.py:9-13`): file I/O and JSON parsing. The dataset
  arrives as a value.
- `visualize_results`, `process_fsm_files` and the Tk GUI: rendering, batch iteration, console
  logging and widgets. They draw the threshold mask `processed_image > threshold`. The model
  has only `np.any` of that mask (`Scan.AnyAbove`), not the mask itself.
- The `warnings` filters: they only silence messages and change no value.
- The internals of `gaussian_filter`, `peak_local_max` and `sqrt`, all library code. The model
  does not fix the blur kernel, the boundary mode or how NaN spreads through the blur.
  For the peak search it does not fix the `min_distance` suppression, the order of the peaks or
  whether `threshold_abs` is strict. So whether a lone bright pixel is reported, or which of two
  adjacent equal peaks survives, cannot be derived from the model.
- IEEE rounding and infinities: values are exact reals, with NaN as a separate value. A NaN or
  infinite `threshold_factor` or `min_peak_height` is not modelled.
- Guarded.DetectCenters, Unguarded.DetectCenters: a dataset with cells must be well-formed.
  That means one row per Y step and one cell per X step in every row. The shape is assumed as a
  loader invariant: `loadJson` is a bare `json.load`, and nothing in the program checks the
  shape. The guarded copy accepts a grid with no cells whatever its step arrays hold, and so
  does the model. The unguarded copy, and the lemmas comparing the copies, require the shape
  on every dataset. On misshapen datasets with cells the source may return normally, clamp
  positions to the end steps, or raise (`np.interp` on an empty step array, `np.array` on ragged
  rows). The model covers none of these.
- Unguarded.DetectCenters: every exception on an empty grid is folded into one error. Which
  library call raises first is not modelled.
- JSON `null` cells: numpy then builds an object array, and `np.isnan` (`src/gui.py:24`) and
  `np.mean` (`src/main.py:23`) raise. The model has no null cell, so it does not capture that
  both copies raise on one. Missing readings are modelled only as float NaN.
- The keyword defaults of `detect_nv_centers` (factor 2.0, minimum distance 5): the model has
  no default arguments. A call that omits them through `**kwargs` corresponds to passing 2.0
  and 5 explicitly.
- Stats.StdOf: the square root is only assumed non-negative and 0 at 0. So statements about the
  standard deviation go no further than that, or than a zero variance.
