/** `detect_nv_centers` as src/main.py writes it: plain mean and standard
    deviation over every cell, no guard on the input, and peak extraction
    run unconditionally. */
module Unguarded {
  import opened Floats
  import opened Scan
  import opened Stats
  import opened Detection

  /** The exception this copy raises on a grid with no cells. Which library
      call raises first is not modelled. */
  datatype Error = EmptyGrid

  /** `np.mean`: NaN if any cell is NaN, and NaN (0/0) for no cells at all. */
  function Mean(cells: seq<Float>): (m: Float)
    ensures m.Num? <==> |cells| > 0 && Numeric(cells)
  {
    if |cells| == 0 || exists c :: c in cells && c.NaN? then NaN
    else Num(MeanOf(Values(cells)))
  }

  /** `np.std` (population): NaN under the same conditions as the mean. */
  function Std(sqrt: SquareRoot, cells: seq<Float>): (s: Float)
    ensures s.Num? <==> |cells| > 0 && Numeric(cells)
    ensures s.Num? ==> 0.0 <= s.val
  {
    if |cells| == 0 || exists c :: c in cells && c.NaN? then NaN
    else Num(StdOf(sqrt, Values(cells)))
  }

  /** The threshold: `min_peak_height` when given, else mean + factor * std,
      NaN propagating from either statistic. */
  function Threshold(cells: seq<Float>, thresholdFactor: real, minPeakHeight: Option<real>, sqrt: SquareRoot): (t: Float)
    ensures t.Num? <==> minPeakHeight.Some? || (|cells| > 0 && Numeric(cells))
    ensures minPeakHeight.Some? ==> t == Num(minPeakHeight.value)
  {
    var mean := Mean(cells);
    var std := Std(sqrt, cells);
    if minPeakHeight.None? then Plus(mean, Scale(thresholdFactor, std)) else Num(minPeakHeight.value)
  }

  /** The unguarded detector. It fails exactly on an empty grid; otherwise
      the per-peak sequences run parallel and every peak reads the raw grid
      and the steps. */
  function DetectCenters(d: ScanDataset, thresholdFactor: real, minDistance: int,
                         minPeakHeight: Option<real>, lib: Library): (r: Result<DetectionResult, Error>)
    requires WellFormed(d)
    ensures r.Failure? <==> Size(d.counts) == 0
    ensures r.Success? ==> Parallel(r.value) && ReadsRawGrid(r.value, d)
  {
    var threshold := Threshold(Flatten(d.counts), thresholdFactor, minPeakHeight, lib.sqrt);
    var smoothed := lib.smooth(d.counts);
    var coordinates := lib.findPeaks(smoothed, minDistance, threshold);
    EmptyGridHasEmptySteps(d);
    if |d.xSteps| == 0 || |d.ySteps| == 0 then
      Failure(EmptyGrid)
    else
      assert SameShape(smoothed, d.counts);
      Success(Assemble(d, coordinates, smoothed, threshold))
  }

  /** An explicit `min_peak_height` is the threshold, exactly. */
  lemma OverrideIsThreshold(d: ScanDataset, thresholdFactor: real, minDistance: int, height: real, lib: Library)
    requires WellFormed(d) && Size(d.counts) > 0
    ensures DetectCenters(d, thresholdFactor, minDistance, Some(height), lib).Success?
    ensures DetectCenters(d, thresholdFactor, minDistance, Some(height), lib).value.threshold == Num(height)
  {
  }

  /** Without an override and with no NaN cell the threshold is
      mean + factor * std over all cells. */
  lemma StatisticalThreshold(cells: seq<Float>, thresholdFactor: real, sqrt: SquareRoot)
    requires |cells| > 0 && Numeric(cells)
    ensures Threshold(cells, thresholdFactor, None, sqrt)
         == Num(MeanOf(Values(cells)) + thresholdFactor * StdOf(sqrt, Values(cells)))
  {
  }

  /** A single NaN cell makes the statistical threshold NaN: there is no
      fallback and no NaN exclusion. */
  lemma NaNCellPoisonsThreshold(cells: seq<Float>, thresholdFactor: real, sqrt: SquareRoot)
    requires NaN in cells
    ensures Threshold(cells, thresholdFactor, None, sqrt) == NaN
  {
  }

  /** Extraction always runs, on the smoothed grid, with the very threshold
      the result reports; the peaks are exactly what it returns, even for a
      non-positive or NaN threshold. */
  lemma ExtractionAlwaysRuns(d: ScanDataset, thresholdFactor: real, minDistance: int,
                             minPeakHeight: Option<real>, lib: Library)
    requires WellFormed(d) && Size(d.counts) > 0
    ensures var r := DetectCenters(d, thresholdFactor, minDistance, minPeakHeight, lib);
      && r.Success?
      && r.value.threshold == Threshold(Flatten(d.counts), thresholdFactor, minPeakHeight, lib.sqrt)
      && r.value.processedImage == lib.smooth(d.counts)
      && r.value.coordinates == lib.findPeaks(lib.smooth(d.counts), minDistance, r.value.threshold)
  {
  }
}
