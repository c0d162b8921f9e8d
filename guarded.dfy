/** `detect_nv_centers` as src/gui.py writes it: a guard against empty and
    all-NaN grids, NaN-skipping statistics with a fallback, and a check that
    skips peak extraction when no peak can clear the threshold. */
module Guarded {
  import opened Floats
  import opened Scan
  import opened Stats
  import opened Detection

  /** `np.nanmean`: the mean of the numeric cells, NaN when there are none. */
  function NanMean(cells: seq<Float>): (m: Float)
    ensures m.NaN? <==> forall c :: c in cells ==> c.NaN?
  {
    NonNaNMembers(cells);
    var xs := NonNaN(cells);
    if |xs| == 0 then NaN else Num(MeanOf(xs))
  }

  /** `np.nanstd`: the population standard deviation of the numeric cells,
      NaN when there are none. */
  function NanStd(sqrt: SquareRoot, cells: seq<Float>): (s: Float)
    ensures s.NaN? <==> forall c :: c in cells ==> c.NaN?
    ensures s.Num? ==> 0.0 <= s.val
  {
    NonNaNMembers(cells);
    var xs := NonNaN(cells);
    if |xs| == 0 then NaN else Num(StdOf(sqrt, xs))
  }

  /** The two statistics the threshold is built from. */
  datatype Moments = Moments(mean: real, std: real)

  /** Mean and standard deviation after the fallback: both become 0 if
      either statistic is NaN. */
  function Statistics(sqrt: SquareRoot, cells: seq<Float>): (r: Moments)
    ensures 0.0 <= r.std
    ensures (forall c :: c in cells ==> c.NaN?) ==> r == Moments(0.0, 0.0)
  {
    var mean := NanMean(cells);
    var std := NanStd(sqrt, cells);
    if mean.NaN? || std.NaN? then Moments(0.0, 0.0) else Moments(mean.val, std.val)
  }

  /** The threshold: `min_peak_height` when given, else mean + factor * std. */
  function Threshold(cells: seq<Float>, thresholdFactor: real, minPeakHeight: Option<real>, sqrt: SquareRoot): (t: real)
    ensures minPeakHeight.Some? ==> t == minPeakHeight.value
    ensures minPeakHeight.None? && 0.0 <= thresholdFactor ==> Statistics(sqrt, cells).mean <= t
  {
    var stats := Statistics(sqrt, cells);
    if minPeakHeight.None? then stats.mean + thresholdFactor * stats.std else minPeakHeight.value
  }

  /** Inputs the guard turns away: no cells, or only NaN cells. */
  predicate Degenerate(g: Grid)
  {
    Size(g) == 0 || AllNaN(g)
  }

  /** The guarded detector. Whatever path it takes, the per-peak sequences
      run parallel, every peak reads the raw grid and the steps, and the
      threshold it reports is a number. */
  function DetectCenters(d: ScanDataset, thresholdFactor: real, minDistance: int,
                         minPeakHeight: Option<real>, lib: Library): (r: DetectionResult)
    requires Size(d.counts) > 0 ==> WellFormed(d)
    ensures Parallel(r) && ReadsRawGrid(r, d)
    ensures r.threshold.Num?
  {
    if Size(d.counts) == 0 || AllNaN(d.counts) then
      NoPeaks(d.counts, Num(0.0))
    else
      var threshold := Threshold(Flatten(d.counts), thresholdFactor, minPeakHeight, lib.sqrt);
      var smoothed := lib.smooth(d.counts);
      var coordinates :=
        if threshold <= 0.0 || !AnyAbove(smoothed, threshold) then []
        else lib.findPeaks(smoothed, minDistance, Num(threshold));
      if |coordinates| == 0 then
        NoPeaks(smoothed, Num(threshold))
      else
        PeaksNeedSteps(d, coordinates[0], smoothed, lib.smooth);
        Assemble(d, coordinates, smoothed, Num(threshold))
  }

  /** A pixel of the smoothed grid is a pixel of the raw grid, so a grid with
      a peak has non-empty step arrays. */
  lemma PeaksNeedSteps(d: ScanDataset, p: Pixel, smoothed: Grid, smooth: Smoother)
    requires WellFormed(d) && smoothed == smooth(d.counts) && Within(p, smoothed)
    ensures Within(p, d.counts) && |d.xSteps| > 0 && |d.ySteps| > 0
  {
    assert SameShape(smoothed, d.counts);
  }

  /** An empty or all-NaN grid yields no peaks, threshold 0 and the raw grid
      as the processed image, whatever `min_peak_height` says. */
  lemma DegenerateGridHasNoPeaks(d: ScanDataset, thresholdFactor: real, minDistance: int,
                                 minPeakHeight: Option<real>, lib: Library)
    requires Size(d.counts) > 0 ==> WellFormed(d)
    requires Degenerate(d.counts)
    ensures DetectCenters(d, thresholdFactor, minDistance, minPeakHeight, lib) == NoPeaks(d.counts, Num(0.0))
  {
  }

  /** Past the guard some cell is a number, so both statistics are numbers
      and the NaN fallback never fires inside `DetectCenters`. This holds for
      finite cells: the model has no infinities, and an infinite cell would
      make `nanstd` NaN. */
  lemma FallbackUnreachable(sqrt: SquareRoot, g: Grid)
    requires !Degenerate(g)
    ensures NanMean(Flatten(g)).Num? && NanStd(sqrt, Flatten(g)).Num?
    ensures Statistics(sqrt, Flatten(g)) == Moments(NanMean(Flatten(g)).val, NanStd(sqrt, Flatten(g)).val)
  {
  }

  /** When the fallback does fire (only on all-NaN cells) and there is no
      override, the threshold is 0. */
  lemma FallbackThresholdIsZero(cells: seq<Float>, thresholdFactor: real, sqrt: SquareRoot)
    requires NanMean(cells).NaN? || NanStd(sqrt, cells).NaN?
    ensures Threshold(cells, thresholdFactor, None, sqrt) == 0.0
  {
  }

  /** An explicit `min_peak_height` is the threshold, exactly. */
  lemma OverrideIsThreshold(d: ScanDataset, thresholdFactor: real, minDistance: int,
                            height: real, lib: Library)
    requires WellFormed(d) && !Degenerate(d.counts)
    ensures DetectCenters(d, thresholdFactor, minDistance, Some(height), lib).threshold == Num(height)
  {
  }

  /** Past the guard, the reported threshold is the computed one. */
  lemma ReportedThreshold(d: ScanDataset, thresholdFactor: real, minDistance: int,
                          minPeakHeight: Option<real>, lib: Library)
    requires WellFormed(d) && !Degenerate(d.counts)
    ensures DetectCenters(d, thresholdFactor, minDistance, minPeakHeight, lib).threshold
         == Num(Threshold(Flatten(d.counts), thresholdFactor, minPeakHeight, lib.sqrt))
  {
  }

  /** Without an override the threshold is mean + factor * std over the
      numeric cells only. */
  lemma StatisticalThreshold(cells: seq<Float>, thresholdFactor: real, sqrt: SquareRoot)
    requires exists c :: c in cells && c.Num?
    ensures |NonNaN(cells)| > 0
    ensures Threshold(cells, thresholdFactor, None, sqrt)
         == MeanOf(NonNaN(cells)) + thresholdFactor * StdOf(sqrt, NonNaN(cells))
  {
    SomeSample(cells);
    NumericStatistics(cells, sqrt);
  }

  lemma SomeSample(cells: seq<Float>)
    requires exists c :: c in cells && c.Num?
    ensures |NonNaN(cells)| > 0
  {
    var c :| c in cells && c.Num?;
    NonNaNNonEmpty(cells, c);
  }

  /** With a numeric cell present the fallback does not fire. */
  lemma NumericStatistics(cells: seq<Float>, sqrt: SquareRoot)
    requires |NonNaN(cells)| > 0
    ensures Statistics(sqrt, cells) == Moments(MeanOf(NonNaN(cells)), StdOf(sqrt, NonNaN(cells)))
  {
  }

  /** With a non-negative factor the statistical threshold is at least the
      mean of the numeric cells. */
  lemma ThresholdAtLeastMean(cells: seq<Float>, thresholdFactor: real, sqrt: SquareRoot)
    requires exists c :: c in cells && c.Num?
    requires 0.0 <= thresholdFactor
    ensures |NonNaN(cells)| > 0
    ensures MeanOf(NonNaN(cells)) <= Threshold(cells, thresholdFactor, None, sqrt)
  {
    StatisticalThreshold(cells, thresholdFactor, sqrt);
    var s := StdOf(sqrt, NonNaN(cells));
    assert 0.0 <= thresholdFactor * s;
  }

  /** A NaN cell changes nothing in the threshold: NaNs are left out of the
      statistics, not counted as zero. */
  lemma ThresholdIgnoresNaN(a: seq<Float>, b: seq<Float>, thresholdFactor: real,
                            minPeakHeight: Option<real>, sqrt: SquareRoot)
    ensures Threshold(a + [NaN] + b, thresholdFactor, minPeakHeight, sqrt)
         == Threshold(a + b, thresholdFactor, minPeakHeight, sqrt)
  {
    NonNaNIgnoresNaN(a, b);
    var withNaN, without := a + [NaN] + b, a + b;
    assert NanMean(withNaN) == NanMean(without);
    assert NanStd(sqrt, withNaN) == NanStd(sqrt, without);
    assert Statistics(sqrt, withNaN) == Statistics(sqrt, without);
  }

  /** A grid whose numeric cells all hold `c` has standard deviation 0, so
      without an override its threshold is `c` itself. */
  lemma UniformGridThreshold(d: ScanDataset, thresholdFactor: real, minDistance: int, lib: Library, c: real)
    requires WellFormed(d) && !Degenerate(d.counts)
    requires forall x :: Num(x) in Flatten(d.counts) ==> x == c
    ensures DetectCenters(d, thresholdFactor, minDistance, None, lib).threshold == Num(c)
  {
    var xs := NonNaN(Flatten(d.counts));
    NonNaNMembers(Flatten(d.counts));
    assert forall i :: 0 <= i < |xs| ==> xs[i] in xs;
    ConstantSample(lib.sqrt, xs, c);
    StatisticalThreshold(Flatten(d.counts), thresholdFactor, lib.sqrt);
    ReportedThreshold(d, thresholdFactor, minDistance, None, lib);
  }

  /** A non-positive threshold, or a smoothed grid with no cell above it,
      skips extraction: no peaks, the smoothed grid as processed image and
      the computed threshold (not 0). */
  lemma NoCandidateSkipsExtraction(d: ScanDataset, thresholdFactor: real, minDistance: int,
                                   minPeakHeight: Option<real>, lib: Library)
    requires WellFormed(d) && !Degenerate(d.counts)
    requires var t := Threshold(Flatten(d.counts), thresholdFactor, minPeakHeight, lib.sqrt);
      t <= 0.0 || !AnyAbove(lib.smooth(d.counts), t)
    ensures DetectCenters(d, thresholdFactor, minDistance, minPeakHeight, lib)
         == NoPeaks(lib.smooth(d.counts), Num(Threshold(Flatten(d.counts), thresholdFactor, minPeakHeight, lib.sqrt)))
  {
  }

  /** Otherwise the peaks are exactly what extraction returns on the
      smoothed grid with the computed threshold. */
  lemma CandidateRunsExtraction(d: ScanDataset, thresholdFactor: real, minDistance: int,
                                minPeakHeight: Option<real>, lib: Library)
    requires WellFormed(d) && !Degenerate(d.counts)
    requires var t := Threshold(Flatten(d.counts), thresholdFactor, minPeakHeight, lib.sqrt);
      0.0 < t && AnyAbove(lib.smooth(d.counts), t)
    ensures var t := Threshold(Flatten(d.counts), thresholdFactor, minPeakHeight, lib.sqrt);
      var r := DetectCenters(d, thresholdFactor, minDistance, minPeakHeight, lib);
      && r.coordinates == lib.findPeaks(lib.smooth(d.counts), minDistance, Num(t))
      && r.processedImage == lib.smooth(d.counts)
      && r.threshold == Num(t)
  {
  }

  /** A grid of zeros (NaN cells aside) yields no peaks without an override. */
  lemma ZeroGridHasNoPeaks(d: ScanDataset, thresholdFactor: real, minDistance: int, lib: Library)
    requires Size(d.counts) > 0 ==> WellFormed(d)
    requires forall x :: Num(x) in Flatten(d.counts) ==> x == 0.0
    ensures DetectCenters(d, thresholdFactor, minDistance, None, lib).coordinates == []
  {
    if !Degenerate(d.counts) {
      UniformGridThreshold(d, thresholdFactor, minDistance, lib, 0.0);
      FallbackUnreachable(lib.sqrt, d.counts);
    }
  }
}
