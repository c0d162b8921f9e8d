/** How the two copies of `detect_nv_centers` relate: where they return the
    same result, and the inputs that tell them apart. */
module Agreement {
  import opened Floats
  import opened Scan
  import opened Stats
  import opened Detection
  import Guarded
  import Unguarded

  /** On a non-empty NaN-free grid, plain `mean`/`std` and their
      NaN-skipping forms give the same numbers. */
  lemma StatisticsAgree(cells: seq<Float>, sqrt: SquareRoot)
    requires |cells| > 0 && Numeric(cells)
    ensures Unguarded.Mean(cells) == Guarded.NanMean(cells)
    ensures Unguarded.Std(sqrt, cells) == Guarded.NanStd(sqrt, cells)
  {
    assert cells[0] in cells;
    NonNaNOfNumbers(cells);
  }

  /** When a threshold is given, or no cell is NaN, both copies compute the
      same threshold (the unguarded one as a NaN-or-number value). */
  lemma ThresholdsAgree(cells: seq<Float>, thresholdFactor: real, minPeakHeight: Option<real>, sqrt: SquareRoot)
    requires minPeakHeight.Some? || (|cells| > 0 && Numeric(cells))
    ensures Unguarded.Threshold(cells, thresholdFactor, minPeakHeight, sqrt)
         == Num(Guarded.Threshold(cells, thresholdFactor, minPeakHeight, sqrt))
  {
    if minPeakHeight.None? {
      assert cells[0] in cells;
      Guarded.StatisticalThreshold(cells, thresholdFactor, sqrt);
      Unguarded.StatisticalThreshold(cells, thresholdFactor, sqrt);
      NonNaNOfNumbers(cells);
    }
  }

  /** Inputs past the guard on which both copies compute the same threshold. */
  predicate Comparable(d: ScanDataset, minPeakHeight: Option<real>)
  {
    && !Guarded.Degenerate(d.counts)
    && (minPeakHeight.Some? || NaNFree(d.counts))
  }

  lemma ComparableThresholds(d: ScanDataset, thresholdFactor: real, minPeakHeight: Option<real>, sqrt: SquareRoot)
    requires Comparable(d, minPeakHeight)
    ensures Unguarded.Threshold(Flatten(d.counts), thresholdFactor, minPeakHeight, sqrt)
         == Num(Guarded.Threshold(Flatten(d.counts), thresholdFactor, minPeakHeight, sqrt))
  {
    ThresholdsAgree(Flatten(d.counts), thresholdFactor, minPeakHeight, sqrt);
  }

  /** On such inputs the copies return the same result exactly when the
      guarded one runs extraction (a positive threshold that some smoothed
      cell exceeds) or extraction would find nothing anyway. In particular a
      non-empty, NaN-free grid whose threshold is positive and exceeded
      gets the same threshold and the same peaks from both. */
  lemma SameResultExactly(d: ScanDataset, thresholdFactor: real, minDistance: int,
                          minPeakHeight: Option<real>, lib: Library)
    requires WellFormed(d) && Comparable(d, minPeakHeight)
    ensures var t := Guarded.Threshold(Flatten(d.counts), thresholdFactor, minPeakHeight, lib.sqrt);
      var smoothed := lib.smooth(d.counts);
      (Unguarded.DetectCenters(d, thresholdFactor, minDistance, minPeakHeight, lib)
         == Success(Guarded.DetectCenters(d, thresholdFactor, minDistance, minPeakHeight, lib)))
      <==> ((0.0 < t && AnyAbove(smoothed, t)) || lib.findPeaks(smoothed, minDistance, Num(t)) == [])
  {
    var t := Guarded.Threshold(Flatten(d.counts), thresholdFactor, minPeakHeight, lib.sqrt);
    var smoothed := lib.smooth(d.counts);
    var found := lib.findPeaks(smoothed, minDistance, Num(t));
    ComparableThresholds(d, thresholdFactor, minPeakHeight, lib.sqrt);
    Unguarded.ExtractionAlwaysRuns(d, thresholdFactor, minDistance, minPeakHeight, lib);
    var u := Unguarded.DetectCenters(d, thresholdFactor, minDistance, minPeakHeight, lib).value;
    var g := Guarded.DetectCenters(d, thresholdFactor, minDistance, minPeakHeight, lib);
    assert u.coordinates == found && u.threshold == Num(t) && u.processedImage == smoothed;
    EmptyGridHasEmptySteps(d);
    if 0.0 < t && AnyAbove(smoothed, t) {
      Guarded.CandidateRunsExtraction(d, thresholdFactor, minDistance, minPeakHeight, lib);
      if found == [] {
        AssembleNothing(d, smoothed, Num(t));
      }
    } else {
      Guarded.NoCandidateSkipsExtraction(d, thresholdFactor, minDistance, minPeakHeight, lib);
      if found == [] {
        AssembleNothing(d, smoothed, Num(t));
      }
    }
  }

  /** On an empty grid the unguarded copy raises while the guarded one
      returns no peaks with threshold 0. */
  lemma EmptyGridSeparates(d: ScanDataset, thresholdFactor: real, minDistance: int,
                           minPeakHeight: Option<real>, lib: Library)
    requires WellFormed(d) && Size(d.counts) == 0
    ensures Unguarded.DetectCenters(d, thresholdFactor, minDistance, minPeakHeight, lib).Failure?
    ensures Guarded.DetectCenters(d, thresholdFactor, minDistance, minPeakHeight, lib) == NoPeaks(d.counts, Num(0.0))
  {
  }

  /** A grid with both NaN and numeric cells and no override: the unguarded
      threshold is NaN, the guarded one a number. */
  lemma MissingCellsSeparate(d: ScanDataset, thresholdFactor: real, minDistance: int, lib: Library)
    requires WellFormed(d) && NaN in Flatten(d.counts) && !AllNaN(d.counts)
    ensures Unguarded.DetectCenters(d, thresholdFactor, minDistance, None, lib).Success?
    ensures Unguarded.DetectCenters(d, thresholdFactor, minDistance, None, lib).value.threshold == NaN
    ensures Guarded.DetectCenters(d, thresholdFactor, minDistance, None, lib).threshold.Num?
  {
    Unguarded.ExtractionAlwaysRuns(d, thresholdFactor, minDistance, None, lib);
    Unguarded.NaNCellPoisonsThreshold(Flatten(d.counts), thresholdFactor, lib.sqrt);
  }

  /** A non-positive threshold: the guarded copy reports no peaks, the
      unguarded one whatever extraction returns for that threshold. */
  lemma NonPositiveThresholdSeparates(d: ScanDataset, thresholdFactor: real, minDistance: int,
                                      minPeakHeight: Option<real>, lib: Library)
    requires WellFormed(d) && Comparable(d, minPeakHeight)
    requires Guarded.Threshold(Flatten(d.counts), thresholdFactor, minPeakHeight, lib.sqrt) <= 0.0
    ensures var t := Guarded.Threshold(Flatten(d.counts), thresholdFactor, minPeakHeight, lib.sqrt);
      && Guarded.DetectCenters(d, thresholdFactor, minDistance, minPeakHeight, lib).coordinates == []
      && Unguarded.DetectCenters(d, thresholdFactor, minDistance, minPeakHeight, lib).Success?
      && Unguarded.DetectCenters(d, thresholdFactor, minDistance, minPeakHeight, lib).value.coordinates
         == lib.findPeaks(lib.smooth(d.counts), minDistance, Num(t))
  {
    ComparableThresholds(d, thresholdFactor, minPeakHeight, lib.sqrt);
    Unguarded.ExtractionAlwaysRuns(d, thresholdFactor, minDistance, minPeakHeight, lib);
    Guarded.NoCandidateSkipsExtraction(d, thresholdFactor, minDistance, minPeakHeight, lib);
  }
}
