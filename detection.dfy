/** What both copies of `detect_nv_centers` share: the library calls they
    make, the result they return, and the way they assemble it from the
    peaks the library finds. */
module Detection {
  import opened Floats
  import opened Scan
  import opened Stats
  import opened Interpolation

  /** `ndimage.gaussian_filter(counts, sigma=1)`. Its kernel, boundary mode
      and NaN handling are library code; all the model relies on is that it
      returns a grid of the same shape. */
  type Smoother = f: Grid -> Grid
    | forall g :: SameShape(f(g), g)
    witness (g: Grid) => g

  /** `peak_local_max(image, min_distance=..., threshold_abs=...)`. Which
      local maxima it keeps, in what order, and whether the threshold is
      strict are library code; all the model relies on is that every pixel
      it reports lies inside the image. */
  type PeakFinder = f: (Grid, int, Float) -> seq<Pixel>
    | forall g, minDistance, threshold :: AllWithin(f(g, minDistance, threshold), g)
    witness (g: Grid, minDistance: int, threshold: Float) => []

  /** The numpy, scipy and scikit-image routines the detector calls. */
  datatype Library = Library(sqrt: SquareRoot, smooth: Smoother, findPeaks: PeakFinder)

  /** The dictionary `detect_nv_centers` returns. `coordinates[i]` is
      `[row, col]`; the three sequences after it run parallel to it. */
  datatype DetectionResult = DetectionResult(
    coordinates: seq<Pixel>,
    xPositions: seq<real>,
    yPositions: seq<real>,
    intensities: seq<Float>,
    processedImage: Grid,
    threshold: Float)

  /** The four per-peak sequences have one entry per peak. */
  predicate Parallel(r: DetectionResult)
  {
    && |r.xPositions| == |r.coordinates|
    && |r.yPositions| == |r.coordinates|
    && |r.intensities| == |r.coordinates|
  }

  /** Every reported peak is a pixel of the raw grid; its intensity is the raw
      (unsmoothed) count there, and its positions are the X step of its
      column and the Y step of its row. */
  predicate ReadsRawGrid(r: DetectionResult, d: ScanDataset)
    requires Parallel(r)
  {
    forall i :: 0 <= i < |r.coordinates| ==>
      var p := r.coordinates[i];
      && Within(p, d.counts)
      && p.col < |d.xSteps| && p.row < |d.ySteps|
      && r.intensities[i] == d.counts[p.row][p.col]
      && r.xPositions[i] == d.xSteps[p.col]
      && r.yPositions[i] == d.ySteps[p.row]
  }

  /** The result with no peaks. */
  function NoPeaks(processed: Grid, threshold: Float): (r: DetectionResult)
    ensures Parallel(r) && r.coordinates == []
  {
    DetectionResult([], [], [], [], processed, threshold)
  }

  /** Result assembly from the peaks found (the two copies share these lines
      verbatim): rows map through `ySteps`, columns through `xSteps`, and the
      intensities are read from the raw grid. `np.interp` refuses empty step
      arrays, hence the last precondition. */
  function Assemble(d: ScanDataset, coordinates: seq<Pixel>, processed: Grid, threshold: Float): (r: DetectionResult)
    requires WellFormed(d) && AllWithin(coordinates, d.counts)
    requires |d.xSteps| > 0 && |d.ySteps| > 0
    ensures Parallel(r) && ReadsRawGrid(r, d)
    ensures r.coordinates == coordinates && r.processedImage == processed && r.threshold == threshold
  {
    var n := |coordinates|;
    var xPositions := seq(n, i requires 0 <= i < n => Interp(coordinates[i].col as real, d.xSteps));
    var yPositions := seq(n, i requires 0 <= i < n => Interp(coordinates[i].row as real, d.ySteps));
    var intensities := seq(n, i requires 0 <= i < n && Within(coordinates[i], d.counts) =>
      d.counts[coordinates[i].row][coordinates[i].col]);
    var r := DetectionResult(coordinates, xPositions, yPositions, intensities, processed, threshold);
    AssembledReadsRawGrid(d, r);
    r
  }

  lemma AssembledReadsRawGrid(d: ScanDataset, r: DetectionResult)
    requires WellFormed(d) && AllWithin(r.coordinates, d.counts) && Parallel(r)
    requires |d.xSteps| > 0 && |d.ySteps| > 0
    requires forall i :: 0 <= i < |r.coordinates| ==>
      && r.xPositions[i] == Interp(r.coordinates[i].col as real, d.xSteps)
      && r.yPositions[i] == Interp(r.coordinates[i].row as real, d.ySteps)
      && r.intensities[i] == d.counts[r.coordinates[i].row][r.coordinates[i].col]
    ensures ReadsRawGrid(r, d)
  {
    forall i | 0 <= i < |r.coordinates|
      ensures r.xPositions[i] == d.xSteps[r.coordinates[i].col]
      ensures r.yPositions[i] == d.ySteps[r.coordinates[i].row]
    {
      var p := r.coordinates[i];
      assert Within(p, d.counts);
      InterpAtNode(d.xSteps, p.col);
      InterpAtNode(d.ySteps, p.row);
    }
  }

  /** With no peaks, assembly yields the empty result. */
  lemma AssembleNothing(d: ScanDataset, processed: Grid, threshold: Float)
    requires WellFormed(d) && |d.xSteps| > 0 && |d.ySteps| > 0
    ensures Assemble(d, [], processed, threshold) == NoPeaks(processed, threshold)
  {
    var r := Assemble(d, [], processed, threshold);
    assert r.xPositions == [] && r.yPositions == [] && r.intensities == [];
  }
}
