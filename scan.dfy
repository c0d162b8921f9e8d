/** The scan dataset: a grid of count rates over a raster of X/Y positions. */
module Scan {
  import opened Floats

  /** A 2-D grid in row-major form: `g[row][col]`; row = Y, column = X. */
  type Grid = seq<seq<Float>>

  /** A pixel index as the peak finder reports it: `[row, col]`. */
  datatype Pixel = Pixel(row: nat, col: nat)

  /** `datasets.ScanCounts`, `datasets.xSteps` and `datasets.ySteps`. */
  datatype ScanDataset = ScanDataset(counts: Grid, xSteps: seq<real>, ySteps: seq<real>)

  /** The loader's shape invariant: every row has one sample per X step and
      there is one row per Y step (an empty grid leaves `xSteps` free). */
  predicate WellFormed(d: ScanDataset)
  {
    && |d.ySteps| == |d.counts|
    && forall i :: 0 <= i < |d.counts| ==> |d.counts[i]| == |d.xSteps|
  }

  /** True when `p` indexes a cell of `g`. */
  predicate Within(p: Pixel, g: Grid)
  {
    p.row < |g| && p.col < |g[p.row]|
  }

  predicate AllWithin(ps: seq<Pixel>, g: Grid)
  {
    forall k :: 0 <= k < |ps| ==> Within(ps[k], g)
  }

  /** Two grids with the same number of rows and the same row lengths. */
  predicate SameShape(a: Grid, b: Grid)
  {
    |a| == |b| && forall i :: 0 <= i < |a| ==> |a[i]| == |b[i]|
  }

  /** The cells of `g` in row-major order (numpy's flattening). */
  function Flatten(g: Grid): (cells: seq<Float>)
  {
    if g == [] then [] else g[0] + Flatten(g[1..])
  }

  /** numpy's `.size`: the number of cells. */
  function Size(g: Grid): nat
  {
    |Flatten(g)|
  }

  /** `np.all(np.isnan(g))`; true of an empty grid. */
  predicate AllNaN(g: Grid)
  {
    forall c :: c in Flatten(g) ==> c.NaN?
  }

  /** No cell is NaN. */
  predicate NaNFree(g: Grid)
  {
    Numeric(Flatten(g))
  }

  /** `np.any(g > t)`: some cell is a number strictly above `t` (NaN compares false). */
  predicate AnyAbove(g: Grid, t: real)
  {
    exists i, j :: 0 <= i < |g| && 0 <= j < |g[i]| && g[i][j].Num? && g[i][j].val > t
  }

  /** A cell of the grid appears in its flattening, and nothing else does. */
  lemma {:induction false} FlattenCells(g: Grid, c: Float)
    ensures c in Flatten(g) <==> exists i, j :: 0 <= i < |g| && 0 <= j < |g[i]| && g[i][j] == c
  {
    if g != [] {
      FlattenCells(g[1..], c);
      if c in Flatten(g[1..]) {
        var i, j :| 0 <= i < |g[1..]| && 0 <= j < |g[1..][i]| && g[1..][i][j] == c;
        assert g[i + 1][j] == c;
      }
      if exists i, j :: 0 <= i < |g| && 0 <= j < |g[i]| && g[i][j] == c {
        var i, j :| 0 <= i < |g| && 0 <= j < |g[i]| && g[i][j] == c;
        if i == 0 {
          assert g[0][j] == c;
        } else {
          assert g[1..][i - 1][j] == c;
        }
      }
    }
  }

  /** `AllNaN` read cell by cell: every `g[i][j]` is NaN. */
  lemma AllNaNCells(g: Grid)
    ensures AllNaN(g) <==> forall i, j :: 0 <= i < |g| && 0 <= j < |g[i]| ==> g[i][j].NaN?
  {
    forall c | c in Flatten(g) {
      FlattenCells(g, c);
    }
    forall i, j | 0 <= i < |g| && 0 <= j < |g[i]| {
      FlattenCells(g, g[i][j]);
    }
  }

  /** A grid has no cells exactly when every row is empty. */
  lemma {:induction false} SizeZero(g: Grid)
    ensures Size(g) == 0 <==> forall i :: 0 <= i < |g| ==> |g[i]| == 0
  {
    if g != [] {
      SizeZero(g[1..]);
      assert forall i :: 1 <= i < |g| ==> g[i] == g[1..][i - 1];
    }
  }

  /** For a well-formed dataset the grid is empty exactly when one of the
      step arrays is. */
  lemma EmptyGridHasEmptySteps(d: ScanDataset)
    requires WellFormed(d)
    ensures Size(d.counts) == 0 <==> (|d.xSteps| == 0 || |d.ySteps| == 0)
  {
    SizeZero(d.counts);
    if |d.counts| > 0 {
      assert |d.counts[0]| == |d.xSteps|;
    }
  }
}
