/** Population statistics over the numeric samples of a grid: numpy's
    `mean`, `std` (ddof = 0) and their NaN-skipping forms `nanmean`,
    `nanstd` reduce to these once the samples to use are chosen. */
module Stats {
  import opened Floats

  type NonNegReal = x: real | 0.0 <= x

  /** The square root `np.std` takes of the variance. It is library code and
      cannot be built from Dafny's reals, so the model takes it as a
      parameter and relies only on what numpy's `sqrt` gives for the
      non-negative variances it is applied to: a non-negative result, and 0
      at 0. */
  type SquareRoot = f: real -> NonNegReal
    | f(0.0) == 0.0
    witness (x: real) => if 0.0 < x then x else 0.0

  function Sum(xs: seq<real>): real
  {
    if xs == [] then 0.0 else xs[0] + Sum(xs[1..])
  }

  /** Arithmetic mean of a non-empty sample. */
  function MeanOf(xs: seq<real>): real
    requires |xs| > 0
  {
    Sum(xs) / |xs| as real
  }

  /** Sum of squared deviations of the samples from `m`. */
  function SquaredDeviations(xs: seq<real>, m: real): real
  {
    if xs == [] then 0.0 else (xs[0] - m) * (xs[0] - m) + SquaredDeviations(xs[1..], m)
  }

  /** Population variance (numpy's default `ddof = 0`): never negative. */
  function VarianceOf(xs: seq<real>): (v: real)
    requires |xs| > 0
    ensures 0.0 <= v
  {
    SquaredDeviationsNonNegative(xs, MeanOf(xs));
    SquaredDeviations(xs, MeanOf(xs)) / |xs| as real
  }

  /** Population standard deviation: never negative. */
  function StdOf(sqrt: SquareRoot, xs: seq<real>): (s: real)
    requires |xs| > 0
    ensures 0.0 <= s
  {
    sqrt(VarianceOf(xs))
  }

  lemma {:induction false} SquaredDeviationsNonNegative(xs: seq<real>, m: real)
    ensures 0.0 <= SquaredDeviations(xs, m)
  {
    if xs != [] {
      SquaredDeviationsNonNegative(xs[1..], m);
      var d := xs[0] - m;
      if d < 0.0 {
        assert d * d == (-d) * (-d);
      }
      assert 0.0 <= d * d;
    }
  }

  /** The numbers among the cells, in order: the samples `nanmean` and
      `nanstd` use. */
  function NonNaN(cells: seq<Float>): (xs: seq<real>)
    ensures |xs| <= |cells|
  {
    if cells == [] then []
    else if cells[0].NaN? then NonNaN(cells[1..])
    else [cells[0].val] + NonNaN(cells[1..])
  }

  /** A number is kept exactly when it is a cell, and nothing is left
      exactly when every cell is NaN. */
  lemma {:induction false} NonNaNMembers(cells: seq<Float>)
    ensures forall x :: x in NonNaN(cells) <==> Num(x) in cells
    ensures |NonNaN(cells)| == 0 <==> forall c :: c in cells ==> c.NaN?
  {
    if cells != [] {
      NonNaNMembers(cells[1..]);
      assert forall c :: c in cells <==> c == cells[0] || c in cells[1..];
    }
  }

  /** A numeric cell leaves at least one sample. */
  lemma {:induction false} NonNaNNonEmpty(cells: seq<Float>, c: Float)
    requires c in cells && c.Num?
    ensures |NonNaN(cells)| > 0
  {
    if cells[0].NaN? {
      NonNaNNonEmpty(cells[1..], c);
    }
  }

  /** The samples of a NaN-free sequence of cells: what plain `mean` and
      `std` use. */
  function Values(cells: seq<Float>): (xs: seq<real>)
    requires Numeric(cells)
    ensures |xs| == |cells| && forall i :: 0 <= i < |cells| ==> cells[i] == Num(xs[i])
  {
    assert forall i :: 0 <= i < |cells| ==> cells[i] in cells;
    seq(|cells|, i requires 0 <= i < |cells| => cells[i].val)
  }

  /** On NaN-free cells, skipping NaNs changes nothing. */
  lemma {:induction false} NonNaNOfNumbers(cells: seq<Float>)
    requires Numeric(cells)
    ensures NonNaN(cells) == Values(cells)
  {
    if cells != [] {
      NonNaNOfNumbers(cells[1..]);
      assert Values(cells) == [cells[0].val] + Values(cells[1..]);
    }
  }

  /** Skipping NaNs distributes over concatenation. */
  lemma {:induction false} NonNaNAppend(a: seq<Float>, b: seq<Float>)
    ensures NonNaN(a + b) == NonNaN(a) + NonNaN(b)
  {
    if a == [] {
      assert a + b == b;
    } else {
      assert (a + b)[0] == a[0];
      assert (a + b)[1..] == a[1..] + b;
      NonNaNAppend(a[1..], b);
    }
  }

  /** A NaN cell anywhere among the cells leaves the samples unchanged: NaNs
      are skipped, not counted as zero. */
  lemma NonNaNIgnoresNaN(a: seq<Float>, b: seq<Float>)
    ensures NonNaN(a + [NaN] + b) == NonNaN(a + b)
  {
    NonNaNAppend(a + [NaN], b);
    NonNaNAppend(a, [NaN]);
    NonNaNAppend(a, b);
  }

  lemma {:induction false} SumOfConstant(xs: seq<real>, c: real)
    requires forall i :: 0 <= i < |xs| ==> xs[i] == c
    ensures Sum(xs) == |xs| as real * c
  {
    if xs != [] {
      SumOfConstant(xs[1..], c);
    }
  }

  lemma {:induction false} DeviationsFromConstant(xs: seq<real>, c: real)
    requires forall i :: 0 <= i < |xs| ==> xs[i] == c
    ensures SquaredDeviations(xs, c) == 0.0
  {
    if xs != [] {
      DeviationsFromConstant(xs[1..], c);
    }
  }

  /** A sample whose values are all `c` has mean `c` and standard deviation 0. */
  lemma ConstantSample(sqrt: SquareRoot, xs: seq<real>, c: real)
    requires |xs| > 0
    requires forall i :: 0 <= i < |xs| ==> xs[i] == c
    ensures MeanOf(xs) == c && StdOf(sqrt, xs) == 0.0
  {
    SumOfConstant(xs, c);
    var n := |xs| as real;
    assert Sum(xs) == n * c;
    DivideProduct(n, c);
    assert MeanOf(xs) == c;
    DeviationsFromConstant(xs, c);
    assert VarianceOf(xs) == 0.0 / n == 0.0;
  }

  lemma DivideProduct(n: real, c: real)
    requires n != 0.0
    ensures (n * c) / n == c
  {
  }
}
