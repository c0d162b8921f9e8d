/** `np.interp(x, np.arange(n), fp)`: piecewise-linear interpolation of the
    values `fp` placed at the integer nodes `0 .. n-1`, clamped to the end
    values outside that range. The detector uses it to turn pixel indices
    into stage positions (microns). */
module Interpolation {

  /** Interpolated value at `x`. numpy refuses an empty `fp`. */
  function Interp(x: real, fp: seq<real>): real
    requires |fp| > 0
  {
    var last := |fp| - 1;
    if x <= 0.0 then fp[0]
    else if x >= last as real then fp[last]
    else
      var k := x.Floor;
      fp[k] + (x - k as real) * (fp[k + 1] - fp[k])
  }

  /** Non-decreasing values, as the X and Y steps of a raster scan are. */
  predicate Ascending(fp: seq<real>)
  {
    forall i, j :: 0 <= i <= j < |fp| ==> fp[i] <= fp[j]
  }

  /** At an integer node the interpolation is a plain lookup. */
  lemma InterpAtNode(fp: seq<real>, k: nat)
    requires k < |fp|
    ensures Interp(k as real, fp) == fp[k]
  {
    if 0 < k < |fp| - 1 {
      assert (k as real).Floor == k;
    }
  }

  /** Between two neighbouring nodes the result lies between their values. */
  lemma InterpBetweenNodes(fp: seq<real>, k: nat, x: real)
    requires k + 1 < |fp|
    requires k as real <= x <= (k + 1) as real
    ensures fp[k] <= fp[k + 1] ==> fp[k] <= Interp(x, fp) <= fp[k + 1]
    ensures fp[k + 1] <= fp[k] ==> fp[k + 1] <= Interp(x, fp) <= fp[k]
  {
    var last := |fp| - 1;
    if x == (k + 1) as real {
      InterpAtNode(fp, k + 1);
    } else if x == k as real {
      InterpAtNode(fp, k);
    } else {
      assert x.Floor == k;
      var t := x - k as real;
      var d := fp[k + 1] - fp[k];
      assert 0.0 < t < 1.0;
      assert Interp(x, fp) == fp[k] + t * d;
      if 0.0 <= d {
        assert 0.0 <= t * d <= d;
      } else {
        assert d <= t * d <= 0.0;
      }
    }
  }

  /** With uniform unit steps `fp[i] == i`, a position maps to itself once
      clamped into `[0, n-1]`: a peak at column `c` sits at X position `c`. */
  lemma InterpIdentity(fp: seq<real>, x: real)
    requires |fp| > 0
    requires forall i :: 0 <= i < |fp| ==> fp[i] == i as real
    ensures 0.0 <= x <= (|fp| - 1) as real ==> Interp(x, fp) == x
    ensures x < 0.0 ==> Interp(x, fp) == 0.0
    ensures (|fp| - 1) as real < x ==> Interp(x, fp) == (|fp| - 1) as real
  {
    var last := |fp| - 1;
    if 0.0 < x < last as real {
      var k := x.Floor;
      assert fp[k + 1] - fp[k] == 1.0;
    }
  }

  /** Interpolating ascending values is monotone in the position. */
  lemma InterpMonotone(fp: seq<real>, x: real, y: real)
    requires |fp| > 0 && Ascending(fp)
    requires x <= y
    ensures Interp(x, fp) <= Interp(y, fp)
  {
    var last := |fp| - 1;
    if x <= 0.0 {
      InterpAtLeastFirst(fp, y);
    } else if y >= last as real {
      InterpAtMostLast(fp, x);
    } else {
      // 0 < x <= y < last
      var kx, ky := x.Floor, y.Floor;
      InterpBetweenNodes(fp, kx, x);
      InterpBetweenNodes(fp, ky, y);
      if kx == ky {
        InterpMonotoneInCell(fp, kx, x, y);
      } else {
        assert kx + 1 <= ky;
        assert fp[kx + 1] <= fp[ky];
      }
    }
  }

  lemma InterpAtLeastFirst(fp: seq<real>, y: real)
    requires |fp| > 0 && Ascending(fp)
    ensures fp[0] <= Interp(y, fp)
  {
    var last := |fp| - 1;
    if 0.0 < y < last as real {
      InterpBetweenNodes(fp, y.Floor, y);
    }
  }

  lemma InterpAtMostLast(fp: seq<real>, x: real)
    requires |fp| > 0 && Ascending(fp)
    ensures Interp(x, fp) <= fp[|fp| - 1]
  {
    var last := |fp| - 1;
    if 0.0 < x < last as real {
      InterpBetweenNodes(fp, x.Floor, x);
    }
  }

  lemma InterpMonotoneInCell(fp: seq<real>, k: nat, x: real, y: real)
    requires k + 1 < |fp| && fp[k] <= fp[k + 1]
    requires k as real <= x <= y <= (k + 1) as real
    ensures Interp(x, fp) <= Interp(y, fp)
  {
    var d := fp[k + 1] - fp[k];
    var tx, ty := x - k as real, y - k as real;
    calc {
      Interp(x, fp);
    == { InterpInCell(fp, k, x); }
      fp[k] + tx * d;
    <= { ScaleMonotone(tx, ty, d); }
      fp[k] + ty * d;
    == { InterpInCell(fp, k, y); }
      Interp(y, fp);
    }
  }

  lemma ScaleMonotone(a: real, b: real, d: real)
    requires a <= b && 0.0 <= d
    ensures a * d <= b * d
  {
    assert b * d - a * d == (b - a) * d;
  }

  /** Inside the cell `[k, k+1]` the interpolation is the line through its
      two nodes. */
  lemma InterpInCell(fp: seq<real>, k: nat, x: real)
    requires k + 1 < |fp|
    requires k as real <= x <= (k + 1) as real
    ensures Interp(x, fp) == fp[k] + (x - k as real) * (fp[k + 1] - fp[k])
  {
    var d := fp[k + 1] - fp[k];
    if x == (k + 1) as real {
      InterpAtNode(fp, k + 1);
      assert (x - k as real) * d == d;
    } else if x == k as real {
      InterpAtNode(fp, k);
      assert (x - k as real) * d == 0.0;
    } else {
      assert x.Floor == k;
    }
  }
}
