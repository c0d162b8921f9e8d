/** Scalar values as the detector sees them: exact reals standing for
    double-precision numbers, with NaN (a missing scan point) kept as a value
    of its own, the optional argument and the result-or-exception wrapper. */
module Floats {

  /** A sample of the scan grid, a statistic or a threshold. `NaN` is numpy's
      not-a-number; every other value is an exact real (rounding and
      infinities are not modelled). */
  datatype Float = NaN | Num(val: real)

  /** numpy addition: NaN if either operand is NaN. */
  function Plus(a: Float, b: Float): Float
  {
    if a.NaN? || b.NaN? then NaN else Num(a.val + b.val)
  }

  /** A finite scalar times a numpy value: NaN stays NaN. */
  function Scale(k: real, a: Float): Float
  {
    if a.NaN? then NaN else Num(k * a.val)
  }

  /** No value is NaN: the cells plain `mean` and `std` return a number on
      (when there is at least one). */
  predicate Numeric(cells: seq<Float>)
  {
    forall c :: c in cells ==> c.Num?
  }

  /** Python's `None`-or-value, used for the optional `min_peak_height`. */
  datatype Option<T> = None | Some(value: T)

  /** Either a value or the exception the source raises. */
  datatype Result<T, E> = Success(value: T) | Failure(error: E)
}
