/** The numerical library calls the procedure makes, as given functions:
    the model tracks where their results go, not how they are computed. */
module Numerics {

  /** A row-major ny x nx grid; cell k is row k / nx, column k % nx. */
  datatype Grid = Grid(ny: nat, nx: nat)
  {
    function Cells(): nat
    {
      ny * nx
    }
  }

  datatype Library = Library(
    // scipy.ndimage.gaussian_filter(field, sigma, mode='constant', cval=0) at one cell
    gaussian: (seq<real>, Grid, real, nat) -> real,
    // Delaunay(points).find_simplex((x, y)) >= 0
    inHull: (seq<(real, real)>, real, real) -> bool,
    // RegularGridInterpolator((time, y, x), values)((t, y, x)), values row-major per time step
    gridInterp: (seq<real>, seq<real>, seq<real>, seq<seq<real>>, real, real, real) -> real,
    // RectBivariateSpline(x, y, slice.T, kx=1, ky=1).ev(x, y)
    spline: (seq<real>, seq<real>, seq<real>, real, real) -> real,
    // regress_model(time, series, t, ORDER=2, CYCLES=[...], RELATIVE=r)
    regress: (seq<real>, seq<real>, real, real) -> real,
    // convert_calendar_decimal(*convert_julian(jd)): Julian day to decimal year
    toDecimal: real -> real)

  /** gaussian_filter over the whole field. */
  function Blur(lib: Library, grid: Grid, sigma: real, field: seq<real>): (b: seq<real>)
    ensures |b| == |field|
    ensures forall k :: 0 <= k < |field| ==> b[k] == lib.gaussian(field, grid, sigma, k)
  {
    seq(|field|, k requires 0 <= k < |field| => lib.gaussian(field, grid, sigma, k))
  }

  /** A boolean array read as numbers, as the interpolators read a mask. */
  function AsReal(b: bool): real
  {
    if b then 1.0 else 0.0
  }

  /** A number stored into a boolean array: anything but zero is True. */
  function AsBool(x: real): bool
  {
    x != 0.0
  }

  /** AsBool undoes AsReal. */
  lemma AsBoolOfAsReal(b: bool)
    ensures AsBool(AsReal(b)) == b
  {
  }
}
