/** The smoothing pass over the loaded record: the static mask, its
    Gaussian-smoothed weights, each time step's field with masked cells
    filled from the smoothed neighbourhood, and the running sum through time. */
module Smoother {
  import opened Numerics

  /** np.any(mask, axis=0) at one cell, over the first rows of the mask. */
  function AnyMasked(mask: seq<seq<bool>>, k: nat): (b: bool)
    requires forall t :: 0 <= t < |mask| ==> k < |mask[t]|
    ensures b <==> exists t :: 0 <= t < |mask| && mask[t][k]
  {
    if mask == [] then false
    else
      var front := mask[..|mask| - 1];
      assert forall t :: 0 <= t < |front| ==> front[t] == mask[t];
      mask[|mask| - 1][k] || AnyMasked(front, k)
  }

  predicate WellShaped<T>(rows: seq<seq<T>>, cells: nat)
  {
    forall t :: 0 <= t < |rows| ==> |rows[t]| == cells
  }

  /** fd['mask'] = 1.0 - np.any(mask, axis=0): 1.0 exactly where no time
      step is masked, 0.0 where some is. */
  function StaticMask(mask: seq<seq<bool>>, cells: nat): (s: seq<real>)
    requires WellShaped(mask, cells)
    ensures |s| == cells
    ensures forall k :: 0 <= k < cells ==>
              (s[k] == 1.0 <==> forall t :: 0 <= t < |mask| ==> !mask[t][k])
              && (s[k] == 0.0 <==> exists t :: 0 <= t < |mask| && mask[t][k])
  {
    seq(cells, k requires 0 <= k < cells => 1.0 - AsReal(AnyMasked(mask, k)))
  }

  /** np.ceil(x), with x.Floor rounding down. */
  function Ceil(x: real): int
  {
    -((-x).Floor)
  }

  /** np.ceil(gs['mask']) == 1.0: the cell is kept as a smoothing point. */
  predicate Retained(w: real)
  {
    Ceil(w) == 1
  }

  /** Ceil(w) == 1 holds exactly for weights in (0, 1]. */
  lemma RetainedIff(w: real)
    ensures Retained(w) <==> 0.0 < w <= 1.0
  {
    var f := (-w).Floor;
    assert f as real <= -w < f as real + 1.0;
    if Retained(w) {
      assert f == -1;
    }
    if 0.0 < w <= 1.0 {
      assert -1.0 <= -w < 0.0;
      assert f <= -1 && -1 <= f;
    }
  }

  /** With weights between 0 and 1, as a normalised kernel gives for a
      0/1 field, the cells kept for smoothing are exactly the cells whose
      smoothed mask is not 0, that is the cells the record leaves unmasked. */
  lemma RetainedIffUnmasked(w: real)
    requires 0.0 <= w <= 1.0
    ensures Retained(w) <==> w != 0.0
  {
    RetainedIff(w);
  }

  /** temp1: the values of the unmasked cells, 0 elsewhere. */
  function ZeroFilled(values: seq<real>, mask: seq<bool>): (z: seq<real>)
    requires |values| == |mask|
    ensures |z| == |values|
    ensures forall k :: 0 <= k < |z| ==> z[k] == if mask[k] then 0.0 else values[k]
  {
    seq(|values|, k requires 0 <= k < |values| => if mask[k] then 0.0 else values[k])
  }

  /** Lines 159 and 161: a kept cell takes the smoothed values over the
      smoothed weights, and then every unmasked cell takes back its own
      value; other cells stay 0. */
  function SmoothedValue(values: seq<real>, mask: seq<bool>, blurred: seq<real>, weights: seq<real>, k: nat): real
    requires k < |values| == |mask| == |blurred| == |weights|
  {
    if !mask[k] then values[k]
    else if Retained(weights[k]) then blurred[k] / weights[k]
    else 0.0
  }

  /** The smoothed field of one time step. */
  function SmoothedRow(lib: Library, grid: Grid, sigma: real, values: seq<real>, mask: seq<bool>,
                       weights: seq<real>): (row: seq<real>)
    requires |values| == |mask| == |weights|
    ensures |row| == |values|
  {
    var blurred := Blur(lib, grid, sigma, ZeroFilled(values, mask));
    seq(|values|, k requires 0 <= k < |values| => SmoothedValue(values, mask, blurred, weights, k))
  }

  function SmoothedRows(lib: Library, grid: Grid, sigma: real, data: seq<seq<real>>, mask: seq<seq<bool>>,
                        weights: seq<real>): (rows: seq<seq<real>>)
    requires |data| == |mask| && WellShaped(data, |weights|) && WellShaped(mask, |weights|)
    ensures |rows| == |data| && WellShaped(rows, |weights|)
  {
    seq(|data|, t requires 0 <= t < |data| => SmoothedRow(lib, grid, sigma, data[t], mask[t], weights))
  }

  /** Sum of cell k over the rows, first to last. */
  function ColumnSum(rows: seq<seq<real>>, k: nat): real
    requires forall t :: 0 <= t < |rows| ==> k < |rows[t]|
  {
    if rows == [] then 0.0
    else
      var front := rows[..|rows| - 1];
      assert forall t :: 0 <= t < |front| ==> front[t] == rows[t];
      ColumnSum(front, k) + rows[|rows| - 1][k]
  }

  /** Summing two runs of rows adds their sums. */
  lemma {:induction false} ColumnSumAppend(a: seq<seq<real>>, b: seq<seq<real>>, k: nat)
    requires forall t :: 0 <= t < |a| ==> k < |a[t]|
    requires forall t :: 0 <= t < |b| ==> k < |b[t]|
    ensures forall t :: 0 <= t < |a + b| ==> k < |(a + b)[t]|
    ensures ColumnSum(a + b, k) == ColumnSum(a, k) + ColumnSum(b, k)
    decreases |b|
  {
    assert forall t :: 0 <= t < |a + b| ==> (a + b)[t] == if t < |a| then a[t] else b[t - |a|];
    if b == [] {
      assert a + b == a;
    } else {
      var bf := b[..|b| - 1];
      assert (a + b)[..|a + b| - 1] == a + bf;
      assert forall t :: 0 <= t < |bf| ==> bf[t] == b[t];
      ColumnSumAppend(a, bf, k);
    }
  }

  /** Consecutive running sums differ by the row added: differencing the
      cumulative field gives back the smoothed field. */
  lemma CumulativeDifference(rows: seq<seq<real>>, t: nat, k: nat)
    requires t < |rows| && forall s :: 0 <= s < |rows| ==> k < |rows[s]|
    ensures ColumnSum(rows[..t + 1], k) - ColumnSum(rows[..t], k) == rows[t][k]
  {
    assert rows[..t + 1][..t] == rows[..t];
  }

  /** Lines 134-167.  The static mask and its smoothed weights, then for
      each time step: the zero-filled field smoothed, the kept cells
      rescaled, the unmasked cells restored, the mask of the step set to
      "weight == 0", the step added to the running sum, and the sum and the
      mask copied into the cumulative buffers. */
  method Smooth(lib: Library, grid: Grid, sigma: real, data: seq<seq<real>>, mask: seq<seq<bool>>)
    returns (weights: seq<real>, gs: array2<real>, gsMask: array2<bool>,
             cumulative: array2<real>, cumMask: array2<bool>)
    requires |data| == |mask| && WellShaped(data, grid.Cells()) && WellShaped(mask, grid.Cells())
    ensures fresh(gs) && fresh(gsMask) && fresh(cumulative) && fresh(cumMask)
    ensures weights == Blur(lib, grid, sigma, StaticMask(mask, grid.Cells()))
    ensures gs.Length0 == gsMask.Length0 == cumulative.Length0 == cumMask.Length0 == |data|
    ensures gs.Length1 == gsMask.Length1 == cumulative.Length1 == cumMask.Length1 == grid.Cells()
    ensures forall t, k :: 0 <= t < |data| && 0 <= k < grid.Cells() ==>
              gs[t, k] == SmoothedRows(lib, grid, sigma, data, mask, weights)[t][k]
    ensures forall t, k :: 0 <= t < |data| && 0 <= k < grid.Cells() ==>
              cumulative[t, k] == ColumnSum(SmoothedRows(lib, grid, sigma, data, mask, weights)[..t + 1], k)
    ensures forall t, k :: 0 <= t < |data| && 0 <= k < grid.Cells() ==>
              gsMask[t, k] == (weights[k] == 0.0) && cumMask[t, k] == (weights[k] == 0.0)
  {
    var cells := grid.Cells();
    var nt := |data|;
    var staticMask := StaticMask(mask, cells);
    weights := Blur(lib, grid, sigma, staticMask);
    ghost var rows := SmoothedRows(lib, grid, sigma, data, mask, weights);
    gs := new real[nt, cells]((t, k) => 0.0);
    gsMask := new bool[nt, cells]((t, k) => false);
    cumulative := new real[nt, cells]((t, k) => 0.0);
    cumMask := new bool[nt, cells]((t, k) => false);
    var temp := seq(cells, k => 0.0);
    var t := 0;
    while t < nt
      invariant 0 <= t <= nt
      invariant |temp| == cells
      invariant forall k :: 0 <= k < cells ==> temp[k] == ColumnSum(rows[..t], k)
      invariant StepsDone(rows, weights, t, gs, gsMask, cumulative, cumMask)
      invariant forall s, k :: t <= s < nt && 0 <= k < cells ==> gs[s, k] == 0.0
    {
      temp := Advance(lib, grid, sigma, data, mask, weights, rows, t, temp, gs, gsMask, cumulative, cumMask);
      t := t + 1;
    }
  }

  /** One pass of the time loop, keeping rows 0..t final and the running
      sum in step. */
  method Advance(lib: Library, grid: Grid, sigma: real, data: seq<seq<real>>, mask: seq<seq<bool>>,
                 weights: seq<real>, ghost rows: seq<seq<real>>, t: nat, temp: seq<real>,
                 gs: array2<real>, gsMask: array2<bool>, cumulative: array2<real>, cumMask: array2<bool>)
    returns (next: seq<real>)
    requires |data| == |mask| && WellShaped(data, |weights|) && WellShaped(mask, |weights|)
    requires rows == SmoothedRows(lib, grid, sigma, data, mask, weights) && t < |data|
    requires |temp| == |weights| && forall k :: 0 <= k < |weights| ==> temp[k] == ColumnSum(rows[..t], k)
    requires StepsDone(rows, weights, t, gs, gsMask, cumulative, cumMask)
    requires gs != cumulative && gsMask != cumMask
    requires forall s, k :: t <= s < |data| && 0 <= k < |weights| ==> gs[s, k] == 0.0
    modifies gs, gsMask, cumulative, cumMask
    ensures |next| == |weights| && forall k :: 0 <= k < |weights| ==> next[k] == ColumnSum(rows[..t + 1], k)
    ensures StepsDone(rows, weights, t + 1, gs, gsMask, cumulative, cumMask)
    ensures forall s, k :: t + 1 <= s < |data| && 0 <= k < |weights| ==> gs[s, k] == 0.0
  {
    next := SmoothStep(lib, grid, sigma, data[t], mask[t], weights, t, temp, gs, gsMask, cumulative, cumMask);
    assert rows[t] == SmoothedRow(lib, grid, sigma, data[t], mask[t], weights);
    forall k | 0 <= k < |weights|
      ensures next[k] == ColumnSum(rows[..t + 1], k)
    {
      assert rows[..t + 1][..t] == rows[..t];
    }
  }

  /** Rows 0..t-1 of the four buffers are final. */
  ghost predicate StepsDone(rows: seq<seq<real>>, weights: seq<real>, t: nat,
                            gs: array2<real>, gsMask: array2<bool>, cumulative: array2<real>, cumMask: array2<bool>)
    reads gs, gsMask, cumulative, cumMask
  {
    && t <= |rows| && WellShaped(rows, |weights|)
    && gs.Length0 == gsMask.Length0 == cumulative.Length0 == cumMask.Length0 == |rows|
    && gs.Length1 == gsMask.Length1 == cumulative.Length1 == cumMask.Length1 == |weights|
    && forall s, k :: 0 <= s < t && 0 <= k < |weights| ==>
         gs[s, k] == rows[s][k]
         && cumulative[s, k] == ColumnSum(rows[..s + 1], k)
         && gsMask[s, k] == (weights[k] == 0.0) && cumMask[s, k] == (weights[k] == 0.0)
  }

  /** One pass of the time loop of lines 150-167. */
  method SmoothStep(lib: Library, grid: Grid, sigma: real, values: seq<real>, mask: seq<bool>,
                    weights: seq<real>, t: nat, temp: seq<real>,
                    gs: array2<real>, gsMask: array2<bool>, cumulative: array2<real>, cumMask: array2<bool>)
    returns (next: seq<real>)
    requires |values| == |mask| == |weights| == |temp|
    requires t < gs.Length0 == gsMask.Length0 == cumulative.Length0 == cumMask.Length0
    requires gs.Length1 == gsMask.Length1 == cumulative.Length1 == cumMask.Length1 == |weights|
    requires gs != cumulative && gsMask != cumMask
    requires forall k :: 0 <= k < |weights| ==> gs[t, k] == 0.0
    modifies gs, gsMask, cumulative, cumMask
    ensures |next| == |temp|
    ensures forall k :: 0 <= k < |temp| ==>
              next[k] == temp[k] + SmoothedRow(lib, grid, sigma, values, mask, weights)[k]
    ensures forall s, k :: 0 <= s < gs.Length0 && 0 <= k < |weights| ==>
              gs[s, k] == (if s == t then SmoothedRow(lib, grid, sigma, values, mask, weights)[k] else old(gs[s, k]))
    ensures forall s, k :: 0 <= s < gs.Length0 && 0 <= k < |weights| ==>
              cumulative[s, k] == (if s == t then next[k] else old(cumulative[s, k]))
    ensures forall s, k :: 0 <= s < gs.Length0 && 0 <= k < |weights| ==>
              gsMask[s, k] == (if s == t then weights[k] == 0.0 else old(gsMask[s, k]))
    ensures forall s, k :: 0 <= s < gs.Length0 && 0 <= k < |weights| ==>
              cumMask[s, k] == (if s == t then weights[k] == 0.0 else old(cumMask[s, k]))
  {
    var cells := |weights|;
    var row := WriteSmoothedRow(lib, grid, sigma, values, mask, weights, t, gs);
    next := seq(cells, k requires 0 <= k < cells => temp[k] + row[k]);
    WriteRow(cumulative, t, next);
    var flags := seq(cells, k requires 0 <= k < cells => weights[k] == 0.0);
    WriteRow(gsMask, t, flags);
    WriteRow(cumMask, t, flags);
  }

  /** Lines 152-161: the smoothed field of one step written into row t
      of gs, whose cells start at 0. */
  method WriteSmoothedRow(lib: Library, grid: Grid, sigma: real, values: seq<real>, mask: seq<bool>,
                          weights: seq<real>, t: nat, gs: array2<real>)
    returns (row: seq<real>)
    requires |values| == |mask| == |weights|
    requires t < gs.Length0 && gs.Length1 == |weights|
    requires forall k :: 0 <= k < |weights| ==> gs[t, k] == 0.0
    modifies gs
    ensures row == SmoothedRow(lib, grid, sigma, values, mask, weights)
    ensures forall s, k :: 0 <= s < gs.Length0 && 0 <= k < |weights| ==>
              gs[s, k] == (if s == t then row[k] else old(gs[s, k]))
  {
    var cells := |weights|;
    var temp1 := ZeroFilled(values, mask);
    var temp2 := Blur(lib, grid, sigma, temp1);
    forall k | 0 <= k < cells && Retained(weights[k]) {
      gs[t, k] := temp2[k] / weights[k];
    }
    forall k | 0 <= k < cells && !mask[k] {
      gs[t, k] := temp1[k];
    }
    row := SmoothedRow(lib, grid, sigma, values, mask, weights);
    forall k | 0 <= k < cells
      ensures gs[t, k] == row[k]
    {
      assert row[k] == SmoothedValue(values, mask, temp2, weights, k);
    }
  }

  /** Row t of a buffer set to the given values, the other rows kept. */
  method WriteRow<T>(buffer: array2<T>, t: nat, values: seq<T>)
    requires t < buffer.Length0 && buffer.Length1 == |values|
    modifies buffer
    ensures forall s, k :: 0 <= s < buffer.Length0 && 0 <= k < |values| ==>
              buffer[s, k] == (if s == t then values[k] else old(buffer[s, k]))
  {
    forall k | 0 <= k < |values| {
      buffer[t, k] := values[k];
    }
  }
}
