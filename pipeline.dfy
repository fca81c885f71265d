/** interpolate_racmo_daily as a whole: the files chosen for the query
    times, the record they load into, the smoothing pass, the hull of the
    kept cells, and the answers -- or the first failure on the way. */
module Pipeline {
  import opened Failures
  import opened Numerics
  import opened FileSelection
  import opened Loader
  import opened Smoother
  import opened Resolver

  /** Lines 66-78 and the sorted() of line 105: the directory entries
      matched by the pattern of the query's years, in name order. */
  function SelectedFiles(listing: seq<RacmoFile>, variable: string, tdec: seq<real>): (files: seq<RacmoFile>)
    requires |tdec| > 0
    ensures multiset(files) == multiset(SelectFiles(FilePattern(variable, JoinYears(Years(MinFloor(tdec), MaxFloor(tdec)))), listing))
    ensures SortedByName(files)
  {
    var years := YearRange(tdec).value;
    SortByName(SelectFiles(FilePattern(variable, JoinYears(Years(years.0, years.1))), listing))
  }

  /** The grid of the last file read: its rlat by its rlon. */
  function GridOf(files: seq<RacmoFile>): Grid
    requires files != []
  {
    Grid(|files[|files| - 1].y|, |files[|files| - 1].x|)
  }

  /** The first failure the procedure meets, in the order it meets them:
      no query time (nanmin of nothing), a model other than FGRN055, no
      file selected, a variable without a scale factor, a file that cannot
      be read, and a record without time steps (min of nothing). */
  function FirstFailure(listing: seq<RacmoFile>, model: string, variable: string, tdec: seq<real>): Option<Failure>
  {
    if tdec == [] then Some(EmptyQuery)
    else if model != "FGRN055" then Some(UnsupportedModel)
    else LoadFailure(SelectedFiles(listing, variable, tdec), variable)
  }

  /** The failures met once the files are chosen. */
  function LoadFailure(files: seq<RacmoFile>, variable: string): Option<Failure>
  {
    if files == [] then Some(NoFiles)
    else if ScaleFactor(variable).Err? then Some(UnsupportedVariable)
    else if FirstProblem(files, GridOf(files).Cells()).Some? then FirstProblem(files, GridOf(files).Cells())
    else if TotalSteps(files) == 0 then Some(EmptyRecord)
    else None
  }

  // ---------------------------------------------------------------------
  // The record, as the buffers hold it

  /** fd[VARIABLE].data once every file is written. */
  function LoadedData(files: seq<RacmoFile>, cells: nat, scale: real): (rows: seq<seq<real>>)
    requires Shaped(files, cells)
    ensures |rows| == TotalSteps(files) && WellShaped(rows, cells)
  {
    seq(TotalSteps(files), r requires 0 <= r < TotalSteps(files) =>
      seq(cells, k requires 0 <= k < cells => LoadedValue(files, cells, scale, r, k)))
  }

  /** fd[VARIABLE].mask once every file is written. */
  function LoadedMasks(files: seq<RacmoFile>, cells: nat, fv: real): (rows: seq<seq<bool>>)
    requires Shaped(files, cells)
    ensures |rows| == TotalSteps(files) && WellShaped(rows, cells)
  {
    seq(TotalSteps(files), r requires 0 <= r < TotalSteps(files) =>
      seq(cells, k requires 0 <= k < cells => LoadedMask(files, cells, fv, r, k)))
  }

  /** fd['time'] once every file is written. */
  function LoadedTimes(files: seq<RacmoFile>, toDecimal: real -> real): (times: seq<real>)
    ensures |times| == TotalSteps(files)
  {
    seq(TotalSteps(files), r requires 0 <= r < TotalSteps(files) => LoadedTime(files, Epochs(files), toDecimal, r))
  }

  /** gs['cumulative'].data: the running sums of the smoothed rows. */
  function CumulativeRows(rows: seq<seq<real>>, cells: nat): (cum: seq<seq<real>>)
    requires WellShaped(rows, cells)
    ensures |cum| == |rows| && WellShaped(cum, cells)
  {
    seq(|rows|, t requires 0 <= t < |rows| =>
      seq(cells, k requires 0 <= k < cells => ColumnSum(rows[..t + 1], k)))
  }

  /** gs['cumulative'].mask: "weight == 0" in every step. */
  function MaskRows(weights: seq<real>, nt: nat): (rows: seq<seq<bool>>)
    ensures |rows| == nt && WellShaped(rows, |weights|)
  {
    seq(nt, t requires 0 <= t < nt => seq(|weights|, k requires 0 <= k < |weights| => weights[k] == 0.0))
  }

  /** gs['mask']: the smoothed static mask of the loaded record. */
  function WeightsOf(lib: Library, files: seq<RacmoFile>, sigma: real): (w: seq<real>)
    requires files != [] && Shaped(files, GridOf(files).Cells())
    ensures |w| == GridOf(files).Cells()
  {
    var cells := GridOf(files).Cells();
    Blur(lib, GridOf(files), sigma, StaticMask(LoadedMasks(files, cells, files[|files| - 1].fillValue), cells))
  }

  /** The record the queries are answered from. */
  function RecordOf(lib: Library, files: seq<RacmoFile>, sigma: real, scale: real): (rec: Record)
    requires files != [] && Shaped(files, GridOf(files).Cells()) && TotalSteps(files) > 0
    ensures rec.Valid()
  {
    var grid := GridOf(files);
    var last := files[|files| - 1];
    var weights := WeightsOf(lib, files, sigma);
    var smoothed := SmoothedRows(lib, grid, sigma, LoadedData(files, grid.Cells(), scale),
                                 LoadedMasks(files, grid.Cells(), last.fillValue), weights);
    Record(LoadedTimes(files, lib.toDecimal), last.x, last.y,
           CumulativeRows(smoothed, grid.Cells()), MaskRows(weights, TotalSteps(files)), last.fillValue)
  }

  // ---------------------------------------------------------------------
  // The hull of the kept cells

  /** Line 141: the cells kept for smoothing, row by row. */
  function KeptCells(weights: seq<real>): (kept: seq<nat>)
    ensures forall n :: 0 <= n < |kept| ==> kept[n] < |weights|
  {
    Where(seq(|weights|, k requires 0 <= k < |weights| => Retained(weights[k])))
  }

  /** The (x, y) of a cell of the meshgrid of the axes. */
  function CellPoint(x: seq<real>, y: seq<real>, k: nat): (real, real)
    requires k < |y| * |x|
  {
    CellInGrid(k, |y|, |x|);
    (x[k % |x|], y[k / |x|])
  }

  /** Lines 177-178: the (x, y) of every kept cell, row by row. */
  function HullPoints(x: seq<real>, y: seq<real>, weights: seq<real>): (points: seq<(real, real)>)
    requires |weights| == |y| * |x|
  {
    var kept := KeptCells(weights);
    seq(|kept|, n requires 0 <= n < |kept| => CellPoint(x, y, kept[n]))
  }

  /** A cell index of a row-major grid names a row and a column inside it. */
  lemma CellInGrid(k: nat, ny: nat, nx: nat)
    requires k < ny * nx
    ensures nx > 0 && k / nx < ny && k % nx < nx
  {
  }

  /** The hull is built from exactly the kept cells: every kept cell's
      point is among the points, and every point is some kept cell's. */
  lemma HullPointsAreKeptCells(x: seq<real>, y: seq<real>, weights: seq<real>)
    requires |weights| == |y| * |x|
    ensures forall k :: 0 <= k < |weights| && Retained(weights[k]) ==> CellPoint(x, y, k) in HullPoints(x, y, weights)
    ensures forall p :: p in HullPoints(x, y, weights) ==>
              exists k :: 0 <= k < |weights| && Retained(weights[k]) && p == CellPoint(x, y, k)
  {
    var b := seq(|weights|, k requires 0 <= k < |weights| => Retained(weights[k]));
    var kept := KeptCells(weights);
    var points := HullPoints(x, y, weights);
    forall k | 0 <= k < |weights| && Retained(weights[k])
      ensures CellPoint(x, y, k) in points
    {
      assert b[k];
      var n :| 0 <= n < |kept| && kept[n] == k;
      assert points[n] == CellPoint(x, y, k);
    }
    forall p | p in points
      ensures exists k :: 0 <= k < |weights| && Retained(weights[k]) && p == CellPoint(x, y, k)
    {
      var n :| 0 <= n < |points| && points[n] == p;
      assert b[kept[n]];
    }
  }

  /** Lines 179-181: which query points lie in the hull. */
  function QueryOf(lib: Library, files: seq<RacmoFile>, sigma: real, tdec: seq<real>, ix: seq<real>, iy: seq<real>): (q: Query)
    requires files != [] && Shaped(files, GridOf(files).Cells())
    requires |ix| == |tdec| && |iy| == |tdec|
    ensures q.Valid() && q.tdec == tdec && q.ix == ix && q.iy == iy
  {
    var last := files[|files| - 1];
    var points := HullPoints(last.x, last.y, WeightsOf(lib, files, sigma));
    Query(tdec, ix, iy, seq(|tdec|, i requires 0 <= i < |tdec| => lib.inHull(points, ix[i], iy[i])))
  }

  /** What the procedure returns: the first failure, or the answers. */
  function Expected(lib: Library, listing: seq<RacmoFile>, model: string, tdec: seq<real>, ix: seq<real>, iy: seq<real>,
                    variable: string, sigma: real, fillValue: Option<real>): Result<Output>
    requires |ix| == |tdec| && |iy| == |tdec|
  {
    match FirstFailure(listing, model, variable, tdec)
    case Some(e) => Err(e)
    case None =>
      NoFailure(listing, model, variable, tdec);
      var files := SelectedFiles(listing, variable, tdec);
      Ok(Answers(lib, RecordOf(lib, files, sigma, ScaleFactor(variable).value),
                 QueryOf(lib, files, sigma, tdec, ix, iy), fillValue))
  }

  /** When nothing fails, the query and the selection are not empty, the
      variable has a scale factor, every file fits the grid of the last one
      and the record has time steps. */
  lemma NoFailure(listing: seq<RacmoFile>, model: string, variable: string, tdec: seq<real>)
    requires FirstFailure(listing, model, variable, tdec) == None
    ensures tdec != [] && model == "FGRN055" && SelectedFiles(listing, variable, tdec) != []
    ensures var files := SelectedFiles(listing, variable, tdec);
            && ScaleFactor(variable).Ok? && FirstProblem(files, GridOf(files).Cells()) == None
            && Shaped(files, GridOf(files).Cells()) && TotalSteps(files) > 0
  {
    NoLoadFailure(SelectedFiles(listing, variable, tdec), variable);
  }

  lemma NoLoadFailure(files: seq<RacmoFile>, variable: string)
    requires LoadFailure(files, variable) == None
    ensures files != [] && ScaleFactor(variable).Ok? && FirstProblem(files, GridOf(files).Cells()) == None
            && Shaped(files, GridOf(files).Cells()) && TotalSteps(files) > 0
  {
    ReadableWhenNoProblem(files, GridOf(files).Cells());
  }

  /** Files without a problem all fit the grid. */
  lemma ReadableWhenNoProblem(files: seq<RacmoFile>, cells: nat)
    requires FirstProblem(files, cells) == None
    ensures Shaped(files, cells)
  {
    forall i | 0 <= i < |files|
      ensures ShapeFits(files[i], cells)
    {
      assert FileProblem(files[i], cells) == None;
    }
  }

  // ---------------------------------------------------------------------
  // What the procedure promises

  /** With a query and the FGRN055 model, a directory in which no name
      matches the pattern ends the procedure with no file to read. */
  lemma NothingMatches(lib: Library, listing: seq<RacmoFile>, tdec: seq<real>, ix: seq<real>, iy: seq<real>,
                       variable: string, sigma: real, fillValue: Option<real>)
    requires |ix| == |tdec| && |iy| == |tdec| && tdec != []
    requires forall f :: f in listing ==>
               !Matches(FilePattern(variable, JoinYears(Years(MinFloor(tdec), MaxFloor(tdec)))), f.name)
    ensures Expected(lib, listing, "FGRN055", tdec, ix, iy, variable, sigma, fillValue) == Err(NoFiles)
  {
    NoneSelected(listing, variable, tdec);
    assert FirstFailure(listing, "FGRN055", variable, tdec) == Some(NoFiles);
  }

  lemma NoneSelected(listing: seq<RacmoFile>, variable: string, tdec: seq<real>)
    requires tdec != []
    requires forall f :: f in listing ==>
               !Matches(FilePattern(variable, JoinYears(Years(MinFloor(tdec), MaxFloor(tdec)))), f.name)
    ensures SelectedFiles(listing, variable, tdec) == []
  {
    var files := SelectedFiles(listing, variable, tdec);
    if files != [] {
      assert false;
    }
  }

  /** The answers have one entry per query point, each of a known kind;
      with a truthy FILL_VALUE every masked point holds it, and no
      unmasked point holds the record's fill value. */
  lemma OutputShape(lib: Library, listing: seq<RacmoFile>, model: string, tdec: seq<real>, ix: seq<real>, iy: seq<real>,
                    variable: string, sigma: real, fillValue: Option<real>)
    requires |ix| == |tdec| && |iy| == |tdec|
    requires Expected(lib, listing, model, tdec, ix, iy, variable, sigma, fillValue).Ok?
    ensures var out := Expected(lib, listing, model, tdec, ix, iy, variable, sigma, fillValue).value;
            && |out.data| == |tdec| && |out.mask| == |tdec| && |out.interpolation| == |tdec|
            && (forall i :: 0 <= i < |tdec| ==> out.interpolation[i] <= 3)
            && (Truthy(fillValue) ==>
                  (out.fillValue == fillValue.value
                   && forall i :: 0 <= i < |tdec| && out.mask[i] ==> out.data[i] == fillValue.value))
            && (forall i :: 0 <= i < |tdec| && !out.mask[i] ==>
                  out.data[i] != SelectedFiles(listing, variable, tdec)[|SelectedFiles(listing, variable, tdec)| - 1].fillValue)
  {
    ExpectedAnswers(lib, listing, model, tdec, ix, iy, variable, sigma, fillValue);
    var files := SelectedFiles(listing, variable, tdec);
    AnswersShape(lib, RecordOf(lib, files, sigma, ScaleFactor(variable).value),
                 QueryOf(lib, files, sigma, tdec, ix, iy), fillValue);
  }

  /** Two or more files of at least one step each leave the last row of the
      buffers beyond every file, since the counter c is never advanced. */
  lemma LastRowUncovered(files: seq<RacmoFile>)
    requires |files| >= 2 && forall j :: 0 <= j < |files| ==> |files[j].deltaTime| >= 1
    ensures TotalSteps(files) >= 1
    ensures forall j :: 0 <= j < |files| ==> |files[j].deltaTime| <= TotalSteps(files) - 1
  {
    forall j | 0 <= j < |files|
      ensures |files[j].deltaTime| < TotalSteps(files)
    {
      var front, back := files[..j], files[j + 1..];
      assert files == front + [files[j]] + back;
      TotalStepsAppend(front + [files[j]], back);
      TotalStepsAppend(front, [files[j]]);
      assert TotalSteps([files[j]]) == |files[j].deltaTime| by {
        assert [files[j]][..0] == [];
      }
      if j > 0 {
        StepsWithinTotal(front, 0);
      } else {
        StepsWithinTotal(back, 0);
      }
    }
  }

  /** A row beyond every file keeps time 0, so the record's earliest time
      is at most 0 and no query time from year 0 on is extrapolated
      backward: such points are interpolated across the zero rows. */
  lemma NoBackwardExtrapolation(lib: Library, files: seq<RacmoFile>, sigma: real, scale: real,
                                tdec: seq<real>, ix: seq<real>, iy: seq<real>, row: nat)
    requires files != [] && Shaped(files, GridOf(files).Cells()) && TotalSteps(files) > 0
    requires |ix| == |tdec| && |iy| == |tdec|
    requires row < TotalSteps(files) && forall j :: 0 <= j < |files| ==> |files[j].deltaTime| <= row
    ensures forall i :: 0 <= i < |tdec| && 0.0 <= tdec[i] ==>
              Kind(RecordOf(lib, files, sigma, scale), QueryOf(lib, files, sigma, tdec, ix, iy), i) != 2
  {
    var rec := RecordOf(lib, files, sigma, scale);
    assert LastCovering(files, row) == None;
    assert rec.time[row] == 0.0;
    assert MinOf(rec.time) <= 0.0;
  }

  /** Every step of the cumulative mask is the same, so a point's
      extrapolated mask is the spline of the one mask "weight == 0". */
  lemma ExtrapolatedMaskIsStatic(lib: Library, files: seq<RacmoFile>, sigma: real, scale: real, xq: real, yq: real)
    requires files != [] && Shaped(files, GridOf(files).Cells()) && TotalSteps(files) > 0
    ensures var rec := RecordOf(lib, files, sigma, scale);
            var weights := WeightsOf(lib, files, sigma);
            AnyTrue(MaskSeries(lib, rec, xq, yq))
            == AsBool(lib.spline(rec.x, rec.y,
                                 AsReals(seq(|weights|, k requires 0 <= k < |weights| => weights[k] == 0.0)), xq, yq))
  {
    var rec := RecordOf(lib, files, sigma, scale);
    var weights := WeightsOf(lib, files, sigma);
    assert forall k :: 0 <= k < |rec.cumMask| ==> rec.cumMask[k] == rec.cumMask[0];
    ConstantMaskRows(lib, rec, xq, yq);
  }

  // ---------------------------------------------------------------------
  // The procedure

  /** Lines 63-273.  The directory listing, the projected query
      coordinates and the library calls are inputs. */
  method InterpolateRacmoDaily(lib: Library, listing: seq<RacmoFile>, model: string, tdec: seq<real>,
                               ix: seq<real>, iy: seq<real>, variable: string := "smb",
                               sigma: real := 1.5, fillValue: Option<real> := None)
    returns (r: Result<Output>)
    requires |ix| == |tdec| && |iy| == |tdec|
    ensures r == Expected(lib, listing, model, tdec, ix, iy, variable, sigma, fillValue)
  {
    var years := YearRange(tdec);
    if years.Err? {
      return Err(years.error);
    }
    if model != "FGRN055" {
      return Err(UnsupportedModel);
    }
    var pattern := FilePattern(variable, JoinYears(Years(years.value.0, years.value.1)));
    var files := SortByName(SelectFiles(pattern, listing));
    assert files == SelectedFiles(listing, variable, tdec);
    var dims := CountTimeSteps(files);
    if dims.Err? {
      return Err(dims.error);
    }
    var scale := ScaleFactor(variable);
    if scale.Err? {
      return Err(scale.error);
    }
    var nt, x, y, fv := dims.value.nt, dims.value.x, dims.value.y, dims.value.fv;
    var grid := Grid(|y|, |x|);
    assert grid == GridOf(files);
    var problem, data, mask, time := Load(files, nt, grid.Cells(), scale.value, fv, lib.toDecimal);
    if problem.Some? {
      return Err(problem.value);
    }
    var rec, q := Prepare(lib, files, grid, sigma, scale.value, tdec, ix, iy, data, mask, time);
    if nt == 0 {
      return Err(EmptyRecord);
    }
    assert FirstFailure(listing, model, variable, tdec) == None;
    var out, outMask, kind, fill := Resolve(lib, rec, q, fillValue);
    ExpectedAnswers(lib, listing, model, tdec, ix, iy, variable, sigma, fillValue);
    return Ok(Output(out[..], outMask[..], kind[..], fill));
  }

  /** When nothing fails, the procedure returns the answers for the
      record and the queries. */
  lemma ExpectedAnswers(lib: Library, listing: seq<RacmoFile>, model: string, tdec: seq<real>, ix: seq<real>, iy: seq<real>,
                        variable: string, sigma: real, fillValue: Option<real>)
    requires |ix| == |tdec| && |iy| == |tdec|
    requires FirstFailure(listing, model, variable, tdec) == None
    ensures tdec != [] && SelectedFiles(listing, variable, tdec) != []
    ensures var files := SelectedFiles(listing, variable, tdec);
            && ScaleFactor(variable).Ok? && Shaped(files, GridOf(files).Cells()) && TotalSteps(files) > 0
            && Expected(lib, listing, model, tdec, ix, iy, variable, sigma, fillValue)
               == Ok(Answers(lib, RecordOf(lib, files, sigma, ScaleFactor(variable).value),
                             QueryOf(lib, files, sigma, tdec, ix, iy), fillValue))
  {
    NoFailure(listing, model, variable, tdec);
  }

  /** Lines 134-181: the smoothing pass over the loaded buffers and the
      hull test of the query points. */
  method Prepare(lib: Library, files: seq<RacmoFile>, grid: Grid, sigma: real, scale: real,
                 tdec: seq<real>, ix: seq<real>, iy: seq<real>,
                 data: array2<real>, mask: array2<bool>, time: array<real>)
    returns (rec: Record, q: Query)
    requires files != [] && grid == GridOf(files) && |ix| == |tdec| && |iy| == |tdec|
    requires Readable(files, grid.Cells())
    requires data.Length0 == TotalSteps(files)
    requires Holds(files, Epochs(files), grid.Cells(), scale, files[|files| - 1].fillValue, lib.toDecimal, data, mask, time)
    ensures TotalSteps(files) > 0 ==> rec == RecordOf(lib, files, sigma, scale)
    ensures q == QueryOf(lib, files, sigma, tdec, ix, iy)
  {
    var last := files[|files| - 1];
    var cells := grid.Cells();
    var values := Rows(data);
    var flags := Rows(mask);
    DataAsRows(files, cells, scale, last.fillValue, lib.toDecimal, data, mask, time);
    MaskAsRows(files, cells, scale, last.fillValue, lib.toDecimal, data, mask, time);
    TimeAsRows(files, cells, scale, last.fillValue, lib.toDecimal, data, mask, time);
    var weights, gs, gsMask, cumulative, cumMask := Smooth(lib, grid, sigma, values, flags);
    var points := HullPoints(last.x, last.y, weights);
    var valid := seq(|tdec|, i requires 0 <= i < |tdec| => lib.inHull(points, ix[i], iy[i]));
    q := Query(tdec, ix, iy, valid);
    CumulativeAsRows(SmoothedRows(lib, grid, sigma, values, flags, weights), cells, cumulative);
    MaskAsConstantRows(weights, cumMask);
    rec := Record(time[..], last.x, last.y, Rows(cumulative), Rows(cumMask), last.fillValue);
  }

  /** The data buffer, read row by row, is the loaded record. */
  lemma DataAsRows(files: seq<RacmoFile>, cells: nat, scale: real, fv: real, toDecimal: real -> real,
                   data: array2<real>, mask: array2<bool>, time: array<real>)
    requires Shaped(files, cells) && data.Length0 == TotalSteps(files)
    requires Holds(files, Epochs(files), cells, scale, fv, toDecimal, data, mask, time)
    ensures Rows(data) == LoadedData(files, cells, scale)
  {
    var expected := LoadedData(files, cells, scale);
    forall r | 0 <= r < data.Length0
      ensures Rows(data)[r] == expected[r]
    {
    }
  }

  /** The mask buffer, read row by row, is the loaded mask. */
  lemma MaskAsRows(files: seq<RacmoFile>, cells: nat, scale: real, fv: real, toDecimal: real -> real,
                   data: array2<real>, mask: array2<bool>, time: array<real>)
    requires Shaped(files, cells) && data.Length0 == TotalSteps(files)
    requires Holds(files, Epochs(files), cells, scale, fv, toDecimal, data, mask, time)
    ensures Rows(mask) == LoadedMasks(files, cells, fv)
  {
    var expected := LoadedMasks(files, cells, fv);
    forall r | 0 <= r < mask.Length0
      ensures Rows(mask)[r] == expected[r]
    {
    }
  }

  /** The time buffer is the loaded times. */
  lemma TimeAsRows(files: seq<RacmoFile>, cells: nat, scale: real, fv: real, toDecimal: real -> real,
                   data: array2<real>, mask: array2<bool>, time: array<real>)
    requires Shaped(files, cells) && data.Length0 == TotalSteps(files)
    requires Holds(files, Epochs(files), cells, scale, fv, toDecimal, data, mask, time)
    ensures time[..] == LoadedTimes(files, toDecimal)
  {
  }

  /** The cumulative buffer, read row by row, is the running sums. */
  lemma CumulativeAsRows(rows: seq<seq<real>>, cells: nat, cumulative: array2<real>)
    requires WellShaped(rows, cells) && cumulative.Length0 == |rows| && cumulative.Length1 == cells
    requires forall t, k :: 0 <= t < |rows| && 0 <= k < cells ==> cumulative[t, k] == ColumnSum(rows[..t + 1], k)
    ensures Rows(cumulative) == CumulativeRows(rows, cells)
  {
    var expected := CumulativeRows(rows, cells);
    forall t | 0 <= t < |rows|
      ensures Rows(cumulative)[t] == expected[t]
    {
    }
  }

  /** The cumulative mask buffer, read row by row, is "weight == 0" in every step. */
  lemma MaskAsConstantRows(weights: seq<real>, cumMask: array2<bool>)
    requires cumMask.Length1 == |weights|
    requires forall t, k :: 0 <= t < cumMask.Length0 && 0 <= k < |weights| ==> cumMask[t, k] == (weights[k] == 0.0)
    ensures Rows(cumMask) == MaskRows(weights, cumMask.Length0)
  {
    var expected := MaskRows(weights, cumMask.Length0);
    forall t | 0 <= t < cumMask.Length0
      ensures Rows(cumMask)[t] == expected[t]
    {
    }
  }
}
