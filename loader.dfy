/** Reading the selected files into the record: the count of time steps,
    the scale factor of the variable, and the data, mask and time buffers
    each file is written into. */
module Loader {
  import opened Failures
  import opened FileSelection
  import opened TimeUnits
  import opened JulianDay

  /** What the counting loop leaves behind: the total number of time steps,
      and the grid axes and fill value of the last file it opened. */
  datatype Dims = Dims(nt: nat, x: seq<real>, y: seq<real>, fv: real)

  /** Time steps of the files, summed from the front. */
  function TotalSteps(files: seq<RacmoFile>): (n: nat)
  {
    if files == [] then 0 else TotalSteps(files[..|files| - 1]) + |files[|files| - 1].deltaTime|
  }

  /** Lines 80-89: one pass over the sorted files adding up their time
      steps; the axes and the fill value are the last file's.  With no file
      nothing is bound and the next use of ny raises. */
  method CountTimeSteps(files: seq<RacmoFile>) returns (r: Result<Dims>)
    ensures r.Err? <==> files == []
    ensures r.Err? ==> r.error == NoFiles
    ensures r.Ok? ==> r.value == Dims(TotalSteps(files), files[|files| - 1].x,
                                      files[|files| - 1].y, files[|files| - 1].fillValue)
  {
    var nt := 0;
    var x: seq<real>, y: seq<real>, fv: real := [], [], 0.0;
    var i := 0;
    while i < |files|
      invariant 0 <= i <= |files|
      invariant nt == TotalSteps(files[..i])
      invariant i > 0 ==> x == files[i - 1].x && y == files[i - 1].y && fv == files[i - 1].fillValue
    {
      assert files[..i + 1][..i] == files[..i];
      x := files[i].x;
      y := files[i].y;
      nt := nt + |files[i].deltaTime|;
      fv := files[i].fillValue;
      i := i + 1;
    }
    if i == 0 {
      return Err(NoFiles);
    }
    assert files[..i] == files;
    return Ok(Dims(nt, x, y, fv));
  }

  /** Every file fits in the buffer: its own steps are at most the total. */
  lemma {:induction false} StepsWithinTotal(files: seq<RacmoFile>, i: nat)
    requires i < |files|
    ensures |files[i].deltaTime| <= TotalSteps(files)
  {
    if i < |files| - 1 {
      StepsWithinTotal(files[..|files| - 1], i);
    }
  }

  /** The total of two runs of files is the sum of their totals. */
  lemma {:induction false} TotalStepsAppend(a: seq<RacmoFile>, b: seq<RacmoFile>)
    ensures TotalSteps(a + b) == TotalSteps(a) + TotalSteps(b)
    decreases |b|
  {
    if b == [] {
      assert a + b == a;
    } else {
      assert (a + b)[..|a + b| - 1] == a + b[..|b| - 1];
      TotalStepsAppend(a, b[..|b| - 1]);
    }
  }

  /** Lines 91-95: the factor that converts the variable's units; any
      other variable leaves scale_factor unbound. */
  function ScaleFactor(variable: string): (r: Result<real>)
    ensures r.Ok? <==> variable == "hgtsrf" || variable == "smb"
    ensures r.Err? ==> r.error == UnsupportedVariable
    ensures variable == "hgtsrf" ==> r == Ok(86400.0)
    ensures variable == "smb" ==> r == Ok(1.0)
  {
    if variable == "hgtsrf" then Ok(86400.0)
    else if variable == "smb" then Ok(1.0)
    else Err(UnsupportedVariable)
  }

  /** hgtsrf is read in units 86400 times larger than smb's. */
  lemma HgtsrfScale(raw: real)
    ensures ScaleFactor("hgtsrf").value * raw == 86400.0 * (ScaleFactor("smb").value * raw)
  {
  }

  // ---------------------------------------------------------------------
  // What each file must satisfy to be read

  /** The variable's block has one row per time step, each row a whole grid. */
  predicate ShapeFits(f: RacmoFile, cells: nat)
  {
    |f.raw| == |f.deltaTime| && forall r :: 0 <= r < |f.raw| ==> |f.raw[r]| == cells
  }

  /** The problem reading one file raises, if any: the block assignment of
      line 112 before the unpacking of the units at line 126. */
  function FileProblem(f: RacmoFile, cells: nat): (p: Option<Failure>)
    ensures p == None <==> ShapeFits(f, cells) && UnitsOk(f)
  {
    if !ShapeFits(f, cells) then Some(ShapeMismatch)
    else if !UnitsOk(f) then Some(BadTimeUnits)
    else None
  }

  /** The problem of the first file that has one. */
  function FirstProblem(files: seq<RacmoFile>, cells: nat): (p: Option<Failure>)
    ensures p == None <==> forall i :: 0 <= i < |files| ==> FileProblem(files[i], cells) == None
  {
    if files == [] then None
    else
      var front := FirstProblem(files[..|files| - 1], cells);
      assert forall i :: 0 <= i < |files| - 1 ==> files[..|files| - 1][i] == files[i];
      if front.Some? then front else FileProblem(files[|files| - 1], cells)
  }

  /** The first problem is the problem of some file, and every file before
      that one reads cleanly. */
  lemma {:induction false} FirstProblemIsFirst(files: seq<RacmoFile>, cells: nat)
    requires FirstProblem(files, cells).Some?
    ensures exists i :: 0 <= i < |files| && FileProblem(files[i], cells) == FirstProblem(files, cells)
                        && forall j :: 0 <= j < i ==> FileProblem(files[j], cells) == None
  {
    var front := files[..|files| - 1];
    assert forall i :: 0 <= i < |files| - 1 ==> front[i] == files[i];
    if FirstProblem(front, cells).Some? {
      FirstProblemIsFirst(front, cells);
      var i :| 0 <= i < |front| && FileProblem(front[i], cells) == FirstProblem(front, cells)
               && forall j :: 0 <= j < i ==> FileProblem(front[j], cells) == None;
      assert FileProblem(files[i], cells) == FirstProblem(files, cells);
    } else {
      assert FileProblem(files[|files| - 1], cells) == FirstProblem(files, cells);
    }
  }

  /** Line 127: the Julian day of a file's epoch, by calc_julian_day as
      written (one day late for the epochs CenturyShifted names). */
  function EpochDay(f: RacmoFile): real
    requires ParseEpoch(f.units).Ok?
  {
    var e := ParseEpoch(f.units).value;
    CalcJulianDay(e.year, e.month, e.day, e.hour, e.minute, e.second)
  }

  /** A file with the RACMO units has its epoch at 1950-01-01 00:00, Julian
      day 2433282.5, where the century-year defect does not reach. */
  lemma RacmoEpochDay(f: RacmoFile)
    requires f.units == "days since 1950-01-01 00:00:00.0"
    ensures UnitsOk(f) && EpochDay(f) == 2433282.5
  {
    RacmoUnitsEpoch();
    KnownEpochs();
  }

  /** The epoch day of each file whose units can be read (0 for the others). */
  function Epochs(files: seq<RacmoFile>): (e: seq<real>)
    ensures |e| == |files|
    ensures forall i :: 0 <= i < |files| && UnitsOk(files[i]) ==> e[i] == EpochDay(files[i])
  {
    seq(|files|, i requires 0 <= i < |files| => if UnitsOk(files[i]) then EpochDay(files[i]) else 0.0)
  }

  // ---------------------------------------------------------------------
  // What the buffers hold

  /** The counter c stays 0, so every file writes rows 0..t-1: a row holds
      what the last file reaching it wrote, or nothing. */
  function LastCovering(files: seq<RacmoFile>, row: nat): (w: Option<nat>)
    ensures w.Some? ==> w.value < |files| && row < |files[w.value].deltaTime|
    ensures w.Some? ==> forall j :: w.value < j < |files| ==> |files[j].deltaTime| <= row
    ensures w.None? ==> forall j :: 0 <= j < |files| ==> |files[j].deltaTime| <= row
  {
    if files == [] then None
    else if row < |files[|files| - 1].deltaTime| then Some(|files| - 1)
    else
      var w := LastCovering(files[..|files| - 1], row);
      assert forall j :: 0 <= j < |files| - 1 ==> files[..|files| - 1][j] == files[j];
      w
  }

  /** Every file's block fits the buffer. */
  predicate Shaped(files: seq<RacmoFile>, cells: nat)
  {
    forall i :: 0 <= i < |files| ==> ShapeFits(files[i], cells)
  }

  /** The file's units give an epoch: findall yields exactly six numbers. */
  predicate UnitsOk(f: RacmoFile)
  {
    |FindAll(f.units)| == 6
  }

  /** Every file's units give an epoch. */
  predicate Parsed(files: seq<RacmoFile>)
  {
    forall i :: 0 <= i < |files| ==> UnitsOk(files[i])
  }

  predicate Readable(files: seq<RacmoFile>, cells: nat)
  {
    Shaped(files, cells) && Parsed(files)
  }

  /** The value at (row, cell): scale times the raw value of the last file covering the row. */
  function LoadedValue(files: seq<RacmoFile>, cells: nat, scale: real, row: nat, cell: nat): real
    requires Shaped(files, cells) && cell < cells
  {
    match LastCovering(files, row)
    case None => 0.0
    case Some(i) => scale * files[i].raw[row][cell]
  }

  /** Masked iff the raw value of the last file covering the row is the fill value. */
  predicate LoadedMask(files: seq<RacmoFile>, cells: nat, fv: real, row: nat, cell: nat)
    requires Shaped(files, cells) && cell < cells
  {
    match LastCovering(files, row)
    case None => false
    case Some(i) => files[i].raw[row][cell] == fv
  }

  /** The decimal-year time of the last file covering the row, from that
      file's epoch day. */
  function LoadedTime(files: seq<RacmoFile>, epochs: seq<real>, toDecimal: real -> real, row: nat): real
    requires |epochs| == |files|
  {
    match LastCovering(files, row)
    case None => 0.0
    case Some(i) => toDecimal(epochs[i] + files[i].deltaTime[row])
  }

  /** Lines 97-132: zeroed buffers of nt rows, then each file written over
      rows 0..t-1 (c is never advanced): the data scaled, the mask of those
      rows cleared by the assignment and or-ed with raw == fv, the times
      converted from the file's epoch.  The first file that cannot be read
      ends the load with its problem. */
  method Load(files: seq<RacmoFile>, nt: nat, cells: nat, scale: real, fv: real,
              toDecimal: real -> real)
    returns (problem: Option<Failure>, data: array2<real>, mask: array2<bool>, time: array<real>)
    requires nt == TotalSteps(files)
    ensures fresh(data) && fresh(mask) && fresh(time)
    ensures problem == FirstProblem(files, cells)
    ensures data.Length0 == nt && data.Length1 == cells
    ensures mask.Length0 == nt && mask.Length1 == cells
    ensures time.Length == nt
    ensures problem.None? ==> (Readable(files, cells)
              && Holds(files, Epochs(files), cells, scale, fv, toDecimal, data, mask, time))
  {
    data, mask, time := NewBuffers(files, nt, cells, scale, fv, toDecimal);
    problem := ReadAll(files, cells, scale, fv, toDecimal, data, mask, time);
  }

  /** Lines 105-132: the files written one after the other until one
      cannot be read. */
  method ReadAll(files: seq<RacmoFile>, cells: nat, scale: real, fv: real, toDecimal: real -> real,
                 data: array2<real>, mask: array2<bool>, time: array<real>)
    returns (problem: Option<Failure>)
    requires data.Length0 == TotalSteps(files)
    requires Holds(files[..0], Epochs(files)[..0], cells, scale, fv, toDecimal, data, mask, time)
    modifies data, mask, time
    ensures problem == FirstProblem(files, cells)
    ensures problem.None? ==> (Readable(files, cells)
              && Holds(files, Epochs(files), cells, scale, fv, toDecimal, data, mask, time))
  {
    problem := ReadFrom(files, 0, cells, scale, fv, toDecimal, data, mask, time);
    assert files[..|files|] == files && Epochs(files)[..|files|] == Epochs(files);
  }

  /** The files from the i-th on, after the files before it were read
      cleanly. */
  method ReadFrom(files: seq<RacmoFile>, i: nat, cells: nat, scale: real, fv: real, toDecimal: real -> real,
                  data: array2<real>, mask: array2<bool>, time: array<real>)
    returns (problem: Option<Failure>)
    requires i <= |files| && data.Length0 == TotalSteps(files)
    requires FirstProblem(files[..i], cells) == None && Readable(files[..i], cells)
    requires Holds(files[..i], Epochs(files)[..i], cells, scale, fv, toDecimal, data, mask, time)
    modifies data, mask, time
    ensures problem == FirstProblem(files, cells)
    ensures problem.None? ==> (Readable(files[..|files|], cells)
              && Holds(files[..|files|], Epochs(files)[..|files|], cells, scale, fv, toDecimal, data, mask, time))
    decreases |files| - i
  {
    if i == |files| {
      assert files[..i] == files;
      return None;
    }
    var p := FileProblem(files[i], cells);
    if p.Some? {
      PrefixProblem(files, i + 1, cells);
      return p;
    }
    ReadNext(files, i, cells, scale, fv, toDecimal, data, mask, time);
    problem := ReadFrom(files, i + 1, cells, scale, fv, toDecimal, data, mask, time);
  }

  /** Lines 97-101: buffers of nt rows of zeros, unmasked, which hold
      what no file has written yet. */
  method NewBuffers(files: seq<RacmoFile>, nt: nat, cells: nat, scale: real, fv: real, toDecimal: real -> real)
    returns (data: array2<real>, mask: array2<bool>, time: array<real>)
    ensures fresh(data) && fresh(mask) && fresh(time)
    ensures data.Length0 == nt && data.Length1 == cells
    ensures mask.Length0 == nt && mask.Length1 == cells
    ensures time.Length == nt
    ensures Holds(files[..0], Epochs(files)[..0], cells, scale, fv, toDecimal, data, mask, time)
  {
    data := new real[nt, cells]((r, k) => 0.0);
    mask := new bool[nt, cells]((r, k) => false);
    time := new real[nt](r => 0.0);
  }

  /** A file that reads cleanly written into the buffers after the files
      before it. */
  method ReadNext(files: seq<RacmoFile>, i: nat, cells: nat, scale: real, fv: real, toDecimal: real -> real,
                  data: array2<real>, mask: array2<bool>, time: array<real>)
    requires i < |files| && data.Length0 == TotalSteps(files)
    requires FirstProblem(files[..i], cells) == None && Readable(files[..i], cells)
    requires FileProblem(files[i], cells) == None
    requires Holds(files[..i], Epochs(files)[..i], cells, scale, fv, toDecimal, data, mask, time)
    modifies data, mask, time
    ensures FirstProblem(files[..i + 1], cells) == None && Readable(files[..i + 1], cells)
    ensures Holds(files[..i + 1], Epochs(files)[..i + 1], cells, scale, fv, toDecimal, data, mask, time)
  {
    StepsWithinTotal(files, i);
    ReadableExtend(files, i, cells);
    var epoch := EpochDay(files[i]);
    AddFile(files, Epochs(files), i, epoch, cells, scale, fv, toDecimal, data, mask, time);
  }

  /** The buffers hold what the files wrote, row by row. */
  ghost predicate Holds(files: seq<RacmoFile>, epochs: seq<real>, cells: nat, scale: real, fv: real,
                        toDecimal: real -> real, data: array2<real>, mask: array2<bool>, time: array<real>)
    requires Shaped(files, cells) && |epochs| == |files|
    reads data, mask, time
  {
    && data.Length0 == mask.Length0 == time.Length
    && data.Length1 == cells && mask.Length1 == cells
    && (forall r, k :: 0 <= r < data.Length0 && 0 <= k < cells ==>
          data[r, k] == LoadedValue(files, cells, scale, r, k))
    && (forall r, k :: 0 <= r < mask.Length0 && 0 <= k < cells ==>
          (mask[r, k] <==> LoadedMask(files, cells, fv, r, k)))
    && (forall r :: 0 <= r < time.Length ==> time[r] == LoadedTime(files, epochs, toDecimal, r))
  }

  /** One pass of the loop of lines 105-132: file i written over what the
      files before it left. */
  method AddFile(files: seq<RacmoFile>, epochs: seq<real>, i: nat, epoch: real, cells: nat,
                 scale: real, fv: real, toDecimal: real -> real,
                 data: array2<real>, mask: array2<bool>, time: array<real>)
    requires i < |files| == |epochs| && epoch == epochs[i]
    requires Shaped(files[..i + 1], cells) && Shaped(files[..i], cells) && ShapeFits(files[i], cells)
    requires |files[i].deltaTime| <= data.Length0
    requires Holds(files[..i], epochs[..i], cells, scale, fv, toDecimal, data, mask, time)
    modifies data, mask, time
    ensures Holds(files[..i + 1], epochs[..i + 1], cells, scale, fv, toDecimal, data, mask, time)
  {
    var nt := data.Length0;
    WriteFile(files[i], epoch, cells, scale, fv, toDecimal, data, mask, time);
    forall r, k | 0 <= r < nt && 0 <= k < cells
      ensures data[r, k] == LoadedValue(files[..i + 1], cells, scale, r, k)
    {
      LoadedValueStep(files, i, cells, scale, r, k);
    }
    forall r, k | 0 <= r < nt && 0 <= k < cells
      ensures mask[r, k] <==> LoadedMask(files[..i + 1], cells, fv, r, k)
    {
      LoadedMaskStep(files, i, cells, fv, r, k);
    }
    forall r | 0 <= r < nt
      ensures time[r] == LoadedTime(files[..i + 1], epochs[..i + 1], toDecimal, r)
    {
      LoadedTimeStep(files, epochs, i, toDecimal, r);
    }
  }

  /** Lines 107-132 for one file: rows 0..t-1 take the file's scaled values,
      its fill-value mask and its times; the other rows keep theirs. */
  method WriteFile(f: RacmoFile, epoch: real, cells: nat, scale: real, fv: real, toDecimal: real -> real,
                   data: array2<real>, mask: array2<bool>, time: array<real>)
    requires ShapeFits(f, cells)
    requires |f.deltaTime| <= data.Length0 == mask.Length0 == time.Length
    requires data.Length1 == cells && mask.Length1 == cells
    modifies data, mask, time
    ensures forall r, k :: 0 <= r < data.Length0 && 0 <= k < cells ==>
              data[r, k] == if r < |f.deltaTime| then scale * f.raw[r][k] else old(data[r, k])
    ensures forall r, k :: 0 <= r < mask.Length0 && 0 <= k < cells ==>
              mask[r, k] == if r < |f.deltaTime| then f.raw[r][k] == fv else old(mask[r, k])
    ensures forall r :: 0 <= r < time.Length ==>
              time[r] == if r < |f.deltaTime| then toDecimal(epoch + f.deltaTime[r]) else old(time[r])
  {
    var t := |f.deltaTime|;
    forall r, k | 0 <= r < t && 0 <= k < cells {
      data[r, k] := scale * f.raw[r][k];
    }
    // the assignment of plain values unmasks the rows it writes
    forall r, k | 0 <= r < t && 0 <= k < cells {
      mask[r, k] := false;
    }
    forall r, k | 0 <= r < t && 0 <= k < cells {
      mask[r, k] := mask[r, k] || f.raw[r][k] == fv;
    }
    forall r | 0 <= r < t {
      time[r] := toDecimal(epoch + f.deltaTime[r]);
    }
  }

  /** A file that reads cleanly extends a clean prefix. */
  lemma ReadableExtend(files: seq<RacmoFile>, i: nat, cells: nat)
    requires i < |files| && Readable(files[..i], cells) && FirstProblem(files[..i], cells) == None
    requires ShapeFits(files[i], cells) && UnitsOk(files[i])
    ensures Readable(files[..i + 1], cells) && FirstProblem(files[..i + 1], cells) == None
  {
    ShapedExtend(files, i, cells);
    ParsedExtend(files, i);
    NoProblemExtend(files, i, cells);
  }

  lemma ShapedExtend(files: seq<RacmoFile>, i: nat, cells: nat)
    requires i < |files| && Shaped(files[..i], cells) && ShapeFits(files[i], cells)
    ensures Shaped(files[..i + 1], cells)
  {
    assert files[..i + 1][..i] == files[..i] && files[..i + 1][i] == files[i];
    assert forall j :: 0 <= j < i ==> files[..i + 1][j] == files[..i][j];
  }

  lemma ParsedExtend(files: seq<RacmoFile>, i: nat)
    requires i < |files| && Parsed(files[..i]) && UnitsOk(files[i])
    ensures Parsed(files[..i + 1])
  {
    assert files[..i + 1] == files[..i] + [files[i]];
    ParsedAppend(files[..i], files[i]);
  }

  lemma ParsedAppend(front: seq<RacmoFile>, f: RacmoFile)
    requires Parsed(front) && UnitsOk(f)
    ensures Parsed(front + [f])
  {
    var grown := front + [f];
    forall j | 0 <= j < |grown|
      ensures UnitsOk(grown[j])
    {
      if j < |front| {
        assert grown[j] == front[j];
      }
    }
  }

  lemma NoProblemExtend(files: seq<RacmoFile>, i: nat, cells: nat)
    requires i < |files| && FirstProblem(files[..i], cells) == None
    requires FileProblem(files[i], cells) == None
    ensures FirstProblem(files[..i + 1], cells) == None
  {
    assert files[..i + 1][..i] == files[..i] && files[..i + 1][i] == files[i];
  }

  /** What the buffers hold after file i, in terms of file i and what the
      files before it left. */
  lemma LoadedValueStep(files: seq<RacmoFile>, i: nat, cells: nat, scale: real, row: nat, cell: nat)
    requires i < |files| && Shaped(files[..i + 1], cells) && Shaped(files[..i], cells)
    requires cell < cells
    ensures LoadedValue(files[..i + 1], cells, scale, row, cell)
            == if row < |files[i].deltaTime| then scale * files[i].raw[row][cell]
               else LoadedValue(files[..i], cells, scale, row, cell)
  {
    assert files[..i + 1][i] == files[i];
    CoveringStep(files, i, row);
  }

  lemma LoadedMaskStep(files: seq<RacmoFile>, i: nat, cells: nat, fv: real, row: nat, cell: nat)
    requires i < |files| && Shaped(files[..i + 1], cells) && Shaped(files[..i], cells)
    requires cell < cells
    ensures LoadedMask(files[..i + 1], cells, fv, row, cell)
            <==> if row < |files[i].deltaTime| then files[i].raw[row][cell] == fv
                 else LoadedMask(files[..i], cells, fv, row, cell)
  {
    assert files[..i + 1][i] == files[i];
    CoveringStep(files, i, row);
  }

  lemma LoadedTimeStep(files: seq<RacmoFile>, epochs: seq<real>, i: nat, toDecimal: real -> real, row: nat)
    requires i < |files| == |epochs|
    ensures LoadedTime(files[..i + 1], epochs[..i + 1], toDecimal, row)
            == if row < |files[i].deltaTime| then toDecimal(epochs[i] + files[i].deltaTime[row])
               else LoadedTime(files[..i], epochs[..i], toDecimal, row)
  {
    assert files[..i + 1][i] == files[i] && epochs[..i + 1][i] == epochs[i];
    CoveringStep(files, i, row);
    match LastCovering(files[..i], row)
    case None =>
    case Some(w) =>
      assert files[..i + 1][w] == files[..i][w] && epochs[..i + 1][w] == epochs[..i][w];
  }

  /** Adding file i on top of the first i: rows it reaches are its own now,
      the others keep what the earlier files left. */
  lemma CoveringStep(files: seq<RacmoFile>, i: nat, row: nat)
    requires i < |files|
    ensures LastCovering(files[..i + 1], row)
            == if row < |files[i].deltaTime| then Some(i) else LastCovering(files[..i], row)
  {
    assert files[..i + 1][..i] == files[..i];
  }

  /** When the first i files are all that is looked at and the i-th has a
      problem after clean ones, that problem is the first of the whole list. */
  lemma {:induction false} PrefixProblem(files: seq<RacmoFile>, i: nat, cells: nat)
    requires 0 < i <= |files|
    requires FirstProblem(files[..i - 1], cells) == None
    requires FileProblem(files[i - 1], cells).Some?
    ensures FirstProblem(files, cells) == FileProblem(files[i - 1], cells)
    decreases |files|
  {
    assert files[..i][..i - 1] == files[..i - 1];
    if i < |files| {
      var front := files[..|files| - 1];
      assert front[..i - 1] == files[..i - 1] && front[i - 1] == files[i - 1];
      PrefixProblem(front, i, cells);
    } else {
      assert files[..i] == files;
    }
  }

  // ---------------------------------------------------------------------
  // Consequences of the counter that never advances

  /** Rows past the longest file are never written: data 0, unmasked, time 0. */
  lemma RowsBeyondEveryFile(files: seq<RacmoFile>, epochs: seq<real>, cells: nat, scale: real, fv: real,
                            toDecimal: real -> real, row: nat, cell: nat)
    requires Shaped(files, cells) && |epochs| == |files| && cell < cells
    requires forall j :: 0 <= j < |files| ==> |files[j].deltaTime| <= row
    ensures LoadedValue(files, cells, scale, row, cell) == 0.0
    ensures !LoadedMask(files, cells, fv, row, cell)
    ensures LoadedTime(files, epochs, toDecimal, row) == 0.0
  {
  }

  /** With two files of one time step each, the record has two rows but the
      second one is never written, and the first holds the second file. */
  lemma TwoOneStepFiles(a: RacmoFile, b: RacmoFile, epochs: seq<real>, cells: nat, scale: real, fv: real,
                        toDecimal: real -> real)
    requires |a.deltaTime| == 1 && |b.deltaTime| == 1 && |epochs| == 2
    requires ShapeFits(a, cells) && ShapeFits(b, cells) && cells > 0
    ensures Shaped([a, b], cells)
    ensures TotalSteps([a, b]) == 2
    ensures LoadedValue([a, b], cells, scale, 0, 0) == scale * b.raw[0][0]
    ensures LoadedTime([a, b], epochs, toDecimal, 1) == 0.0 && !LoadedMask([a, b], cells, fv, 1, 0)
  {
    assert [a, b][..1] == [a];
    assert [a][..0] == [];
    assert LastCovering([a, b], 0) == Some(1);
    assert LastCovering([a, b], 1) == None;
    assert TotalSteps([a]) == 1;
  }
}
