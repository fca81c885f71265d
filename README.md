# RACMO daily interpolation, modelled in Dafny

This project models `interpolate_racmo_daily` and `calc_julian_day` from
`SMBcorr/racmo_interp_daily.py`. The procedure answers a set of query points
(a decimal-year time and an x/y position) from the daily outputs of the RACMO2.3p2
FGRN055 regional climate model (surface mass balance `smb` or surface height
`hgtsrf`). It runs these steps:

1. **File selection.** From the floor of the earliest and latest query time it
   builds the year range and a file-name regular expression. It keeps the
   directory entries that the expression matches at their start, then sorts them
   by name.
2. **Loading.** It counts the time steps of all files and takes the grid and the
   `_FillValue` of the last file. It allocates zeroed buffers, then writes each
   file's scaled values, their fill-value mask and their decimal-year times into
   them. The file's time-units string is tokenised with `re.findall` and turned
   into a Julian epoch by `calc_julian_day`.
3. **Smoothing.** It builds a static mask (1 where a cell is never masked),
   smooths it with a Gaussian filter, and keeps the cells whose smoothed weight
   rounds up to 1. Each step's field, with masked cells zeroed, is smoothed and
   divided by the weight at kept cells. Unmasked cells keep their original
   values. The steps are summed into a cumulative field whose mask is "weight is
   zero".
4. **Hull.** A query point is valid when it lies in the convex hull of the kept
   cells.
5. **Answering.** Valid points inside the record's time span are interpolated
   from the cumulative field and take kind 1. Points before the span are
   regressed from their spline-sampled series and take kind 2; points after it
   do the same and take kind 3. Invalid points keep value 0, mask False and
   kind 0.
6. **Fill pass.** Any point equal to the fill value is masked. A truthy
   `FILL_VALUE` then replaces every masked value and becomes the output's fill
   value.

The model is organised by the procedure's own stages:

| file | module | what it holds |
|---|---|---|
| `failures.dfy` | `Failures` | the ways one call can fail, and `Result`/`Option` |
| `decimal.dfy` | `Decimal` | digit strings and `'{0:d}'` formatting of integers |
| `file_selection.dfy` | `FileSelection` | year range, file pattern, the `re.VERBOSE` matcher, selection, `sorted()` |
| `time_units.dfy` | `TimeUnits` | `re.findall('\d+\.\d+|\d+', units)` and the six-number epoch |
| `julian.dfy` | `JulianDay` | `calc_julian_day` as written, and the Gregorian-correct form |
| `loader.dfy` | `Loader` | counting pass, scale factor, per-file checks, the buffers and what they hold |
| `numerics.dfy` | `Numerics` | the library calls, given as functions; the grid |
| `smoother.dfy` | `Smoother` | static mask, smoothing and cumulative sum (imperative, over `array2`) |
| `resolver.dfy` | `Resolver` | the three answering stages and the fill pass (imperative, over arrays) |
| `pipeline.dfy` | `Pipeline` | the whole procedure, its failure order and end-to-end properties |

Where the code changes arrays step by step, the model does too. The loading
pass, the smoothing loop, the three answering stages and the fill pass are
methods over `array`/`array2`. Each is proved against a defining function
of its inputs (`LoadedValue`, `SmoothedRows`, `ColumnSum`, `Answers`, ...), and
lemmas about those functions state what the procedure promises. The one
exception is the per-file loop of lines 105-132, which is written as the
recursive method `Loader.ReadFrom`.

An error the procedure itself raises is modelled as a `Failure`. Among these, the
order is the order the code meets them (errors raised inside the numerical
library are not modelled; see "## Left out"):

1. an empty `tdec` (`np.nanmin` of nothing);
2. a model other than FGRN055 (`file_pattern` unbound);
3. no file selected (`ny`, `nx`, `fv` unbound);
4. a variable other than `hgtsrf`/`smb` (`scale_factor` unbound);
5. the first file whose block does not fit the buffer, or whose units do not
   hold exactly six numbers;
6. a record without time steps.

Behaviour kept as the code has it, where it differs from what the comments
suggest:

- **The counter `c` never advances** (line 103 sets it and nothing updates it).
  Every file writes rows `0..t-1`, and a row holds what the last file long enough
  to reach it wrote. Rows beyond every file stay 0, unmasked, with time 0.
  `Loader.TwoOneStepFiles`, `Loader.RowsBeyondEveryFile` and
  `Pipeline.LastRowUncovered` state the consequences.
  `Pipeline.NoBackwardExtrapolation` states a further one: with two or more
  non-empty files, the record's earliest time is at most 0, so no query at or after year 0
  is extrapolated backward. Such a time axis is not strictly ascending, so the
  program's `RegularGridInterpolator` (line 196) raises an error as soon as some
  point is to be interpolated. The model does not capture that error (see
  "## Left out").
- **The year alternation in the pattern is not grouped** (lines 69, 73, 77). With
  two or more years, the pattern is `prefix+Y1 | Y2 | ... | Yn.nc`. A file is
  selected only if its name starts with the first year's full name, or with a
  later year's bare digits. `FileSelection.SelectedIff` states this.
  `FileSelection.SecondYearFileMissed` shows that the second year's own file is
  not selected.
- **The mask from line 114 is not an accumulation over files.** Assigning plain
  values to a masked-array slice (line 112) clears the mask there, so the `|=`
  sees a cleared mask. A cell's mask is whether the last covering file's raw
  value equals the fill value (`Loader.LoadedMaskStep`).
- **Points outside the hull are left unmasked** (lines 185-188 create the mask as
  all False). They hold 0 and kind 0, and the fill pass masks them only when the
  record's fill value is itself 0 (`Resolver.OutsideHull`). The docstring
  describes FILL_VALUE as the output value for invalid points, but such a point
  takes it only when it ends up masked; the model follows the code.
- **The file epoch uses `calc_julian_day` as written** (line 127, `Loader.EpochDay`
  calls `JulianDay.CalcJulianDay`). The formula runs one day ahead of the Gregorian count for dates in
  March-August of a century year not divisible by 400, and in the January after
  one (see Findings). The model's record times are therefore the program's. The
  corrected form, `JulianDay.GregorianJulianDay`, is proved consecutive alongside,
  and `JulianDay.WrittenDayOffset` states exactly where the two differ. For the
  RACMO units, epoch 1950-01-01, they agree (`Loader.RacmoEpochDay`).

## Model

| member | source | states |
|---|---|---|
| Decimal.NatToStringRoundTrip | SMBcorr/racmo_interp_daily.py:69 | the decimal text of a year reads back as the same number |
| Decimal.NatToStringLength | SMBcorr/racmo_interp_daily.py:69 | a number with k significant digits is written with exactly k characters, so a four-digit year needs no padding |
| FileSelection.MinFloor | SMBcorr/racmo_interp_daily.py:67 | the start year is at most the floor of every query time, and it is the floor of one of them |
| FileSelection.MaxFloor | SMBcorr/racmo_interp_daily.py:68 | the end year is at least the floor of every query time, and it is the floor of one of them |
| FileSelection.YearRange | SMBcorr/racmo_interp_daily.py:66-68 | fails with EmptyQuery exactly when there are no query times; otherwise start ≤ end, both are attained floors, and every floor lies between them |
| FileSelection.Years | SMBcorr/racmo_interp_daily.py:69 | range(SY, EY+1) has EY-SY+1 entries, the i-th being SY+i, and is empty when SY > EY |
| FileSelection.SelectFiles | SMBcorr/racmo_interp_daily.py:78 | an entry is kept exactly when it is in the listing and the pattern matches its name |
| FileSelection.Insert | SMBcorr/racmo_interp_daily.py:105 | inserting into a name-sorted list keeps it sorted and adds exactly that one file |
| FileSelection.SortByName | SMBcorr/racmo_interp_daily.py:82 | sorted() yields a name-ordered permutation of the selection |
| FileSelection.LexTotal | SMBcorr/racmo_interp_daily.py:105 | the name order compares any two names |
| FileSelection.YearAlternatives | SMBcorr/racmo_interp_daily.py:69-77 | with two or more years the pattern splits into prefix+first year, the bare middle years, and last year+".nc" |
| FileSelection.SelectedIff | SMBcorr/racmo_interp_daily.py:69-78 | with one year a name matches iff it starts with the full file name; with more, iff it starts with prefix+first year, a middle year, or last year+".nc" |
| FileSelection.SelectedIffMany | SMBcorr/racmo_interp_daily.py:69-78 | the two-or-more-years half of the selection criterion |
| FileSelection.CompilePadded | SMBcorr/racmo_interp_daily.py:69-77 | the space padding of '{0:4d}' is dropped by re.VERBOSE and changes nothing |
| FileSelection.CompileMatchesItself | SMBcorr/racmo_interp_daily.py:77 | a pattern without spaces matches its own text at the start of any name |
| FileSelection.FirstYearFileSelected | SMBcorr/racmo_interp_daily.py:69-78 | the first year's daily file is always selected |
| FileSelection.PaddedYearMatches | SMBcorr/racmo_interp_daily.py:73-77 | prefix+year matches the start of that year's file name |
| FileSelection.PaddedYearFileMatches | SMBcorr/racmo_interp_daily.py:73-77 | the full one-year pattern matches that year's file name |
| FileSelection.SecondYearFileMissed | SMBcorr/racmo_interp_daily.py:69-78 | for years 2015-2016 the 2015 smb file is selected and the 2016 smb file is not |
| TimeUnits.DigitRun | SMBcorr/racmo_interp_daily.py:126 | the leading run of digits is maximal: all digits, then a non-digit or the end |
| TimeUnits.FindAll | SMBcorr/racmo_interp_daily.py:126 | every token found is a number: digits, optionally '.' and more digits |
| TimeUnits.TokenValue | SMBcorr/racmo_interp_daily.py:126 | float(token) lies between its whole part and the whole part plus one; its exact value is given by DigitsToken and DigitsPointDigits |
| TimeUnits.DigitsToken | SMBcorr/racmo_interp_daily.py:126 | a token of digits alone, leading zeros included ("01", "00"), reads as the number its digits spell |
| TimeUnits.TokenValueOfNat | SMBcorr/racmo_interp_daily.py:126 | float(str(n)) == n: a whole-number token reads as the number it spells |
| TimeUnits.TokenValueOfDecimal | SMBcorr/racmo_interp_daily.py:126 | a token w.f reads as w plus the digits f over 10 to the number of digits |
| TimeUnits.DigitsPointDigits | SMBcorr/racmo_interp_daily.py:126 | any digits, a point and digits form one number token, read as the whole part plus the fraction |
| TimeUnits.ParseEpoch | SMBcorr/racmo_interp_daily.py:126 | unpacking succeeds exactly when findall yields six numbers; the year is the first token and the second the last |
| TimeUnits.FindAllTokenizes | SMBcorr/racmo_interp_daily.py:126 | the units string is its gaps and tokens interleaved, with gaps free of digits and no token extendable |
| TimeUnits.TokenizationIsFindAll | SMBcorr/racmo_interp_daily.py:126 | any such tokenisation is exactly what findall returns, the converse of FindAllTokenizes |
| TimeUnits.RacmoUnitsTokens | SMBcorr/racmo_interp_daily.py:124-126 | "days since 1950-01-01 00:00:00.0" yields 1950, 01, 01, 00, 00, 00.0 |
| TimeUnits.RacmoUnitsValues | SMBcorr/racmo_interp_daily.py:126 | those tokens read as 1950, 1, 1, 0, 0, 0 |
| TimeUnits.RacmoUnitsEpoch | SMBcorr/racmo_interp_daily.py:124-127 | the RACMO units give the epoch 1950-01-01 00:00:00 |
| TimeUnits.FiveNumbersFail | SMBcorr/racmo_interp_daily.py:126 | units with five numbers fail to unpack |
| JulianDay.DayAddsOne | SMBcorr/racmo_interp_daily.py:276-281 | one more day of the month is one more Julian day |
| JulianDay.HourRollsOverIntoDay | SMBcorr/racmo_interp_daily.py:279-280 | 24 hours equal the start of the next day |
| JulianDay.MinuteRollsOverIntoHour | SMBcorr/racmo_interp_daily.py:279-280 | 60 minutes equal the next hour |
| JulianDay.SecondRollsOverIntoMinute | SMBcorr/racmo_interp_daily.py:279-280 | 60 seconds equal the next minute |
| JulianDay.KnownEpochs | SMBcorr/racmo_interp_daily.py:276-281 | J2000 (2000-01-01 12:00) is 2451545.0 and 1950-01-01 is 2433282.5 |
| JulianDay.CenturyYearCounterexample | SMBcorr/racmo_interp_daily.py:277-278 | as written, 1900-08-31 and 1900-09-01 get the same Julian day, and 1901-01-01 is two days after 1900-12-31 |
| JulianDay.WrittenDayIsInteger | SMBcorr/racmo_interp_daily.py:277-279 | at midnight the written formula is an integer formula plus 1721028.5 |
| JulianDay.GregorianDayIsInteger | SMBcorr/racmo_interp_daily.py:277-279 | the same holds for the corrected formula |
| JulianDay.GregorianDaysAreConsecutive | SMBcorr/racmo_interp_daily.py:276-281 | with truncating division, every calendar day's Julian day is one more than the day before's |
| JulianDay.WrittenDayOffset | SMBcorr/racmo_interp_daily.py:277-278 | the written formula is the corrected one plus exactly one day in March-August of a century year not divisible by 400 and in the January after one, and equal elsewhere |
| Loader.CountTimeSteps | SMBcorr/racmo_interp_daily.py:80-89 | fails with NoFiles exactly when no file is selected; otherwise it yields the total step count and the last file's axes and fill value |
| Loader.StepsWithinTotal | SMBcorr/racmo_interp_daily.py:81-87 | no file has more steps than the total |
| Loader.TotalStepsAppend | SMBcorr/racmo_interp_daily.py:81-87 | the step count of two lists of files is the sum of their counts |
| Loader.ScaleFactor | SMBcorr/racmo_interp_daily.py:91-95 | the factor is 86400.0 for hgtsrf and 1.0 for smb; any other variable gives UnsupportedVariable |
| Loader.HgtsrfScale | SMBcorr/racmo_interp_daily.py:92-95 | hgtsrf values are scaled 86400 times as much as smb values |
| Loader.FileProblem | SMBcorr/racmo_interp_daily.py:109-126 | a file is readable exactly when its block fits the buffer and its units give six numbers |
| Loader.FirstProblem | SMBcorr/racmo_interp_daily.py:105-126 | the file loop gets through exactly when every file is readable |
| Loader.FirstProblemIsFirst | SMBcorr/racmo_interp_daily.py:105-126 | a failing loop stops at a file whose problem it reports, and every earlier file was readable |
| Loader.PrefixProblem | SMBcorr/racmo_interp_daily.py:105-126 | the first problem of the files is the first bad file's problem, whatever follows it |
| Loader.Epochs | SMBcorr/racmo_interp_daily.py:124-127 | each readable file's epoch is calc_julian_day, as written, of its parsed units |
| Loader.RacmoEpochDay | SMBcorr/racmo_interp_daily.py:124-127 | a file with the RACMO units is readable and its epoch is Julian day 2433282.5 |
| Loader.LastCovering | SMBcorr/racmo_interp_daily.py:103-112 | a row is owned by the last file that has that many steps, or by none when no file reaches it |
| Loader.CoveringStep | SMBcorr/racmo_interp_daily.py:105-112 | one more file takes over exactly the rows it has steps for |
| Loader.LoadedValueStep | SMBcorr/racmo_interp_daily.py:112 | a file overwrites its rows with scale x raw value and leaves the others |
| Loader.LoadedMaskStep | SMBcorr/racmo_interp_daily.py:112-114 | a file sets the mask of its rows to raw == fv and leaves the others |
| Loader.LoadedTimeStep | SMBcorr/racmo_interp_daily.py:123-132 | a file sets its rows' times to the decimal year of epoch + delta and leaves the others |
| Loader.Load | SMBcorr/racmo_interp_daily.py:97-132 | fresh nt-row buffers; the reported problem is the first bad file's; with none, the buffers hold the loaded values, masks and times |
| Loader.NewBuffers | SMBcorr/racmo_interp_daily.py:97-101 | nt rows of zeros, unmasked, with time 0: what no file has written yet |
| Loader.ReadAll | SMBcorr/racmo_interp_daily.py:105-132 | the file loop from the first file reports the first problem or leaves the buffers loaded from every file |
| Loader.ReadFrom | SMBcorr/racmo_interp_daily.py:105-132 | the file loop from file i on keeps what the earlier files wrote and adds the rest, or reports the first problem |
| Loader.ReadNext | SMBcorr/racmo_interp_daily.py:105-132 | reading one more readable file extends what the buffers hold by that file |
| Loader.AddFile | SMBcorr/racmo_interp_daily.py:107-132 | writing file i makes the buffers hold files 0..i |
| Loader.WriteFile | SMBcorr/racmo_interp_daily.py:109-132 | rows 0..t-1 take the file's scaled values, fill-value mask and decimal times; every other row is unchanged |
| Loader.RowsBeyondEveryFile | SMBcorr/racmo_interp_daily.py:97-112 | a row no file reaches holds 0, unmasked, with time 0 |
| Loader.TwoOneStepFiles | SMBcorr/racmo_interp_daily.py:103-112 | with two one-step files, row 0 holds the second file's value and row 1 is never written |
| Numerics.AsBoolOfAsReal | SMBcorr/racmo_interp_daily.py:200 | a mask read as numbers and stored back as booleans is unchanged |
| Smoother.AnyMasked | SMBcorr/racmo_interp_daily.py:135 | np.any over time: some step masks the cell |
| Smoother.StaticMask | SMBcorr/racmo_interp_daily.py:135 | a cell's static mask is 1 exactly when no step masks it and 0 exactly when some step does |
| Smoother.RetainedIff | SMBcorr/racmo_interp_daily.py:141 | ceil(w) == 1 exactly when 0 < w ≤ 1 |
| Smoother.RetainedIffUnmasked | SMBcorr/racmo_interp_daily.py:141 | for a weight in [0, 1], a cell is kept exactly when its weight is not 0 |
| Smoother.ColumnSumAppend | SMBcorr/racmo_interp_daily.py:165-166 | the running sum over two runs of steps is the sum of their sums |
| Smoother.CumulativeDifference | SMBcorr/racmo_interp_daily.py:165-166 | consecutive cumulative rows differ by exactly that step's smoothed field |
| Smoother.Smooth | SMBcorr/racmo_interp_daily.py:134-167 | weights are the filtered static mask; every step's smoothed row, its running sum and both masks ("weight is 0") are in place |
| Smoother.Advance | SMBcorr/racmo_interp_daily.py:150-167 | one more pass of the time loop keeps the running total and the filled rows in step |
| Smoother.SmoothStep | SMBcorr/racmo_interp_daily.py:150-167 | step t writes its smoothed row, adds it to the running total and sets both masks, leaving other rows unchanged |
| Smoother.WriteSmoothedRow | SMBcorr/racmo_interp_daily.py:152-161 | row t of the smoothed field is written and no other row changes |
| Resolver.MinOf | SMBcorr/racmo_interp_daily.py:191 | the minimum is below every time and is one of them |
| Resolver.MaxOf | SMBcorr/racmo_interp_daily.py:191 | the maximum is above every time and is one of them |
| Resolver.Where | SMBcorr/racmo_interp_daily.py:193-194 | np.nonzero lists exactly the true positions, in increasing order |
| Resolver.AnyTrue | SMBcorr/racmo_interp_daily.py:232 | np.any is true exactly when some entry is |
| Resolver.KindMeaning | SMBcorr/racmo_interp_daily.py:187-262 | kind 0 iff outside the hull; 1 iff some step is at or before and some at or after the time; 2 iff before every step; 3 iff after every step |
| Resolver.OutsideHull | SMBcorr/racmo_interp_daily.py:183-188 | a point outside the hull is masked only when the fill value is 0, and holds 0 unless a truthy FILL_VALUE replaces it |
| Resolver.FillPassOutcome | SMBcorr/racmo_interp_daily.py:264-270 | a point ends masked iff it was masked or equals the fill value; a truthy FILL_VALUE replaces masked values; unmasked values differ from the fill value |
| Resolver.FillPassIdempotent | SMBcorr/racmo_interp_daily.py:264-270 | running the fill pass twice gives the same data and mask as once |
| Resolver.AnswersShape | SMBcorr/racmo_interp_daily.py:183-270 | one answer per query, kinds in 0..3; with a truthy FILL_VALUE every masked answer holds it; no unmasked answer equals the fill value |
| Resolver.ConstantMaskRows | SMBcorr/racmo_interp_daily.py:222-232 | when every step's mask is the same, the extrapolated mask is that one mask interpolated at the point |
| Resolver.Resolve | SMBcorr/racmo_interp_daily.py:183-270 | the output arrays equal the answers: each point's kind, its mask and value after the fill pass, and the output's fill value |
| Resolver.Stages | SMBcorr/racmo_interp_daily.py:183-262 | after the three stages each point holds the answer of its kind: interpolated, regressed backward or forward, or 0 and unmasked |
| Resolver.Interpolate | SMBcorr/racmo_interp_daily.py:190-206 | the selected points take the grid-interpolated value and mask and kind 1; the others are unchanged |
| Resolver.ExtrapolateAny | SMBcorr/racmo_interp_daily.py:208-262 | when any point is selected, each takes the regressed value, the any-masked flag and the stage's kind; the others are unchanged |
| Resolver.Extrapolate | SMBcorr/racmo_interp_daily.py:211-234 | the same for a non-empty selection given as np.nonzero indices |
| Resolver.SampleSeries | SMBcorr/racmo_interp_daily.py:215-226 | row n of DATA and MASK is the spline series of the n-th selected point |
| Resolver.SampleStep | SMBcorr/racmo_interp_daily.py:218-226 | column k of DATA and MASK is filled and no other column changes |
| Resolver.RegressPoints | SMBcorr/racmo_interp_daily.py:228-230 | each selected point takes the regression of its own series, and the other points are unchanged |
| Resolver.FillPass | SMBcorr/racmo_interp_daily.py:264-270 | in place: mask becomes mask or value == fill value; with a truthy FILL_VALUE masked values become it, and it is the output's fill value |
| Pipeline.SelectedFiles | SMBcorr/racmo_interp_daily.py:66-78 | the files read are the matched entries for the query's years, as a name-sorted permutation |
| Pipeline.NoneSelected | SMBcorr/racmo_interp_daily.py:78 | when no entry matches, nothing is selected |
| Pipeline.NothingMatches | SMBcorr/racmo_interp_daily.py:78-89 | when no entry matches, the call fails with NoFiles |
| Pipeline.NoFailure | SMBcorr/racmo_interp_daily.py:63-132 | when nothing fails, the query and selection are non-empty, the variable scales, and every file fits with at least one step |
| Pipeline.NoLoadFailure | SMBcorr/racmo_interp_daily.py:80-132 | the same once the files are chosen |
| Pipeline.ReadableWhenNoProblem | SMBcorr/racmo_interp_daily.py:105-126 | when no file has a problem, every file fits the grid |
| Pipeline.RecordOf | SMBcorr/racmo_interp_daily.py:134-167 | the record built from the files is well formed: one cumulative row and mask row per step |
| Pipeline.KeptCells | SMBcorr/racmo_interp_daily.py:141 | the kept-cell indices are cells of the grid |
| Pipeline.HullPointsAreKeptCells | SMBcorr/racmo_interp_daily.py:177-178 | the hull's points are exactly the coordinates of the kept cells |
| Pipeline.QueryOf | SMBcorr/racmo_interp_daily.py:179-181 | one hull flag per query point, with the query's own times and coordinates |
| Pipeline.OutputShape | SMBcorr/racmo_interp_daily.py:183-273 | a successful call answers every query with kind 0..3; with a truthy FILL_VALUE masked answers hold it; no unmasked answer equals the last file's fill value |
| Pipeline.LastRowUncovered | SMBcorr/racmo_interp_daily.py:81-112 | with two or more non-empty files, the last buffer row is written by no file |
| Pipeline.NoBackwardExtrapolation | SMBcorr/racmo_interp_daily.py:97-112 | if some row is written by no file, its time 0 is the record's earliest, so no query time ≥ 0 gets kind 2 |
| Pipeline.ExtrapolatedMaskIsStatic | SMBcorr/racmo_interp_daily.py:163-232 | the extrapolated mask is the spline of "weight is 0" at the point, the same at every step |
| Pipeline.InterpolateRacmoDaily | SMBcorr/racmo_interp_daily.py:63-273 | with the source's defaults (variable "smb", sigma 1.5, no fill value), the procedure returns the first failure in the code's order, or the answers for the record and query built from the selected files |
| Pipeline.ExpectedAnswers | SMBcorr/racmo_interp_daily.py:63-273 | when nothing fails, the result is the answers for the selected files' record and query |
| Pipeline.Prepare | SMBcorr/racmo_interp_daily.py:134-181 | smoothing the loaded buffers and testing the hull give exactly RecordOf and QueryOf of the files |
| Pipeline.DataAsRows | SMBcorr/racmo_interp_daily.py:105-132 | the loaded data buffer, row by row, is the loaded field |
| Pipeline.MaskAsRows | SMBcorr/racmo_interp_daily.py:105-132 | the loaded mask buffer, row by row, is the loaded mask |
| Pipeline.TimeAsRows | SMBcorr/racmo_interp_daily.py:123-132 | the time buffer is the loaded times |
| Pipeline.CumulativeAsRows | SMBcorr/racmo_interp_daily.py:165-166 | the cumulative buffer, row by row, is the running sum of the smoothed rows |
| Pipeline.MaskAsConstantRows | SMBcorr/racmo_interp_daily.py:163-167 | every row of the cumulative mask is "weight is 0" |

## Left out

- Reading netCDF files is not modelled. Each directory entry is a value carrying what the code reads from it: axes, raw values, `_FillValue`, time offsets and units. netCDF4's auto-masking of fill values on read is not modelled either.
- `os.listdir` and `os.path.join(base_dir, ...)`: the directory listing is an input sequence, and `base_dir` plays no further part.
- `pyproj` (lines 171-174): the projected query coordinates `ix`, `iy` are inputs. The rotated-pole parameters, `lon` and `lat` (lines 116-121) are not carried.
- The numerical library calls are parameters of the model, and only where their results go is modelled:
  - `gaussian_filter`;
  - Delaunay's `find_simplex`;
  - `RegularGridInterpolator`;
  - `RectBivariateSpline`;
  - `regress_model`;
  - `convert_julian` with `convert_calendar_decimal`.
  Exceptions they raise (too few hull points, a query outside the interpolator's grid) are not modelled.
- Floating point is modelled as exact reals. NaN (and so the `nan` in `np.nanmin`/`np.nanmax`) and rounding are not modelled.
- The grid is flattened to a row-major sequence of cells, so a file whose block is the transpose of the buffer's (same cell count, ny ≠ nx) passes `Loader.ShapeFits`, although it would fail to broadcast at line 112.
- `np.squeeze` is modelled as giving a steps x cells block. The corner cases where it drops the time axis of a one-step file, or a grid axis of length one, are not modelled.
- Regular expressions: only what the file pattern uses is modelled. That is literal characters, `.`, top-level `|`, whitespace dropped by `re.VERBOSE`, and `re.match` anchoring at the start. Other metacharacters are not modelled; the variable name is assumed free of `|` where lemmas need it. In the units pattern of line 126, `\d` is read as the ASCII digits 0-9; Python 3 also matches other Unicode decimal digits there.
- `np.ma` masked-array bookkeeping beyond the `.data`/`.mask` pair is not modelled: propagation of masks through arithmetic, and `fill_value` on the intermediate arrays.
- InterpolateRacmoDaily: `RegularGridInterpolator` (line 196) raises an error unless the time axis is strictly ascending. That check is not modelled. With two or more non-empty files the last buffer row is never written (`Pipeline.LastRowUncovered`), so its time 0 follows positive times, and the program then fails whenever some valid point is to be interpolated. The model returns answers in that case.
- `TimeUnits.ParseEpoch`: its contract names only the year (first token) and the second (sixth token). Month, day, hour and minute come from tokens 2-5 in the same way, and the concrete RACMO units are pinned down in full by `TimeUnits.RacmoUnitsEpoch`.
- `Resolver.ExtrapolateAny` and `Resolver.Interpolate`: RGI and the splines are treated as total functions. A query inside the record's time span but outside the grid would raise an error in the library; this is not modelled.
- `np.int`, `np.float` and `np.bool` (removed in later NumPy versions) are read as their builtin meanings.

## Findings

| source | as written | input that shows it | evidently intended | confidence | as-written member | corrected member |
|---|---|---|---|---|---|---|
| SMBcorr/racmo_interp_daily.py:277-278 | the century term floors `(YEAR + (MONTH - 9.)/7.)/100.`, with real division, so for March-August `(MONTH-9)/7` counts as -1 instead of 0 | 1900-08-31 and 1900-09-01 get the same Julian day, and 1901-01-01 comes two days after 1900-12-31 | the integer-arithmetic formula, where `(MONTH-9)/7` truncates toward zero, giving consecutive Julian days across every Gregorian date | high (not executed) | JulianDay.CenturyYearCounterexample | JulianDay.GregorianDaysAreConsecutive |
