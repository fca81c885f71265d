/** Lines 183-273: each query point answered from the cumulative record,
    by interpolation inside the record's time span, by a regression
    backward before it and forward after it, and nothing outside the
    hull of the kept cells; then the fill-value pass. */
module Resolver {
  import opened Numerics
  import opened Failures

  /** What the queries are answered from: the decimal-year time of each
      step, the grid axes, the cumulative smoothed field and its mask
      (one row per step, cells row-major), and the record's fill value. */
  datatype Record = Record(time: seq<real>, x: seq<real>, y: seq<real>,
                           cumulative: seq<seq<real>>, cumMask: seq<seq<bool>>, fv: real)
  {
    predicate Valid()
    {
      |time| > 0 && |cumulative| == |time| && |cumMask| == |time|
    }
  }

  /** The query points: decimal-year time, model-projection coordinates,
      and whether the point lies in the hull of the kept cells. */
  datatype Query = Query(tdec: seq<real>, ix: seq<real>, iy: seq<real>, valid: seq<bool>)
  {
    predicate Valid()
    {
      |ix| == |tdec| && |iy| == |tdec| && |valid| == |tdec|
    }
  }

  // ---------------------------------------------------------------------
  // Library reductions

  /** fd['time'].min() */
  function MinOf(s: seq<real>): (m: real)
    requires |s| > 0
    ensures forall k :: 0 <= k < |s| ==> m <= s[k]
    ensures exists k :: 0 <= k < |s| && m == s[k]
  {
    if |s| == 1 then s[0]
    else
      var rest := MinOf(s[1..]);
      assert forall k :: 1 <= k < |s| ==> s[k] == s[1..][k - 1];
      if s[0] <= rest then s[0] else rest
  }

  /** fd['time'].max() */
  function MaxOf(s: seq<real>): (m: real)
    requires |s| > 0
    ensures forall k :: 0 <= k < |s| ==> s[k] <= m
    ensures exists k :: 0 <= k < |s| && m == s[k]
  {
    if |s| == 1 then s[0]
    else
      var rest := MaxOf(s[1..]);
      assert forall k :: 1 <= k < |s| ==> s[k] == s[1..][k - 1];
      if s[0] >= rest then s[0] else rest
  }

  /** np.nonzero(b): the positions holding True, in increasing order. */
  function Where(b: seq<bool>): (ind: seq<nat>)
    ensures forall n :: 0 <= n < |ind| ==> ind[n] < |b| && b[ind[n]]
    ensures forall i :: 0 <= i < |b| && b[i] ==> i in ind
    ensures forall m, n :: 0 <= m < n < |ind| ==> ind[m] < ind[n]
  {
    if b == [] then []
    else
      var front := b[..|b| - 1];
      assert forall i :: 0 <= i < |front| ==> front[i] == b[i];
      var rest := Where(front);
      if b[|b| - 1] then rest + [|b| - 1] else rest
  }

  /** np.any over one row. */
  function AnyTrue(b: seq<bool>): (r: bool)
    ensures r <==> exists k :: 0 <= k < |b| && b[k]
  {
    if b == [] then false
    else
      assert forall k :: 1 <= k < |b| ==> b[k] == b[1..][k - 1];
      b[0] || AnyTrue(b[1..])
  }

  /** A boolean row read as 0/1 numbers. */
  function AsReals(m: seq<bool>): (r: seq<real>)
    ensures |r| == |m|
    ensures forall k :: 0 <= k < |m| ==> r[k] == AsReal(m[k])
  {
    seq(|m|, k requires 0 <= k < |m| => AsReal(m[k]))
  }

  /** Every row of a boolean field read as 0/1 numbers. */
  function AsRealRows(m: seq<seq<bool>>): (r: seq<seq<real>>)
    ensures |r| == |m|
    ensures forall t :: 0 <= t < |m| ==> r[t] == AsReals(m[t])
  {
    seq(|m|, t requires 0 <= t < |m| => AsReals(m[t]))
  }

  // ---------------------------------------------------------------------
  // The answer for one point

  /** interp_data.interpolation: 1 inside the record's time span, 2 before
      it, 3 after it, 0 outside the hull. */
  function Kind(rec: Record, q: Query, i: nat): nat
    requires rec.Valid() && q.Valid() && i < |q.tdec|
  {
    var t := q.tdec[i];
    if !q.valid[i] then 0
    else if MinOf(rec.time) <= t <= MaxOf(rec.time) then 1
    else if t < MinOf(rec.time) then 2
    else 3
  }

  /** The cumulative field spline-interpolated to one point, step by step
      (one row of DATA). */
  function Series(lib: Library, rec: Record, xq: real, yq: real): (s: seq<real>)
    requires rec.Valid()
    ensures |s| == |rec.time|
  {
    seq(|rec.time|, k requires 0 <= k < |rec.time| => lib.spline(rec.x, rec.y, rec.cumulative[k], xq, yq))
  }

  /** The cumulative mask spline-interpolated to one point, step by step
      (one row of MASK: any nonzero value stores True). */
  function MaskSeries(lib: Library, rec: Record, xq: real, yq: real): (s: seq<bool>)
    requires rec.Valid()
    ensures |s| == |rec.time|
  {
    seq(|rec.time|, k requires 0 <= k < |rec.time| => AsBool(lib.spline(rec.x, rec.y, AsReals(rec.cumMask[k]), xq, yq)))
  }

  /** regress_model over the point's series, relative to the given time. */
  function Regressed(lib: Library, rec: Record, q: Query, i: nat, relative: real): real
    requires rec.Valid() && q.Valid() && i < |q.tdec|
  {
    lib.regress(rec.time, Series(lib, rec, q.ix[i], q.iy[i]), q.tdec[i], relative)
  }

  /** np.any(MASK, axis=1) for the point. */
  predicate ExtrapolatedMask(lib: Library, rec: Record, q: Query, i: nat)
    requires rec.Valid() && q.Valid() && i < |q.tdec|
  {
    AnyTrue(MaskSeries(lib, rec, q.ix[i], q.iy[i]))
  }

  /** RGI over the cumulative field at the point. */
  function Interpolated(lib: Library, rec: Record, q: Query, i: nat): real
    requires q.Valid() && i < |q.tdec|
  {
    lib.gridInterp(rec.time, rec.y, rec.x, rec.cumulative, q.tdec[i], q.iy[i], q.ix[i])
  }

  /** MI over the cumulative mask at the point, stored into a boolean. */
  predicate InterpolatedMask(lib: Library, rec: Record, q: Query, i: nat)
    requires q.Valid() && i < |q.tdec|
  {
    AsBool(lib.gridInterp(rec.time, rec.y, rec.x, AsRealRows(rec.cumMask), q.tdec[i], q.iy[i], q.ix[i]))
  }

  /** The value the three stages leave at a point, before the fill pass. */
  function AnswerData(lib: Library, rec: Record, q: Query, i: nat): real
    requires rec.Valid() && q.Valid() && i < |q.tdec|
  {
    match Kind(rec, q, i)
    case 1 => Interpolated(lib, rec, q, i)
    case 2 => Regressed(lib, rec, q, i, rec.time[0])
    case 3 => Regressed(lib, rec, q, i, rec.time[|rec.time| - 1])
    case _ => 0.0
  }

  /** The mask the three stages leave at a point, before the fill pass. */
  predicate AnswerMask(lib: Library, rec: Record, q: Query, i: nat)
    requires rec.Valid() && q.Valid() && i < |q.tdec|
  {
    match Kind(rec, q, i)
    case 1 => InterpolatedMask(lib, rec, q, i)
    case 2 => ExtrapolatedMask(lib, rec, q, i)
    case 3 => ExtrapolatedMask(lib, rec, q, i)
    case _ => false
  }

  /** interp_data: the values, their mask, how each was obtained, and
      the fill value it carries. */
  datatype Output = Output(data: seq<real>, mask: seq<bool>, interpolation: seq<nat>, fillValue: real)

  /** What the procedure returns for the record and the queries. */
  function Answers(lib: Library, rec: Record, q: Query, f: Option<real>): (out: Output)
    requires rec.Valid() && q.Valid()
    ensures |out.data| == |out.mask| == |out.interpolation| == |q.tdec|
  {
    var n := |q.tdec|;
    Output(seq(n, i requires 0 <= i < n => FilledData(AnswerData(lib, rec, q, i), AnswerMask(lib, rec, q, i), rec.fv, f)),
           seq(n, i requires 0 <= i < n => FilledMask(AnswerData(lib, rec, q, i), AnswerMask(lib, rec, q, i), rec.fv)),
           seq(n, i requires 0 <= i < n => Kind(rec, q, i)),
           OutputFill(rec.fv, f))
  }

  // ---------------------------------------------------------------------
  // The fill-value pass

  /** `if FILL_VALUE:` -- None and 0 are false. */
  predicate Truthy(f: Option<real>)
  {
    f.Some? && f.value != 0.0
  }

  /** The fill value the output carries. */
  function OutputFill(fv: real, f: Option<real>): real
  {
    if Truthy(f) then f.value else fv
  }

  /** Lines 265-266: a point whose value equals the fill value is masked. */
  predicate FilledMask(d: real, m: bool, fv: real)
  {
    m || d == fv
  }

  /** Lines 268-270: with a truthy FILL_VALUE every masked point takes it. */
  function FilledData(d: real, m: bool, fv: real, f: Option<real>): real
  {
    if Truthy(f) && FilledMask(d, m, fv) then f.value else d
  }

  // ---------------------------------------------------------------------
  // Properties

  /** The four kinds split the query points by the record's time span:
      1 when some step is at or before the point and some at or after it,
      2 when every step is after it, 3 when every step is before it, and
      0 exactly for the points outside the hull. */
  lemma KindMeaning(rec: Record, q: Query, i: nat)
    requires rec.Valid() && q.Valid() && i < |q.tdec|
    ensures Kind(rec, q, i) == 0 <==> !q.valid[i]
    ensures Kind(rec, q, i) == 1 <==> q.valid[i] && (exists k :: 0 <= k < |rec.time| && rec.time[k] <= q.tdec[i])
                                                 && (exists k :: 0 <= k < |rec.time| && q.tdec[i] <= rec.time[k])
    ensures Kind(rec, q, i) == 2 <==> q.valid[i] && forall k :: 0 <= k < |rec.time| ==> q.tdec[i] < rec.time[k]
    ensures Kind(rec, q, i) == 3 <==> q.valid[i] && forall k :: 0 <= k < |rec.time| ==> rec.time[k] < q.tdec[i]
  {
    var t := q.tdec[i];
    var lo := MinOf(rec.time);
    var hi := MaxOf(rec.time);
    var kLo :| 0 <= kLo < |rec.time| && lo == rec.time[kLo];
    var kHi :| 0 <= kHi < |rec.time| && hi == rec.time[kHi];
    if (exists k :: 0 <= k < |rec.time| && rec.time[k] <= t) {
      var k :| 0 <= k < |rec.time| && rec.time[k] <= t;
      assert lo <= t;
    }
    if (exists k :: 0 <= k < |rec.time| && t <= rec.time[k]) {
      var k :| 0 <= k < |rec.time| && t <= rec.time[k];
      assert t <= hi;
    }
  }

  /** A point outside the hull keeps the zero it was created with and
      stays unmasked, unless the record's fill value is itself 0. */
  lemma OutsideHull(lib: Library, rec: Record, q: Query, i: nat, f: Option<real>)
    requires rec.Valid() && q.Valid() && i < |q.tdec| && !q.valid[i]
    ensures FilledMask(AnswerData(lib, rec, q, i), AnswerMask(lib, rec, q, i), rec.fv) <==> rec.fv == 0.0
    ensures FilledData(AnswerData(lib, rec, q, i), AnswerMask(lib, rec, q, i), rec.fv, f)
            == if Truthy(f) && rec.fv == 0.0 then f.value else 0.0
  {
    KindMeaning(rec, q, i);
  }

  /** After the fill pass no unmasked point holds the record's fill value,
      and with a truthy FILL_VALUE every masked point holds the output's
      fill value. */
  lemma FillPassOutcome(d: real, m: bool, fv: real, f: Option<real>)
    ensures !FilledMask(d, m, fv) ==> FilledData(d, m, fv, f) == d != fv
    ensures Truthy(f) && FilledMask(d, m, fv) ==> FilledData(d, m, fv, f) == OutputFill(fv, f)
    ensures FilledMask(d, m, fv) <==> m || d == fv
  {
  }

  /** The answers have one entry per query point, each of a known kind;
      with a truthy FILL_VALUE every masked point holds it, and no unmasked
      point holds the record's fill value. */
  lemma AnswersShape(lib: Library, rec: Record, q: Query, f: Option<real>)
    requires rec.Valid() && q.Valid()
    ensures var out := Answers(lib, rec, q, f);
            && (forall i :: 0 <= i < |q.tdec| ==> out.interpolation[i] <= 3)
            && (Truthy(f) ==> out.fillValue == f.value
                              && forall i :: 0 <= i < |q.tdec| && out.mask[i] ==> out.data[i] == f.value)
            && (forall i :: 0 <= i < |q.tdec| && !out.mask[i] ==> out.data[i] != rec.fv)
  {
    var out := Answers(lib, rec, q, f);
    forall i | 0 <= i < |q.tdec|
      ensures out.interpolation[i] <= 3
      ensures Truthy(f) && out.mask[i] ==> out.data[i] == f.value
      ensures !out.mask[i] ==> out.data[i] != rec.fv
    {
      FillPassOutcome(AnswerData(lib, rec, q, i), AnswerMask(lib, rec, q, i), rec.fv, f);
    }
  }

  /** Running the fill pass a second time changes nothing. */
  lemma FillPassIdempotent(d: real, m: bool, fv: real, f: Option<real>)
    ensures FilledMask(FilledData(d, m, fv, f), FilledMask(d, m, fv), fv) == FilledMask(d, m, fv)
    ensures FilledData(FilledData(d, m, fv, f), FilledMask(d, m, fv), fv, f) == FilledData(d, m, fv, f)
  {
  }

  /** The smoothing pass writes the same mask into every step of the
      cumulative record, so the extrapolated mask of a point is the
      spline of that one mask: np.any over the steps adds nothing. */
  lemma {:induction false} ConstantMaskRows(lib: Library, rec: Record, xq: real, yq: real)
    requires rec.Valid()
    requires forall k :: 0 <= k < |rec.cumMask| ==> rec.cumMask[k] == rec.cumMask[0]
    ensures AnyTrue(MaskSeries(lib, rec, xq, yq)) == AsBool(lib.spline(rec.x, rec.y, AsReals(rec.cumMask[0]), xq, yq))
  {
    var s := MaskSeries(lib, rec, xq, yq);
    var first := AsBool(lib.spline(rec.x, rec.y, AsReals(rec.cumMask[0]), xq, yq));
    assert s[0] == first;
    AllEqualAny(s, first);
  }

  /** A non-empty row whose entries are all equal is "any" of that entry. */
  lemma {:induction false} AllEqualAny(b: seq<bool>, v: bool)
    requires |b| > 0 && forall k :: 0 <= k < |b| ==> b[k] == v
    ensures AnyTrue(b) == v
  {
    if |b| > 1 {
      assert forall k :: 0 <= k < |b[1..]| ==> b[1..][k] == b[k + 1];
      AllEqualAny(b[1..], v);
    }
  }

  // ---------------------------------------------------------------------
  // The stages, writing into the output arrays in place

  /** Lines 183-270. */
  method Resolve(lib: Library, rec: Record, q: Query, fillValue: Option<real>)
    returns (data: array<real>, mask: array<bool>, kind: array<nat>, fill: real)
    requires rec.Valid() && q.Valid()
    ensures fresh(data) && fresh(mask) && fresh(kind)
    ensures data.Length == mask.Length == kind.Length == |q.tdec|
    ensures forall i :: 0 <= i < |q.tdec| ==> kind[i] == Kind(rec, q, i)
    ensures forall i :: 0 <= i < |q.tdec| ==>
              mask[i] == FilledMask(AnswerData(lib, rec, q, i), AnswerMask(lib, rec, q, i), rec.fv)
    ensures forall i :: 0 <= i < |q.tdec| ==>
              data[i] == FilledData(AnswerData(lib, rec, q, i), AnswerMask(lib, rec, q, i), rec.fv, fillValue)
    ensures fill == OutputFill(rec.fv, fillValue)
    ensures Output(data[..], mask[..], kind[..], fill) == Answers(lib, rec, q, fillValue)
  {
    data, mask, kind := Stages(lib, rec, q);
    fill := FillPass(rec.fv, fillValue, data, mask);
    ghost var out := Answers(lib, rec, q, fillValue);
    assert data[..] == out.data;
    assert mask[..] == out.mask;
    assert kind[..] == out.interpolation;
  }

  /** Lines 183-262: the output arrays created empty, then the three
      stages, each on its own points. */
  method Stages(lib: Library, rec: Record, q: Query)
    returns (data: array<real>, mask: array<bool>, kind: array<nat>)
    requires rec.Valid() && q.Valid()
    ensures fresh(data) && fresh(mask) && fresh(kind)
    ensures Answered(lib, rec, q, data, mask, kind)
  {
    var npts := |q.tdec|;
    data := new real[npts](_ => 0.0);
    mask := new bool[npts](_ => false);
    kind := new nat[npts](_ => 0);
    var tmin := MinOf(rec.time);
    var tmax := MaxOf(rec.time);
    var inside := seq(npts, i requires 0 <= i < npts => tmin <= q.tdec[i] <= tmax && q.valid[i]);
    Interpolate(lib, rec, q, inside, data, mask, kind);
    ghost var d1, m1, k1 := data[..], mask[..], kind[..];
    var before := seq(npts, i requires 0 <= i < npts => q.tdec[i] < tmin && q.valid[i]);
    ExtrapolateAny(lib, rec, q, before, rec.time[0], 2, data, mask, kind);
    ghost var d2, m2, k2 := data[..], mask[..], kind[..];
    var after := seq(npts, i requires 0 <= i < npts => q.tdec[i] > tmax && q.valid[i]);
    ExtrapolateAny(lib, rec, q, after, rec.time[|rec.time| - 1], 3, data, mask, kind);
    forall i | 0 <= i < npts
      ensures data[i] == AnswerData(lib, rec, q, i) && mask[i] == AnswerMask(lib, rec, q, i)
      ensures kind[i] == Kind(rec, q, i)
    {
      if after[i] {
        assert Kind(rec, q, i) == 3;
      } else if before[i] {
        assert data[i] == d2[i] && mask[i] == m2[i] && kind[i] == k2[i];
        assert Kind(rec, q, i) == 2;
      } else if inside[i] {
        assert data[i] == d1[i] && mask[i] == m1[i] && kind[i] == k1[i];
        assert Kind(rec, q, i) == 1;
      } else {
        assert data[i] == d1[i] && mask[i] == m1[i] && kind[i] == k1[i];
        assert Kind(rec, q, i) == 0;
      }
    }
  }

  /** Lines 209-210 (and 237-238): extrapolation runs only when some
      point is selected. */
  method ExtrapolateAny(lib: Library, rec: Record, q: Query, sel: seq<bool>, relative: real, side: nat,
                        data: array<real>, mask: array<bool>, kind: array<nat>)
    requires rec.Valid() && q.Valid() && |sel| == |q.tdec| == data.Length == mask.Length == kind.Length
    modifies data, mask, kind
    ensures forall i :: 0 <= i < |sel| ==>
              data[i] == (if sel[i] then Regressed(lib, rec, q, i, relative) else old(data[i]))
    ensures forall i :: 0 <= i < |sel| ==>
              mask[i] == (if sel[i] then ExtrapolatedMask(lib, rec, q, i) else old(mask[i]))
    ensures forall i :: 0 <= i < |sel| ==> kind[i] == (if sel[i] then side else old(kind[i]))
  {
    var ind := Where(sel);
    if |ind| > 0 {
      Extrapolate(lib, rec, q, sel, ind, relative, side, data, mask, kind);
    } else {
      assert forall i :: 0 <= i < |sel| ==> !sel[i];
    }
  }

  /** Every point holds its answer from the three stages. */
  ghost predicate Answered(lib: Library, rec: Record, q: Query, data: array<real>, mask: array<bool>, kind: array<nat>)
    requires rec.Valid() && q.Valid()
    reads data, mask, kind
  {
    && data.Length == mask.Length == kind.Length == |q.tdec|
    && forall i :: 0 <= i < |q.tdec| ==>
         data[i] == AnswerData(lib, rec, q, i) && mask[i] == AnswerMask(lib, rec, q, i) && kind[i] == Kind(rec, q, i)
  }

  /** Lines 190-206: the points to interpolate take the RGI values of the
      cumulative field and of its mask, and kind 1. */
  method Interpolate(lib: Library, rec: Record, q: Query, inside: seq<bool>,
                     data: array<real>, mask: array<bool>, kind: array<nat>)
    requires q.Valid() && |inside| == |q.tdec| == data.Length == mask.Length == kind.Length
    modifies data, mask, kind
    ensures forall i :: 0 <= i < |inside| ==>
              data[i] == (if inside[i] then Interpolated(lib, rec, q, i) else old(data[i]))
    ensures forall i :: 0 <= i < |inside| ==>
              mask[i] == (if inside[i] then InterpolatedMask(lib, rec, q, i) else old(mask[i]))
    ensures forall i :: 0 <= i < |inside| ==> kind[i] == (if inside[i] then 1 else old(kind[i]))
  {
    forall i | 0 <= i < |inside| && inside[i] {
      data[i] := Interpolated(lib, rec, q, i);
    }
    forall i | 0 <= i < |inside| && inside[i] {
      mask[i] := InterpolatedMask(lib, rec, q, i);
    }
    forall i | 0 <= i < |inside| && inside[i] {
      kind[i] := 1;
    }
  }

  /** Lines 211-234 (and 239-262), one side: the series of the selected
      points are spline-interpolated step by step into DATA and MASK, each point's
      value is regressed from its row of DATA relative to the given time,
      its mask is "any" of its row of MASK, and its kind is set. */
  method Extrapolate(lib: Library, rec: Record, q: Query, sel: seq<bool>, ind: seq<nat>, relative: real, side: nat,
                     data: array<real>, mask: array<bool>, kind: array<nat>)
    requires rec.Valid() && q.Valid() && |sel| == |q.tdec| == data.Length == mask.Length == kind.Length
    requires ind == Where(sel)
    modifies data, mask, kind
    ensures forall i :: 0 <= i < |sel| ==>
              data[i] == (if sel[i] then Regressed(lib, rec, q, i, relative) else old(data[i]))
    ensures forall i :: 0 <= i < |sel| ==>
              mask[i] == (if sel[i] then ExtrapolatedMask(lib, rec, q, i) else old(mask[i]))
    ensures forall i :: 0 <= i < |sel| ==> kind[i] == (if sel[i] then side else old(kind[i]))
  {
    var series, flags := SampleSeries(lib, rec, q, ind);
    RegressPoints(lib, rec, q, ind, relative, series, data);
    forall n | 0 <= n < |ind| {
      mask[ind[n]] := AnyTrue(Row(flags, n));
    }
    forall n | 0 <= n < |ind| {
      kind[ind[n]] := side;
    }
    forall i | 0 <= i < |sel|
      ensures mask[i] == (if sel[i] then ExtrapolatedMask(lib, rec, q, i) else old(mask[i]))
      ensures kind[i] == (if sel[i] then side else old(kind[i]))
    {
      if sel[i] {
        var n :| 0 <= n < |ind| && ind[n] == i;
        assert Row(flags, n) == MaskSeries(lib, rec, q.ix[i], q.iy[i]);
      } else {
        assert i !in ind;
      }
    }
  }

  /** Row n of a two-dimensional array. */
  function Row<T>(a: array2<T>, n: nat): (r: seq<T>)
    requires n < a.Length0
    reads a
    ensures |r| == a.Length1 && forall k :: 0 <= k < a.Length1 ==> r[k] == a[n, k]
  {
    seq(a.Length1, k requires 0 <= k < a.Length1 reads a => a[n, k])
  }

  /** A snapshot of a two-dimensional array, row by row. */
  function Rows<T>(a: array2<T>): (rows: seq<seq<T>>)
    reads a
    ensures |rows| == a.Length0
    ensures forall n :: 0 <= n < a.Length0 ==> |rows[n]| == a.Length1
    ensures forall n, k :: 0 <= n < a.Length0 && 0 <= k < a.Length1 ==> rows[n][k] == a[n, k]
  {
    seq(a.Length0, n requires 0 <= n < a.Length0 reads a => Row(a, n))
  }

  /** Lines 215-226 (and 243-254): for each step, DATA[:, k] and MASK[:, k]
      at every selected point. */
  method SampleSeries(lib: Library, rec: Record, q: Query, ind: seq<nat>)
    returns (series: array2<real>, flags: array2<bool>)
    requires rec.Valid() && q.Valid()
    requires forall n :: 0 <= n < |ind| ==> ind[n] < |q.tdec|
    ensures series.Length0 == flags.Length0 == |ind|
    ensures series.Length1 == flags.Length1 == |rec.time|
    ensures forall n :: 0 <= n < |ind| ==> Row(series, n) == Series(lib, rec, q.ix[ind[n]], q.iy[ind[n]])
    ensures forall n :: 0 <= n < |ind| ==> Row(flags, n) == MaskSeries(lib, rec, q.ix[ind[n]], q.iy[ind[n]])
  {
    var count := |ind|;
    var nt := |rec.time|;
    series := new real[count, nt]((_, _) => 0.0);
    flags := new bool[count, nt]((_, _) => false);
    for k := 0 to nt
      invariant forall n, j :: 0 <= n < count && 0 <= j < k ==>
                  series[n, j] == Series(lib, rec, q.ix[ind[n]], q.iy[ind[n]])[j]
      invariant forall n, j :: 0 <= n < count && 0 <= j < k ==>
                  flags[n, j] == MaskSeries(lib, rec, q.ix[ind[n]], q.iy[ind[n]])[j]
    {
      SampleStep(lib, rec, q, ind, k, series, flags);
    }
  }

  /** Step k of the sampling: DATA[:, k] and MASK[:, k]. */
  method SampleStep(lib: Library, rec: Record, q: Query, ind: seq<nat>, k: nat,
                    series: array2<real>, flags: array2<bool>)
    requires rec.Valid() && q.Valid() && k < |rec.time|
    requires forall n :: 0 <= n < |ind| ==> ind[n] < |q.tdec|
    requires series.Length0 == flags.Length0 == |ind|
    requires series.Length1 == flags.Length1 == |rec.time|
    modifies series, flags
    ensures forall n, j :: 0 <= n < |ind| && 0 <= j < |rec.time| ==>
              series[n, j] == if j == k then Series(lib, rec, q.ix[ind[n]], q.iy[ind[n]])[k] else old(series[n, j])
    ensures forall n, j :: 0 <= n < |ind| && 0 <= j < |rec.time| ==>
              flags[n, j] == if j == k then MaskSeries(lib, rec, q.ix[ind[n]], q.iy[ind[n]])[k] else old(flags[n, j])
  {
    forall n | 0 <= n < |ind| {
      series[n, k] := lib.spline(rec.x, rec.y, rec.cumulative[k], q.ix[ind[n]], q.iy[ind[n]]);
    }
    forall n | 0 <= n < |ind| {
      flags[n, k] := AsBool(lib.spline(rec.x, rec.y, AsReals(rec.cumMask[k]), q.ix[ind[n]], q.iy[ind[n]]));
    }
  }

  /** Lines 228-230 (and 256-258): each selected point regressed from its
      row of DATA. */
  method RegressPoints(lib: Library, rec: Record, q: Query, ind: seq<nat>, relative: real,
                       series: array2<real>, data: array<real>)
    requires rec.Valid() && q.Valid() && data.Length == |q.tdec|
    requires forall n :: 0 <= n < |ind| ==> ind[n] < |q.tdec|
    requires forall m, n :: 0 <= m < n < |ind| ==> ind[m] < ind[n]
    requires series.Length0 == |ind| && series.Length1 == |rec.time|
    requires forall n :: 0 <= n < |ind| ==> Row(series, n) == Series(lib, rec, q.ix[ind[n]], q.iy[ind[n]])
    modifies data
    ensures forall i :: 0 <= i < data.Length ==>
              data[i] == (if i in ind then Regressed(lib, rec, q, i, relative) else old(data[i]))
  {
    for n := 0 to |ind|
      invariant forall i :: 0 <= i < data.Length ==>
                  data[i] == (if i in ind[..n] then Regressed(lib, rec, q, i, relative) else old(data[i]))
    {
      var v := ind[n];
      data[v] := lib.regress(rec.time, Row(series, n), q.tdec[v], relative);
      assert ind[..n + 1] == ind[..n] + [v];
    }
    assert ind[..|ind|] == ind;
  }

  /** Lines 264-270, in place.  Returns the output's fill value. */
  method FillPass(fv: real, fillValue: Option<real>, data: array<real>, mask: array<bool>) returns (fill: real)
    requires data.Length == mask.Length
    modifies data, mask
    ensures fill == OutputFill(fv, fillValue)
    ensures forall i :: 0 <= i < mask.Length ==> mask[i] == FilledMask(old(data[i]), old(mask[i]), fv)
    ensures forall i :: 0 <= i < data.Length ==> data[i] == FilledData(old(data[i]), old(mask[i]), fv, fillValue)
  {
    forall i | 0 <= i < data.Length && data[i] == fv {
      mask[i] := true;
    }
    fill := fv;
    if Truthy(fillValue) {
      fill := fillValue.value;
      forall i | 0 <= i < data.Length && mask[i] {
        data[i] := fill;
      }
    }
  }
}
