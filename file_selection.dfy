/** Which daily files are read: the year range of the query times, the
    file-name pattern built from it, and re.match of that pattern against
    each name in the directory, followed by sorted(). */
module FileSelection {
  import opened Failures
  import opened Decimal

  /** One entry of the RACMO directory: its name and what the loader reads
      from it (the grid axes rlon and rlat, the variable's raw values per
      time step with the grid flattened row by row, its _FillValue, the
      time offsets and the time units attribute). */
  datatype RacmoFile = RacmoFile(
    name: string,
    x: seq<real>,
    y: seq<real>,
    fillValue: real,
    raw: seq<seq<real>>,
    deltaTime: seq<real>,
    units: string)

  // ---------------------------------------------------------------------
  // Years to read

  /** np.nanmin(np.floor(tdec)) */
  function MinFloor(tdec: seq<real>): (m: int)
    requires |tdec| > 0
    ensures forall i :: 0 <= i < |tdec| ==> m <= tdec[i].Floor
    ensures exists i :: 0 <= i < |tdec| && m == tdec[i].Floor
  {
    if |tdec| == 1 then tdec[0].Floor
    else
      var rest := MinFloor(tdec[1..]);
      assert forall i :: 1 <= i < |tdec| ==> tdec[i] == tdec[1..][i - 1];
      if tdec[0].Floor <= rest then tdec[0].Floor else rest
  }

  /** np.nanmax(np.floor(tdec)) */
  function MaxFloor(tdec: seq<real>): (m: int)
    requires |tdec| > 0
    ensures forall i :: 0 <= i < |tdec| ==> tdec[i].Floor <= m
    ensures exists i :: 0 <= i < |tdec| && m == tdec[i].Floor
  {
    if |tdec| == 1 then tdec[0].Floor
    else
      var rest := MaxFloor(tdec[1..]);
      assert forall i :: 1 <= i < |tdec| ==> tdec[i] == tdec[1..][i - 1];
      if tdec[0].Floor >= rest then tdec[0].Floor else rest
  }

  /** SY and EY; nanmin of an empty array raises, so no query time is an error. */
  function YearRange(tdec: seq<real>): (r: Result<(int, int)>)
    ensures r.Err? <==> |tdec| == 0
    ensures r.Err? ==> r.error == EmptyQuery
    ensures r.Ok? ==> r.value.0 <= r.value.1
    ensures r.Ok? ==> forall i :: 0 <= i < |tdec| ==> r.value.0 <= tdec[i].Floor <= r.value.1
    ensures r.Ok? ==> (exists i :: 0 <= i < |tdec| && r.value.0 == tdec[i].Floor)
                      && (exists j :: 0 <= j < |tdec| && r.value.1 == tdec[j].Floor)
  {
    if |tdec| == 0 then Err(EmptyQuery) else Ok((MinFloor(tdec), MaxFloor(tdec)))
  }

  /** range(SY, EY + 1) */
  function Years(sy: int, ey: int): (ys: seq<int>)
    ensures |ys| == if sy <= ey then ey - sy + 1 else 0
    ensures forall i :: 0 <= i < |ys| ==> ys[i] == sy + i
    decreases ey - sy
  {
    if sy > ey then [] else [sy] + Years(sy + 1, ey)
  }

  // ---------------------------------------------------------------------
  // The pattern text

  /** '{0:4d}'.format(y): the decimal form, right-aligned in four columns. */
  function FormatYear(y: int): (s: string)
  {
    PadLeft(IntToString(y), 4)
  }

  function PadLeft(s: string, w: nat): (p: string)
    decreases w - |s|
  {
    if |s| >= w then s else PadLeft([' '] + s, w)
  }

  /** '|'.join(...) */
  function JoinYears(ys: seq<int>): string
  {
    if ys == [] then ""
    else if |ys| == 1 then FormatYear(ys[0])
    else FormatYear(ys[0]) + "|" + JoinYears(ys[1..])
  }

  function Prefix(variable: string): string
  {
    "RACMO2.3p2_FGRN055_" + variable + "_daily_"
  }

  /** 'RACMO2.3p2_FGRN055_{0}_daily_{1}.nc'.format(VARIABLE, YRS) */
  function FilePattern(variable: string, yrs: string): string
  {
    Prefix(variable) + yrs + ".nc"
  }

  // ---------------------------------------------------------------------
  // The pattern compiled with re.VERBOSE and applied with re.match

  /** Whitespace, which re.VERBOSE drops from a pattern. */
  predicate IsSpace(c: char)
  {
    c == ' ' || c == '\t' || c == '\n' || c == '\r' || c == 11 as char || c == 12 as char
  }

  datatype Atom = Any | Lit(c: char)

  /** '.' matches every character but a newline; any other atom itself. */
  predicate AtomMatches(a: Atom, c: char)
  {
    match a
    case Any => c != '\n'
    case Lit(l) => c == l
  }

  /** One alternative: whitespace dropped, '.' the wildcard, the rest literal. */
  function Compile(alt: string): (p: seq<Atom>)
    ensures |p| <= |alt|
  {
    if alt == [] then []
    else if IsSpace(alt[0]) then Compile(alt[1..])
    else [if alt[0] == '.' then Any else Lit(alt[0])] + Compile(alt[1..])
  }

  /** Index of the first '|' of s, |s| when there is none. */
  function FirstBar(s: string): (i: nat)
    ensures i <= |s|
    ensures forall j :: 0 <= j < i ==> s[j] != '|'
    ensures i < |s| ==> s[i] == '|'
  {
    if s == [] || s[0] == '|' then 0 else 1 + FirstBar(s[1..])
  }

  /** The alternatives of a pattern without groups: its text cut at each '|'. */
  function Split(s: string): (parts: seq<string>)
    ensures |parts| >= 1
    decreases |s|
  {
    var i := FirstBar(s);
    if i == |s| then [s] else [s[..i]] + Split(s[i + 1..])
  }

  /** re.match: the alternative compiles to atoms matching a prefix of name. */
  predicate PrefixMatches(p: seq<Atom>, name: string)
  {
    |p| <= |name| && forall i :: 0 <= i < |p| ==> AtomMatches(p[i], name[i])
  }

  predicate SomeAlternativeMatches(alts: seq<string>, name: string)
  {
    exists k :: 0 <= k < |alts| && PrefixMatches(Compile(alts[k]), name)
  }

  /** rx.match(name) for rx = re.compile(pattern, re.VERBOSE). */
  predicate Matches(pattern: string, name: string)
  {
    SomeAlternativeMatches(Split(pattern), name)
  }

  /** [fi for fi in os.listdir(DIRECTORY) if rx.match(fi)] */
  function SelectFiles(pattern: string, listing: seq<RacmoFile>): (sel: seq<RacmoFile>)
    ensures forall f :: f in sel <==> f in listing && Matches(pattern, f.name)
    ensures |sel| <= |listing|
  {
    if listing == [] then []
    else (if Matches(pattern, listing[0].name) then [listing[0]] else [])
         + SelectFiles(pattern, listing[1..])
  }

  // ---------------------------------------------------------------------
  // sorted(input_files): by name, code point by code point

  predicate LexLe(a: string, b: string)
  {
    a == [] || (b != [] && (a[0] < b[0] || (a[0] == b[0] && LexLe(a[1..], b[1..]))))
  }

  lemma {:induction false} LexTotal(a: string, b: string)
    ensures LexLe(a, b) || LexLe(b, a)
  {
    if a != [] && b != [] && a[0] == b[0] {
      LexTotal(a[1..], b[1..]);
    }
  }

  predicate SortedByName(fs: seq<RacmoFile>)
  {
    forall i :: 0 < i < |fs| ==> LexLe(fs[i - 1].name, fs[i].name)
  }

  function Insert(f: RacmoFile, fs: seq<RacmoFile>): (r: seq<RacmoFile>)
    requires SortedByName(fs)
    ensures SortedByName(r)
    ensures multiset(r) == multiset(fs) + multiset{f}
    ensures |r| == |fs| + 1
    ensures r[0] == f || (fs != [] && r[0] == fs[0])
  {
    if fs == [] then [f]
    else if LexLe(f.name, fs[0].name) then [f] + fs
    else
      LexTotal(f.name, fs[0].name);
      var rest := Insert(f, fs[1..]);
      assert fs == [fs[0]] + fs[1..];
      [fs[0]] + rest
  }

  function SortByName(fs: seq<RacmoFile>): (r: seq<RacmoFile>)
    ensures SortedByName(r)
    ensures multiset(r) == multiset(fs)
  {
    if fs == [] then []
    else
      assert fs == [fs[0]] + fs[1..];
      Insert(fs[0], SortByName(fs[1..]))
  }

  // ---------------------------------------------------------------------
  // What the ungrouped alternation selects

  /** The alternatives from the second year on: the bare later years, the
      last one still carrying the ".nc" that follows the alternation. */
  function TailAlternatives(zs: seq<int>): (alts: seq<string>)
    requires |zs| >= 1
    ensures |alts| == |zs|
  {
    if |zs| == 1 then [FormatYear(zs[0]) + ".nc"]
    else [FormatYear(zs[0])] + TailAlternatives(zs[1..])
  }

  lemma IntToStringHasNoBar(i: int)
    ensures forall j :: 0 <= j < |IntToString(i)| ==> IntToString(i)[j] != '|'
  {
    var s := NatToString(if i < 0 then -i else i);
    assert forall j :: 0 <= j < |s| ==> IsDigit(s[j]);
  }

  lemma {:induction false} PadLeftKeeps(s: string, w: nat, c: char)
    requires forall j :: 0 <= j < |s| ==> s[j] != c
    requires c != ' '
    ensures forall j :: 0 <= j < |PadLeft(s, w)| ==> PadLeft(s, w)[j] != c
    decreases w - |s|
  {
    if |s| < w {
      PadLeftKeeps([' '] + s, w, c);
    }
  }

  lemma FormatYearHasNoBar(y: int)
    ensures FirstBar(FormatYear(y)) == |FormatYear(y)|
  {
    IntToStringHasNoBar(y);
    PadLeftKeeps(IntToString(y), 4, '|');
  }

  lemma {:induction false} FirstBarOfConcat(a: string, b: string)
    requires FirstBar(a) == |a|
    ensures FirstBar(a + b) == |a| + FirstBar(b)
  {
    if a != [] {
      assert a[0] != '|' && FirstBar(a[1..]) == |a| - 1;
      assert (a + b)[0] == a[0];
      assert (a + b)[1..] == a[1..] + b;
      FirstBarOfConcat(a[1..], b);
      assert FirstBar(a + b) == 1 + FirstBar((a + b)[1..]);
    } else {
      assert a + b == b;
    }
  }

  /** Text free of '|' followed by '|' is one alternative and then the rest. */
  lemma SplitAtBar(a: string, b: string)
    requires FirstBar(a) == |a|
    ensures Split(a + "|" + b) == [a] + Split(b)
  {
    FirstBarOfConcat(a, "|" + b);
    var s := a + "|" + b;
    assert s == a + ("|" + b);
    assert FirstBar("|" + b) == 0;
    assert FirstBar(s) == |a|;
    assert s[..|a|] == a;
    assert s[|a| + 1..] == b;
  }

  lemma SplitWhole(a: string)
    requires FirstBar(a) == |a|
    ensures Split(a) == [a]
  {
  }

  lemma {:induction false} SplitTail(zs: seq<int>)
    requires |zs| >= 1
    ensures Split(JoinYears(zs) + ".nc") == TailAlternatives(zs)
  {
    FormatYearHasNoBar(zs[0]);
    if |zs| == 1 {
      FirstBarOfConcat(FormatYear(zs[0]), ".nc");
      SplitWhole(FormatYear(zs[0]) + ".nc");
    } else {
      assert JoinYears(zs) + ".nc" == FormatYear(zs[0]) + "|" + (JoinYears(zs[1..]) + ".nc");
      SplitAtBar(FormatYear(zs[0]), JoinYears(zs[1..]) + ".nc");
      SplitTail(zs[1..]);
    }
  }

  predicate NoBar(s: string)
  {
    forall j :: 0 <= j < |s| ==> s[j] != '|'
  }

  lemma {:induction false} FirstBarOfNoBar(s: string)
    requires NoBar(s)
    ensures FirstBar(s) == |s|
  {
    if s != [] {
      FirstBarOfNoBar(s[1..]);
    }
  }

  lemma PrefixHasNoBar(variable: string)
    requires NoBar(variable)
    ensures FirstBar(Prefix(variable)) == |Prefix(variable)|
  {
    var p := Prefix(variable);
    assert forall j :: 0 <= j < |p| ==> p[j] != '|' by {
      forall j | 0 <= j < |p| ensures p[j] != '|' {
        if j < 19 {
          assert p[j] == "RACMO2.3p2_FGRN055_"[j];
        } else if j < 19 + |variable| {
          assert p[j] == variable[j - 19];
        } else {
          assert p[j] == "_daily_"[j - 19 - |variable|];
        }
      }
    }
    FirstBarOfNoBar(p);
  }

  /** With one year the pattern is the whole file name of that year. */
  lemma OneYearAlternative(variable: string, y: int)
    requires NoBar(variable)
    ensures Split(FilePattern(variable, JoinYears([y]))) == [Prefix(variable) + FormatYear(y) + ".nc"]
  {
    var p := Prefix(variable);
    PrefixHasNoBar(variable);
    FormatYearHasNoBar(y);
    FirstBarOfConcat(FormatYear(y), ".nc");
    FirstBarOfConcat(p, FormatYear(y) + ".nc");
    assert FilePattern(variable, JoinYears([y])) == p + (FormatYear(y) + ".nc");
    assert p + (FormatYear(y) + ".nc") == p + FormatYear(y) + ".nc";
    SplitWhole(FilePattern(variable, JoinYears([y])));
  }

  lemma PatternAtFirstBar(p: string, first: string, rest: string)
    ensures p + (first + "|" + rest) + ".nc" == (p + first) + "|" + (rest + ".nc")
  {
  }

  /** With more years: the prefix and the first year, then each later year
      bare, the last one followed by ".nc". */
  lemma ManyYearAlternatives(variable: string, ys: seq<int>)
    requires NoBar(variable) && |ys| >= 2
    ensures Split(FilePattern(variable, JoinYears(ys)))
            == [Prefix(variable) + FormatYear(ys[0])] + TailAlternatives(ys[1..])
  {
    var p := Prefix(variable);
    PrefixHasNoBar(variable);
    FormatYearHasNoBar(ys[0]);
    FirstBarOfConcat(p, FormatYear(ys[0]));
    PatternAtFirstBar(p, FormatYear(ys[0]), JoinYears(ys[1..]));
    SplitAtBar(p + FormatYear(ys[0]), JoinYears(ys[1..]) + ".nc");
    SplitTail(ys[1..]);
  }

  /** A name is selected iff it starts with the prefix and the first year
      (and, for a single year, ".nc"), or with one of the later years, the
      last one followed by any character and "nc". */
  lemma {:induction false} SelectedIff(variable: string, ys: seq<int>, name: string)
    requires NoBar(variable) && |ys| >= 1
    ensures |ys| == 1 ==>
      (Matches(FilePattern(variable, JoinYears(ys)), name)
       <==> PrefixMatches(Compile(Prefix(variable) + FormatYear(ys[0]) + ".nc"), name))
    ensures |ys| >= 2 ==>
      (Matches(FilePattern(variable, JoinYears(ys)), name)
       <==> (|| PrefixMatches(Compile(Prefix(variable) + FormatYear(ys[0])), name)
             || (exists j :: 1 <= j < |ys| - 1 && PrefixMatches(Compile(FormatYear(ys[j])), name))
             || PrefixMatches(Compile(FormatYear(ys[|ys| - 1]) + ".nc"), name)))
  {
    if |ys| >= 2 {
      SelectedIffMany(variable, ys, name);
    } else {
      assert ys == [ys[0]];
      OneYearAlternative(variable, ys[0]);
      var alts := Split(FilePattern(variable, JoinYears(ys)));
      assert PrefixMatches(Compile(alts[0]), name) ==> Matches(FilePattern(variable, JoinYears(ys)), name);
    }
  }

  lemma SelectedIffMany(variable: string, ys: seq<int>, name: string)
    requires NoBar(variable) && |ys| >= 2
    ensures Matches(FilePattern(variable, JoinYears(ys)), name)
            <==> (|| PrefixMatches(Compile(Prefix(variable) + FormatYear(ys[0])), name)
                  || (exists j :: 1 <= j < |ys| - 1 && PrefixMatches(Compile(FormatYear(ys[j])), name))
                  || PrefixMatches(Compile(FormatYear(ys[|ys| - 1]) + ".nc"), name))
  {
    var alts := Split(FilePattern(variable, JoinYears(ys)));
    YearAlternatives(variable, ys);
    FirstMiddleLast(alts, name);
    MiddleYears(alts, ys, name);
  }

  /** The alternatives of several years: the prefix with the first year,
      each middle year alone, and the last year with the extension. */
  lemma YearAlternatives(variable: string, ys: seq<int>)
    requires NoBar(variable) && |ys| >= 2
    ensures var alts := Split(FilePattern(variable, JoinYears(ys)));
            && |alts| == |ys|
            && alts[0] == Prefix(variable) + FormatYear(ys[0])
            && (forall j :: 1 <= j < |ys| - 1 ==> alts[j] == FormatYear(ys[j]))
            && alts[|ys| - 1] == FormatYear(ys[|ys| - 1]) + ".nc"
  {
    ManyYearAlternatives(variable, ys);
    var zs := ys[1..];
    var tail := TailAlternatives(zs);
    var alts := [Prefix(variable) + FormatYear(ys[0])] + tail;
    TailAlternativesAt(zs);
    forall j | 1 <= j < |ys| - 1
      ensures alts[j] == FormatYear(ys[j])
    {
      assert alts[j] == tail[j - 1] && zs[j - 1] == ys[j];
    }
    assert alts[|ys| - 1] == tail[|zs| - 1] && zs[|zs| - 1] == ys[|ys| - 1];
  }

  lemma MiddleYears(alts: seq<string>, ys: seq<int>, name: string)
    requires |alts| == |ys| && forall j :: 1 <= j < |ys| - 1 ==> alts[j] == FormatYear(ys[j])
    ensures (exists j :: 1 <= j < |ys| - 1 && PrefixMatches(Compile(FormatYear(ys[j])), name))
            <==> (exists j :: 1 <= j < |alts| - 1 && PrefixMatches(Compile(alts[j]), name))
  {
    if exists j :: 1 <= j < |ys| - 1 && PrefixMatches(Compile(FormatYear(ys[j])), name) {
      var j :| 1 <= j < |ys| - 1 && PrefixMatches(Compile(FormatYear(ys[j])), name);
      assert PrefixMatches(Compile(alts[j]), name);
    }
  }

  /** Some alternative matches exactly when the first, a middle or the last one does. */
  lemma FirstMiddleLast(alts: seq<string>, name: string)
    requires |alts| >= 2
    ensures SomeAlternativeMatches(alts, name)
            <==> (|| PrefixMatches(Compile(alts[0]), name)
                  || (exists j :: 1 <= j < |alts| - 1 && PrefixMatches(Compile(alts[j]), name))
                  || PrefixMatches(Compile(alts[|alts| - 1]), name))
  {
    if SomeAlternativeMatches(alts, name) {
      var k :| 0 <= k < |alts| && PrefixMatches(Compile(alts[k]), name);
      if 1 <= k < |alts| - 1 {
        assert PrefixMatches(Compile(alts[k]), name);
      }
    }
  }

  lemma {:induction false} TailAlternativesAt(zs: seq<int>)
    requires |zs| >= 1
    ensures forall j :: 0 <= j < |zs| - 1 ==> TailAlternatives(zs)[j] == FormatYear(zs[j])
    ensures TailAlternatives(zs)[|zs| - 1] == FormatYear(zs[|zs| - 1]) + ".nc"
  {
    if |zs| > 1 {
      TailAlternativesAt(zs[1..]);
      assert forall j :: 1 <= j < |zs| ==> zs[1..][j - 1] == zs[j];
    }
  }

  // ---------------------------------------------------------------------
  // Which year files that consequence reads

  /** The name of the daily file of one year. */
  function YearFile(variable: string, y: int): string
  {
    Prefix(variable) + IntToString(y) + ".nc"
  }

  predicate NoSpace(s: string)
  {
    forall j :: 0 <= j < |s| ==> !IsSpace(s[j])
  }

  lemma {:induction false} CompileAppend(a: string, b: string)
    ensures Compile(a + b) == Compile(a) + Compile(b)
  {
    if a != [] {
      assert (a + b)[0] == a[0] && (a + b)[1..] == a[1..] + b;
      CompileAppend(a[1..], b);
    } else {
      assert a + b == b;
    }
  }

  /** The padding of '{0:4d}' is whitespace, which re.VERBOSE drops. */
  lemma {:induction false} CompilePadded(s: string, w: nat)
    ensures Compile(PadLeft(s, w)) == Compile(s)
    decreases w - |s|
  {
    if |s| < w {
      CompilePadded([' '] + s, w);
      assert ([' '] + s)[1..] == s;
    }
  }

  /** Text without whitespace matches the pattern it compiles to. */
  lemma {:induction false} CompileMatchesItself(s: string, rest: string)
    requires NoSpace(s)
    ensures PrefixMatches(Compile(s), s + rest)
  {
    if s != [] {
      CompileMatchesItself(s[1..], rest);
      assert (s + rest)[1..] == s[1..] + rest;
      var p := Compile(s);
      assert p == [if s[0] == '.' then Any else Lit(s[0])] + Compile(s[1..]);
      forall i | 0 <= i < |p| ensures AtomMatches(p[i], (s + rest)[i]) {
        if i > 0 {
          assert p[i] == Compile(s[1..])[i - 1];
          assert (s + rest)[i] == (s[1..] + rest)[i - 1];
        }
      }
    }
  }

  lemma IntToStringHasNoSpace(i: int)
    ensures NoSpace(IntToString(i))
  {
    var s := NatToString(if i < 0 then -i else i);
    assert forall j :: 0 <= j < |s| ==> IsDigit(s[j]);
  }

  lemma PrefixHasNoSpace(variable: string)
    requires NoSpace(variable)
    ensures NoSpace(Prefix(variable))
  {
    var p := Prefix(variable);
    forall j | 0 <= j < |p| ensures !IsSpace(p[j]) {
      if j < 19 {
        assert p[j] == "RACMO2.3p2_FGRN055_"[j];
      } else if j < 19 + |variable| {
        assert p[j] == variable[j - 19];
      } else {
        assert p[j] == "_daily_"[j - 19 - |variable|];
      }
    }
  }

  /** The first requested year's file is read, whatever the number of years. */
  lemma FirstYearFileSelected(variable: string, ys: seq<int>)
    requires NoBar(variable) && NoSpace(variable) && |ys| >= 1
    ensures Matches(FilePattern(variable, JoinYears(ys)), YearFile(variable, ys[0]))
  {
    SelectedIff(variable, ys, YearFile(variable, ys[0]));
    if |ys| == 1 {
      PaddedYearFileMatches(variable, ys[0]);
    } else {
      PaddedYearMatches(variable, ys[0]);
    }
  }

  /** Prefix and padded year, compiled, match the year's file name. */
  lemma PaddedYearMatches(variable: string, y: int)
    requires NoSpace(variable)
    ensures PrefixMatches(Compile(Prefix(variable) + FormatYear(y)), YearFile(variable, y))
  {
    var p, d := Prefix(variable), IntToString(y);
    PrefixHasNoSpace(variable);
    IntToStringHasNoSpace(y);
    CompileAppend(p, FormatYear(y));
    CompileAppend(p, d);
    CompilePadded(d, 4);
    assert NoSpace(p + d);
    CompileMatchesItself(p + d, ".nc");
  }

  /** Prefix, padded year and ".nc", compiled, match the year's file name. */
  lemma PaddedYearFileMatches(variable: string, y: int)
    requires NoSpace(variable)
    ensures PrefixMatches(Compile(Prefix(variable) + FormatYear(y) + ".nc"), YearFile(variable, y))
  {
    var p, d := Prefix(variable), IntToString(y);
    PrefixHasNoSpace(variable);
    IntToStringHasNoSpace(y);
    CompileAppend(p, FormatYear(y));
    CompileAppend(p, d);
    CompilePadded(d, 4);
    CompileAppend(p + FormatYear(y), ".nc");
    CompileAppend(p + d, ".nc");
    assert NoSpace(p + d + ".nc");
    CompileMatchesItself(p + d + ".nc", "");
    assert p + d + ".nc" + "" == YearFile(variable, y);
  }

  lemma {:induction false} CompileAt(s: string)
    requires NoSpace(s)
    ensures |Compile(s)| == |s|
    ensures forall i :: 0 <= i < |s| ==> Compile(s)[i] == if s[i] == '.' then Any else Lit(s[i])
  {
    if s != [] {
      CompileAt(s[1..]);
    }
  }

  /** A whitespace-free alternative misses a name that differs from it at a
      position other than a '.'. */
  lemma LiteralMissesAt(s: string, name: string, i: nat)
    requires NoSpace(s) && i < |s| && s[i] != '.' && i < |name| && name[i] != s[i]
    ensures !PrefixMatches(Compile(s), name)
  {
    CompileAt(s);
    assert !AtomMatches(Compile(s)[i], name[i]);
  }

  /** The pattern built for 2015 and 2016 reads the 2015 file and not the
      2016 one: the second alternative is "2016.nc", which a name starting
      with "RACMO" does not start with. */
  lemma SecondYearFileMissed()
    ensures Matches(FilePattern("smb", JoinYears([2015, 2016])), "RACMO2.3p2_FGRN055_smb_daily_2015.nc")
    ensures !Matches(FilePattern("smb", JoinYears([2015, 2016])), "RACMO2.3p2_FGRN055_smb_daily_2016.nc")
  {
    var ys := [2015, 2016];
    var name := "RACMO2.3p2_FGRN055_smb_daily_2016.nc";
    assert NoBar("smb") && NoSpace("smb");
    Year2015And2016();
    FirstYearFileSelected("smb", ys);
    assert YearFile("smb", 2015) == "RACMO2.3p2_FGRN055_smb_daily_2015.nc";
    SelectedIff("smb", ys, name);
    FirstAlternativeMisses2016();
    LastAlternativeMisses2016();
  }

  lemma FirstAlternativeMisses2016()
    ensures !PrefixMatches(Compile(Prefix("smb") + FormatYear(2015)), "RACMO2.3p2_FGRN055_smb_daily_2016.nc")
  {
    var p := Prefix("smb");
    Year2015And2016();
    assert NoSpace("smb");
    PrefixHasNoSpace("smb");
    assert NoSpace(p + "2015");
    LiteralMissesAt(p + "2015", "RACMO2.3p2_FGRN055_smb_daily_2016.nc", 32);
  }

  lemma LastAlternativeMisses2016()
    ensures !PrefixMatches(Compile(FormatYear(2016) + ".nc"), "RACMO2.3p2_FGRN055_smb_daily_2016.nc")
  {
    Year2015And2016();
    assert "2016" + ".nc" == "2016.nc";
    LiteralMissesAt("2016.nc", "RACMO2.3p2_FGRN055_smb_daily_2016.nc", 0);
  }

  lemma Year2015And2016()
    ensures IntToString(2015) == "2015" && IntToString(2016) == "2016"
    ensures FormatYear(2015) == "2015" && FormatYear(2016) == "2016"
  {
    assert NatToString(2) == "2";
    assert NatToString(20) == "20";
    assert NatToString(201) == "201";
    assert NatToString(2015) == "2015";
    assert NatToString(2016) == "2016";
  }
}
