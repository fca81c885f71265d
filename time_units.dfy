/** The epoch in a time-units attribute such as
    "days since 1950-01-01 00:00:00.0": the six numbers that
    re.findall(r'\d+\.\d+|\d+', units) pulls out, each read with float(). */
module TimeUnits {
  import opened Failures
  import opened Decimal

  /** Length of the run of digits that starts s. */
  function DigitRun(s: string): (n: nat)
    ensures n <= |s|
    ensures forall i :: 0 <= i < n ==> IsDigit(s[i])
    ensures n == |s| || !IsDigit(s[n])
  {
    if s != [] && IsDigit(s[0]) then 1 + DigitRun(s[1..]) else 0
  }

  /** The maximal digit run is the only prefix of digits followed by a non-digit. */
  lemma DigitRunIs(s: string, k: nat)
    requires k <= |s|
    requires forall i :: 0 <= i < k ==> IsDigit(s[i])
    requires k == |s| || !IsDigit(s[k])
    ensures DigitRun(s) == k
  {
  }

  /** Length of the match of \d+\.\d+|\d+ at the start of s, 0 for none:
      the first alternative needs the whole digit run, a '.', and a digit
      after it; otherwise the second takes the digit run. */
  function MatchLength(s: string): (n: nat)
    ensures n <= |s|
  {
    var k := DigitRun(s);
    if k == 0 then 0
    else if k + 1 < |s| && s[k] == '.' && IsDigit(s[k + 1]) then k + 1 + DigitRun(s[k + 1..])
    else k
  }

  /** re.findall(r'\d+\.\d+|\d+', s): the matches, left to right; where no
      match starts, the scan moves on by one character. */
  function FindAll(s: string): (tokens: seq<string>)
    ensures forall i :: 0 <= i < |tokens| ==> IsNumberToken(tokens[i])
    decreases |s|
  {
    if s == [] then []
    else
      var n := MatchLength(s);
      if n == 0 then FindAll(s[1..])
      else
        MatchShape(s);
        [s[..n]] + FindAll(s[n..])
  }

  /** float(token): the whole part, plus the digits after the point over
      the matching power of ten. */
  function TokenValue(t: string): (v: real)
    requires IsNumberToken(t)
    ensures DigitsValue(t[..DigitRun(t)]) as real <= v < (DigitsValue(t[..DigitRun(t)]) + 1) as real
  {
    var k := DigitRun(t);
    if k == |t| then
      assert t[..k] == t;
      DigitsValue(t) as real
    else
      var f := t[k + 1..];
      assert AllDigits(f);
      FractionBelowOne(DigitsValue(f), Pow10(|f|));
      DigitsValue(t[..k]) as real + DigitsValue(f) as real / Pow10(|f|) as real
  }

  /** float(s) for a run of digits, leading zeros included ("01", "00"): the
      number the digits spell. */
  lemma DigitsToken(s: string)
    requires s != [] && AllDigits(s)
    ensures IsNumberToken(s) && TokenValue(s) == DigitsValue(s) as real
  {
    DigitRunIs(s, |s|);
  }

  /** float(str(n)) == n: a whole-number token reads as the number it spells. */
  lemma TokenValueOfNat(n: nat)
    ensures IsNumberToken(NatToString(n))
    ensures TokenValue(NatToString(n)) == n as real
  {
    var s := NatToString(n);
    DigitRunIs(s, |s|);
    NatToStringRoundTrip(n);
  }

  /** float(str(w) + "." + f): the whole part plus the digits after the point
      as a fraction of the matching power of ten. */
  lemma TokenValueOfDecimal(w: nat, f: string)
    requires f != [] && AllDigits(f)
    ensures IsNumberToken(NatToString(w) + "." + f)
    ensures TokenValue(NatToString(w) + "." + f) == w as real + DigitsValue(f) as real / Pow10(|f|) as real
  {
    DigitsPointDigits(NatToString(w), f);
    NatToStringRoundTrip(w);
  }

  /** Digits, a point and digits form one token, read part by part. */
  lemma DigitsPointDigits(s: string, f: string)
    requires s != [] && AllDigits(s) && f != [] && AllDigits(f)
    ensures IsNumberToken(s + "." + f)
    ensures TokenValue(s + "." + f) == DigitsValue(s) as real + DigitsValue(f) as real / Pow10(|f|) as real
  {
    PointSplit(s, f);
    DigitRunIs(f, |f|);
  }

  /** The digit run of digits-point-digits stops at the point. */
  lemma PointSplit(s: string, f: string)
    requires AllDigits(s)
    ensures var t := s + "." + f;
            DigitRun(t) == |s| && t[..|s|] == s && t[|s|] == '.' && t[|s| + 1..] == f
  {
    var t := s + "." + f;
    assert forall i :: 0 <= i < |s| ==> t[i] == s[i];
    DigitRunIs(t, |s|);
    assert t[..|s|] == s;
    assert t[|s| + 1..] == f;
  }

  lemma FractionBelowOne(d: int, p: int)
    requires 0 <= d < p
    ensures 0.0 <= d as real / p as real < 1.0
  {
    assert d as real < p as real;
  }

  datatype Epoch = Epoch(year: real, month: real, day: real, hour: real, minute: real, second: real)

  /** Y1,M1,D1,h1,m1,s1 = [float(d) for d in re.findall(...)]: the unpacking
      fails unless there are exactly six numbers. */
  function ParseEpoch(units: string): (r: Result<Epoch>)
    ensures r.Ok? <==> |FindAll(units)| == 6
    ensures r.Ok? ==> (r.value.year == TokenValue(FindAll(units)[0])
                       && r.value.second == TokenValue(FindAll(units)[5]))
  {
    var toks := FindAll(units);
    if |toks| != 6 then Err(BadTimeUnits)
    else Ok(Epoch(TokenValue(toks[0]), TokenValue(toks[1]), TokenValue(toks[2]),
                  TokenValue(toks[3]), TokenValue(toks[4]), TokenValue(toks[5])))
  }

  // ---------------------------------------------------------------------
  // An independent description of the tokens

  /** digits, or digits '.' digits */
  predicate IsNumberToken(t: string)
  {
    var k := DigitRun(t);
    k > 0 && (k == |t| || (t[k] == '.' && k + 1 < |t| && DigitRun(t[k + 1..]) == |t| - k - 1))
  }

  predicate IsIntegerToken(t: string)
  {
    |t| > 0 && DigitRun(t) == |t|
  }

  predicate DigitFree(g: string)
  {
    forall i :: 0 <= i < |g| ==> !IsDigit(g[i])
  }

  /** gaps[0] + toks[0] + gaps[1] + ... + toks[n-1] + gaps[n] */
  function Interleave(gaps: seq<string>, toks: seq<string>): string
    requires |gaps| == |toks| + 1
  {
    if toks == [] then gaps[0] else gaps[0] + toks[0] + Interleave(gaps[1..], toks[1..])
  }

  /** s is cut into digit-free gaps and number tokens, tokens apart from one
      another by at least one character, and no whole-number token followed
      by a lone '.' and another token (together those would be one decimal
      number).  Every digit of s is therefore inside some token. */
  ghost predicate IsTokenization(s: string, gaps: seq<string>, toks: seq<string>)
  {
    && |gaps| == |toks| + 1
    && Interleave(gaps, toks) == s
    && (forall i :: 0 <= i < |gaps| ==> DigitFree(gaps[i]))
    && (forall i :: 0 <= i < |toks| ==> IsNumberToken(toks[i]))
    && (forall i :: 0 < i < |toks| ==> gaps[i] != [] && !(IsIntegerToken(toks[i - 1]) && gaps[i] == "."))
  }

  lemma InterleaveStartsWithToken(gaps: seq<string>, toks: seq<string>)
    requires |gaps| == |toks| + 1 && toks != [] && gaps[0] == []
    ensures Interleave(gaps, toks) == toks[0] + Interleave(gaps[1..], toks[1..])
  {
  }

  /** Text that starts with a token (empty first gap) starts with a digit,
      and one whose first gap is a lone '.' has a digit right after it. */
  lemma FirstGapShape(s: string, gaps: seq<string>, toks: seq<string>)
    requires IsTokenization(s, gaps, toks) && toks != []
    ensures gaps[0] == [] ==> s != [] && IsDigit(s[0])
    ensures gaps[0] == "." ==> |s| >= 2 && s[0] == '.' && IsDigit(s[1])
  {
    assert Interleave(gaps, toks) == gaps[0] + (toks[0] + Interleave(gaps[1..], toks[1..]));
    assert DigitRun(toks[0]) > 0;
  }

  /** A non-digit in front of a tokenized text joins its first gap. */
  lemma SkipNonDigit(c: char, t: string, gaps: seq<string>, toks: seq<string>)
    requires !IsDigit(c) && IsTokenization(t, gaps, toks)
    ensures IsTokenization([c] + t, [[c] + gaps[0]] + gaps[1..], toks)
  {
    var g := [[c] + gaps[0]] + gaps[1..];
    if toks == [] {
      assert Interleave(g, toks) == [c] + gaps[0];
    } else {
      assert g[1..] == gaps[1..];
      assert Interleave(g, toks) == [c] + Interleave(gaps, toks);
    }
    forall i | 0 <= i < |g| ensures DigitFree(g[i]) {
      if i > 0 { assert g[i] == gaps[i]; }
    }
    forall i | 0 < i < |toks|
      ensures g[i] != [] && !(IsIntegerToken(toks[i - 1]) && g[i] == ".")
    {
      assert g[i] == gaps[i];
    }
  }

  /** A token in front of a tokenized text that starts with a non-digit
      (and not with a lone '.' and a digit, when the token is whole) becomes
      its first token. */
  lemma PrependToken(tok: string, t: string, gaps: seq<string>, toks: seq<string>)
    requires IsNumberToken(tok) && IsTokenization(t, gaps, toks)
    requires toks != [] ==> gaps[0] != [] && !(IsIntegerToken(tok) && gaps[0] == ".")
    ensures IsTokenization(tok + t, [[]] + gaps, [tok] + toks)
  {
    var g, ts := [[]] + gaps, [tok] + toks;
    assert g[1..] == gaps && ts[1..] == toks;
    assert Interleave(g, ts) == tok + t;
    forall i | 0 <= i < |g| ensures DigitFree(g[i]) {
      if i > 0 { assert g[i] == gaps[i - 1]; }
    }
    forall i | 0 <= i < |ts| ensures IsNumberToken(ts[i]) {
      if i > 0 { assert ts[i] == toks[i - 1]; }
    }
    forall i | 0 < i < |ts|
      ensures g[i] != [] && !(IsIntegerToken(ts[i - 1]) && g[i] == ".")
    {
      assert g[i] == gaps[i - 1];
      if i > 1 { assert ts[i - 1] == toks[i - 2]; }
    }
  }

  /** The token findall takes at the start of s, when there is one, is a
      number token followed by a non-digit or the end; a whole-number token
      is not followed by '.' and a digit. */
  lemma MatchShape(s: string)
    requires MatchLength(s) > 0
    ensures IsNumberToken(s[..MatchLength(s)])
    ensures MatchLength(s) == |s| || !IsDigit(s[MatchLength(s)])
    ensures IsIntegerToken(s[..MatchLength(s)]) ==>
              !(MatchLength(s) + 1 < |s| && s[MatchLength(s)] == '.' && IsDigit(s[MatchLength(s) + 1]))
  {
    var n, k := MatchLength(s), DigitRun(s);
    var tok := s[..n];
    DigitRunIs(tok, k);
    if n != k {
      assert tok[k + 1..] == s[k + 1..n];
      DigitRunIs(tok[k + 1..], n - k - 1);
    }
  }

  /** findall's tokens do cut s that way. */
  lemma {:induction false} FindAllTokenizes(s: string) returns (gaps: seq<string>)
    ensures IsTokenization(s, gaps, FindAll(s))
    decreases |s|
  {
    if s == [] {
      gaps := [[]];
    } else if MatchLength(s) == 0 {
      var rest := FindAllTokenizes(s[1..]);
      assert [s[0]] + s[1..] == s;
      SkipNonDigit(s[0], s[1..], rest, FindAll(s[1..]));
      gaps := [[s[0]] + rest[0]] + rest[1..];
    } else {
      var n := MatchLength(s);
      var rest := FindAllTokenizes(s[n..]);
      MatchShape(s);
      if FindAll(s[n..]) != [] {
        FirstGapShape(s[n..], rest, FindAll(s[n..]));
      }
      assert s[..n] + s[n..] == s;
      PrependToken(s[..n], s[n..], rest, FindAll(s[n..]));
      gaps := [[]] + rest;
    }
  }

  lemma {:induction false} FindAllOfDigitFree(g: string)
    requires DigitFree(g)
    ensures FindAll(g) == []
    decreases |g|
  {
    if g != [] {
      assert MatchLength(g) == 0;
      FindAllOfDigitFree(g[1..]);
    }
  }

  /** Dropping the first character of a nonempty first gap. */
  lemma DropNonDigit(s: string, gaps: seq<string>, toks: seq<string>)
    requires IsTokenization(s, gaps, toks) && gaps[0] != []
    ensures s != [] && s[0] == gaps[0][0] && !IsDigit(s[0])
    ensures IsTokenization(s[1..], [gaps[0][1..]] + gaps[1..], toks)
  {
    var g := [gaps[0][1..]] + gaps[1..];
    if toks == [] {
      assert Interleave(g, toks) == gaps[0][1..];
    } else {
      assert g[1..] == gaps[1..];
      assert s == gaps[0] + (toks[0] + Interleave(gaps[1..], toks[1..]));
      assert Interleave(g, toks) == gaps[0][1..] + (toks[0] + Interleave(gaps[1..], toks[1..]));
    }
    forall i | 0 <= i < |g| ensures DigitFree(g[i]) {
      if i > 0 { assert g[i] == gaps[i]; }
    }
    forall i | 0 < i < |toks|
      ensures g[i] != [] && !(IsIntegerToken(toks[i - 1]) && g[i] == ".")
    {
      assert g[i] == gaps[i];
    }
  }

  /** Dropping a first token that the text starts with. */
  lemma DropToken(s: string, gaps: seq<string>, toks: seq<string>)
    requires IsTokenization(s, gaps, toks) && gaps[0] == [] && toks != []
    ensures s == toks[0] + Interleave(gaps[1..], toks[1..])
    ensures IsTokenization(Interleave(gaps[1..], toks[1..]), gaps[1..], toks[1..])
    ensures toks[1..] != [] ==> gaps[1] != [] && !(IsIntegerToken(toks[0]) && gaps[1] == ".")
  {
    var g, ts := gaps[1..], toks[1..];
    forall i | 0 <= i < |g| ensures DigitFree(g[i]) {
      assert g[i] == gaps[i + 1];
    }
    forall i | 0 <= i < |ts| ensures IsNumberToken(ts[i]) {
      assert ts[i] == toks[i + 1];
    }
    forall i | 0 < i < |ts|
      ensures g[i] != [] && !(IsIntegerToken(ts[i - 1]) && g[i] == ".")
    {
      assert g[i] == gaps[i + 1] && ts[i - 1] == toks[i];
    }
    if ts != [] {
      assert 0 < 1 < |toks|;
    }
  }

  /** What can follow a token in a tokenized text. */
  lemma TextAfterToken(rest: string, g: seq<string>, t: seq<string>)
    requires IsTokenization(rest, g, t) && (t != [] ==> g[0] != [])
    ensures rest == [] || !IsDigit(rest[0])
    ensures |rest| >= 2 && rest[0] == '.' && IsDigit(rest[1]) ==> t != [] && g[0] == "."
  {
    if t == [] {
      assert rest == g[0];
    } else {
      assert rest == g[0] + (t[0] + Interleave(g[1..], t[1..]));
      assert DigitRun(t[0]) > 0;
      if |g[0]| == 1 {
        assert g[0] == [rest[0]];
      }
    }
  }

  /** findall's match at a token followed by such text is the token. */
  lemma MatchLengthOfToken(tok: string, rest: string)
    requires IsNumberToken(tok)
    requires rest == [] || !IsDigit(rest[0])
    requires IsIntegerToken(tok) ==> !(|rest| >= 2 && rest[0] == '.' && IsDigit(rest[1]))
    ensures MatchLength(tok + rest) == |tok|
  {
    var s, k := tok + rest, DigitRun(tok);
    DigitRunIs(s, k);
    if k < |tok| {
      assert s[k + 1..] == tok[k + 1..] + rest;
      DigitRunIs(s[k + 1..], |tok| - k - 1);
    }
  }

  /** ... and findall's tokens are the only way to cut s like that. */
  lemma {:induction false} TokenizationIsFindAll(s: string, gaps: seq<string>, toks: seq<string>)
    requires IsTokenization(s, gaps, toks)
    ensures toks == FindAll(s)
    decreases |s|
  {
    if toks == [] {
      FindAllOfDigitFree(s);
    } else if gaps[0] != [] {
      DropNonDigit(s, gaps, toks);
      assert MatchLength(s) == 0;
      TokenizationIsFindAll(s[1..], [gaps[0][1..]] + gaps[1..], toks);
    } else {
      DropToken(s, gaps, toks);
      var rest := Interleave(gaps[1..], toks[1..]);
      TextAfterToken(rest, gaps[1..], toks[1..]);
      MatchLengthOfToken(toks[0], rest);
      var n := |toks[0]|;
      assert s[..n] == toks[0] && s[n..] == rest;
      TokenizationIsFindAll(rest, gaps[1..], toks[1..]);
    }
  }

  /** The units string of the RACMO daily files. */
  lemma RacmoUnitsTokens()
    ensures FindAll("days since 1950-01-01 00:00:00.0") == ["1950", "01", "01", "00", "00", "00.0"]
  {
    var gaps := ["days since ", "-", "-", " ", ":", ":", ""];
    var toks := ["1950", "01", "01", "00", "00", "00.0"];
    RacmoUnitsCut(gaps, toks);
    TokenizationIsFindAll("days since 1950-01-01 00:00:00.0", gaps, toks);
  }

  lemma RacmoUnitsCut(gaps: seq<string>, toks: seq<string>)
    requires gaps == ["days since ", "-", "-", " ", ":", ":", ""]
    requires toks == ["1950", "01", "01", "00", "00", "00.0"]
    ensures IsTokenization("days since 1950-01-01 00:00:00.0", gaps, toks)
  {
    RacmoInterleave(gaps, toks);
    forall i | 0 <= i < |gaps| ensures DigitFree(gaps[i]) {
      assert gaps[i] in {"days since ", "-", " ", ":", ""};
    }
    forall i | 0 <= i < |toks| ensures IsNumberToken(toks[i]) {
      if i == 5 { DecimalZeroToken(); } else { IntegerTokens(toks[i]); }
    }
  }

  lemma RacmoInterleave(gaps: seq<string>, toks: seq<string>)
    requires gaps == ["days since ", "-", "-", " ", ":", ":", ""]
    requires toks == ["1950", "01", "01", "00", "00", "00.0"]
    ensures Interleave(gaps, toks) == "days since 1950-01-01 00:00:00.0"
  {
    RacmoClock(gaps[3..], toks[3..]);
    assert Interleave(gaps[2..], toks[2..]) == "-01 00:00:00.0";
    assert Interleave(gaps[1..], toks[1..]) == "-01-01 00:00:00.0";
  }

  /** The time-of-day part of the RACMO units string. */
  lemma RacmoClock(gaps: seq<string>, toks: seq<string>)
    requires gaps == [" ", ":", ":", ""]
    requires toks == ["00", "00", "00.0"]
    ensures Interleave(gaps, toks) == " 00:00:00.0"
  {
    assert Interleave(gaps[3..], toks[3..]) == "";
    assert Interleave(gaps[2..], toks[2..]) == ":00.0";
    assert Interleave(gaps[1..], toks[1..]) == ":00:00.0";
  }

  lemma DecimalZeroToken()
    ensures IsNumberToken("00.0")
  {
    assert DigitRun("00.0") == 2 && "00.0"[3..] == "0" && DigitRun("0") == 1;
  }

  lemma IntegerTokens(t: string)
    requires t in {"1950", "01", "00"}
    ensures IsNumberToken(t) && IsIntegerToken(t)
  {
    assert DigitRun("1950") == 4 && DigitRun("01") == 2 && DigitRun("00") == 2;
  }

  lemma RacmoUnitsValues()
    ensures TokenValue("1950") == 1950.0 && TokenValue("01") == 1.0
    ensures TokenValue("00") == 0.0 && TokenValue("00.0") == 0.0
  {
    YearTokenValue();
    ZeroTokenValues();
  }

  lemma YearTokenValue()
    ensures TokenValue("1950") == 1950.0
  {
    assert DigitRun("1950") == 4;
    assert "1950"[..3] == "195" && "195"[..2] == "19" && "19"[..1] == "1";
  }

  lemma ZeroTokenValues()
    ensures TokenValue("01") == 1.0 && TokenValue("00") == 0.0 && TokenValue("00.0") == 0.0
  {
    assert DigitRun("01") == 2 && DigitRun("00") == 2;
    assert "01"[..1] == "0" && "00"[..1] == "0";
    assert DigitRun("00.0") == 2 && "00.0"[3..] == "0" && "00.0"[..2] == "00";
  }

  lemma RacmoUnitsEpoch()
    ensures ParseEpoch("days since 1950-01-01 00:00:00.0") == Ok(Epoch(1950.0, 1.0, 1.0, 0.0, 0.0, 0.0))
  {
    RacmoUnitsTokens();
    RacmoUnitsValues();
  }

  /** A string with a time of day but no seconds yields five numbers, and
      the unpacking into six fails. */
  lemma FiveNumbersFail()
    ensures ParseEpoch("days since 1950-01-01 00:00") == Err(BadTimeUnits)
  {
    var gaps := ["days since ", "-", "-", " ", ":", ""];
    var toks := ["1950", "01", "01", "00", "00"];
    ShortUnitsCut(gaps, toks);
    TokenizationIsFindAll("days since 1950-01-01 00:00", gaps, toks);
  }

  lemma ShortUnitsCut(gaps: seq<string>, toks: seq<string>)
    requires gaps == ["days since ", "-", "-", " ", ":", ""]
    requires toks == ["1950", "01", "01", "00", "00"]
    ensures IsTokenization("days since 1950-01-01 00:00", gaps, toks)
  {
    ShortInterleave(gaps, toks);
    forall i | 0 <= i < |gaps| ensures DigitFree(gaps[i]) {
      assert gaps[i] in {"days since ", "-", " ", ":", ""};
    }
    forall i | 0 <= i < |toks| ensures IsNumberToken(toks[i]) {
      IntegerTokens(toks[i]);
    }
  }

  lemma ShortInterleave(gaps: seq<string>, toks: seq<string>)
    requires gaps == ["days since ", "-", "-", " ", ":", ""]
    requires toks == ["1950", "01", "01", "00", "00"]
    ensures Interleave(gaps, toks) == "days since 1950-01-01 00:00"
  {
    assert Interleave(gaps[3..], toks[3..]) == " 00:00" by {
      assert Interleave(gaps[5..], toks[5..]) == "";
      assert Interleave(gaps[4..], toks[4..]) == ":00";
    }
    assert Interleave(gaps[2..], toks[2..]) == "-01 00:00";
    assert Interleave(gaps[1..], toks[1..]) == "-01-01 00:00";
  }
}
