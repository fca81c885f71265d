/** calc_julian_day: calendar date and time of day to Julian day. */
module JulianDay {

  /** np.floor on a real, kept as a real. */
  function Floor(x: real): real
  {
    x.Floor as real
  }

  /** Truncation toward zero, what integer division does in the formula's
      original integer-arithmetic form. */
  function Trunc(x: real): real
  {
    if x < 0.0 then -((-x).Floor as real) else x.Floor as real
  }

  /** The formula as written: real division everywhere and np.floor on
      every quotient, including (MONTH - 9)/7 inside the century term. */
  function CalcJulianDay(year: real, month: real, day: real,
                         hour: real := 0.0, minute: real := 0.0, second: real := 0.0): (jd: real)
  {
    367.0 * year
    - Floor(7.0 * (year + Floor((month + 9.0) / 12.0)) / 4.0)
    - Floor(3.0 * (Floor((year + (month - 9.0) / 7.0) / 100.0) + 1.0) / 4.0)
    + Floor(275.0 * month / 9.0)
    + day + 1721028.5 + hour / 24.0 + minute / 1440.0 + second / 86400.0
  }

  /** The same formula with (MONTH - 9)/7 truncated toward zero, as integer
      division does: January and February count toward the previous year in
      the century term, every other month toward its own year. */
  function GregorianJulianDay(year: real, month: real, day: real,
                              hour: real := 0.0, minute: real := 0.0, second: real := 0.0): (jd: real)
  {
    367.0 * year
    - Floor(7.0 * (year + Floor((month + 9.0) / 12.0)) / 4.0)
    - Floor(3.0 * (Floor((year + Trunc((month - 9.0) / 7.0)) / 100.0) + 1.0) / 4.0)
    + Floor(275.0 * month / 9.0)
    + day + 1721028.5 + hour / 24.0 + minute / 1440.0 + second / 86400.0
  }

  predicate IsLeapYear(y: int)
  {
    y % 4 == 0 && (y % 100 != 0 || y % 400 == 0)
  }

  function DaysInMonth(y: int, m: int): (n: int)
    requires 1 <= m <= 12
    ensures 28 <= n <= 31
  {
    if m == 2 then (if IsLeapYear(y) then 29 else 28)
    else if m == 4 || m == 6 || m == 9 || m == 11 then 30
    else 31
  }


  /** A calendar date with whole-number fields. */
  datatype Date = Date(year: int, month: int, day: int)

  predicate ValidDate(d: Date)
  {
    1 <= d.month <= 12 && 1 <= d.day <= DaysInMonth(d.year, d.month)
  }

  /** The calendar day after d. */
  function NextDay(d: Date): (n: Date)
    requires ValidDate(d)
    ensures ValidDate(n)
  {
    if d.day < DaysInMonth(d.year, d.month) then Date(d.year, d.month, d.day + 1)
    else if d.month < 12 then Date(d.year, d.month + 1, 1)
    else Date(d.year + 1, 1, 1)
  }

  function WrittenDay(d: Date): real
  {
    CalcJulianDay(d.year as real, d.month as real, d.day as real)
  }

  function GregorianDay(d: Date): real
  {
    GregorianJulianDay(d.year as real, d.month as real, d.day as real)
  }

  // ---------------------------------------------------------------------
  // Properties of the formula as written

  lemma DayAddsOne(year: real, month: real, day: real, hour: real, minute: real, second: real)
    ensures CalcJulianDay(year, month, day + 1.0, hour, minute, second)
         == CalcJulianDay(year, month, day, hour, minute, second) + 1.0
  {
  }

  lemma HourRollsOverIntoDay(year: real, month: real, day: real, minute: real, second: real)
    ensures CalcJulianDay(year, month, day, 24.0, minute, second)
         == CalcJulianDay(year, month, day + 1.0, 0.0, minute, second)
  {
  }

  lemma MinuteRollsOverIntoHour(year: real, month: real, day: real, hour: real, second: real)
    ensures CalcJulianDay(year, month, day, hour, 60.0, second)
         == CalcJulianDay(year, month, day, hour + 1.0, 0.0, second)
  {
  }

  lemma SecondRollsOverIntoMinute(year: real, month: real, day: real, hour: real, minute: real)
    ensures CalcJulianDay(year, month, day, hour, minute, 60.0)
         == CalcJulianDay(year, month, day, hour, minute + 1.0, 0.0)
  {
  }

  /** The J2000.0 epoch, 2000-01-01 12:00, and the RACMO time epoch 1950-01-01 00:00. */
  lemma KnownEpochs()
    ensures CalcJulianDay(2000.0, 1.0, 1.0, 12.0) == 2451545.0
    ensures CalcJulianDay(1950.0, 1.0, 1.0) == 2433282.5
  {
  }

  /** As written, the last day of August 1900 and the first day of
      September 1900 get the same Julian day, and 1 January 1901 comes two
      days after 31 December 1900. */
  lemma CenturyYearCounterexample()
    ensures CalcJulianDay(1900.0, 8.0, 31.0) == CalcJulianDay(1900.0, 9.0, 1.0)
    ensures CalcJulianDay(1901.0, 1.0, 1.0) == CalcJulianDay(1900.0, 12.0, 31.0) + 2.0
  {
  }

  // ---------------------------------------------------------------------
  // The formulas on whole-number dates, in integer arithmetic

  lemma FloorOfWholePlusFraction(q: int, r: real)
    requires 0.0 <= r < 1.0
    ensures Floor(q as real + r) == q as real
  {
    var k := (q as real + r).Floor;
    assert k as real <= q as real + r < k as real + 1.0;
    assert k as real < q as real + 1.0;
    assert k < q + 1;
    assert q as real < k as real + 1.0;
    assert q < k + 1;
  }

  lemma FloorOfQuotient(n: int, d: int)
    requires d == 4 || d == 12 || d == 9
    ensures Floor(n as real / d as real) == (n / d) as real
  {
    var q, r := n / d, n % d;
    if d == 4 {
      assert n as real / 4.0 == q as real + r as real / 4.0;
      FloorOfWholePlusFraction(q, r as real / 4.0);
    } else if d == 12 {
      assert n as real / 12.0 == q as real + r as real / 12.0;
      FloorOfWholePlusFraction(q, r as real / 12.0);
    } else {
      assert n as real / 9.0 == q as real + r as real / 9.0;
      FloorOfWholePlusFraction(q, r as real / 9.0);
    }
  }

  lemma FloorOfShiftedHundredth(n: int, f: real)
    requires 0.0 <= f < 1.0
    ensures Floor((n as real + f) / 100.0) == (n / 100) as real
  {
    var q, r := n / 100, n % 100;
    assert (n as real + f) / 100.0 == q as real + (r as real + f) / 100.0;
    FloorOfWholePlusFraction(q, (r as real + f) / 100.0);
  }

  /** The century term's inner quotient as written: (MONTH - 9)/7 is a
      negative fraction for March to August, which pulls the floor one
      hundred years back in a century year. */
  function WrittenCenturyShift(m: int): int
  {
    if m == 1 then -2 else if m <= 8 then -1 else 0
  }

  /** With truncation, only January and February look at the previous year. */
  function GregorianCenturyShift(m: int): int
  {
    if m <= 2 then -1 else 0
  }

  function IntFormula(d: Date, shift: int): int
  {
    367 * d.year - (7 * (d.year + (d.month + 9) / 12)) / 4
    - (3 * ((d.year + shift) / 100 + 1)) / 4
    + (275 * d.month) / 9 + d.day
  }

  lemma YearTermIsInteger(y: int, m: int)
    ensures Floor(7.0 * (y as real + Floor((m as real + 9.0) / 12.0)) / 4.0)
         == ((7 * (y + (m + 9) / 12)) / 4) as real
  {
    FloorOfQuotient(m + 9, 12);
    var a := y + (m + 9) / 12;
    FloorOfQuotient(7 * a, 4);
    assert 7.0 * (y as real + ((m + 9) / 12) as real) / 4.0 == (7 * a) as real / 4 as real;
  }

  lemma MonthTermIsInteger(m: int)
    ensures Floor(275.0 * m as real / 9.0) == ((275 * m) / 9) as real
  {
    FloorOfQuotient(275 * m, 9);
  }

  /** The century term, when the year's quotient f lies in [s, s + 1). */
  lemma CenturyTermIsInteger(y: int, s: int, f: real)
    requires 0.0 <= f - s as real < 1.0
    ensures Floor(3.0 * (Floor((y as real + f) / 100.0) + 1.0) / 4.0)
         == ((3 * ((y + s) / 100 + 1)) / 4) as real
  {
    FloorOfShiftedHundredth(y + s, f - s as real);
    assert y as real + f == (y + s) as real + (f - s as real);
    var c := (y + s) / 100;
    FloorOfQuotient(3 * (c + 1), 4);
    assert 3.0 * (c as real + 1.0) / 4.0 == (3 * (c + 1)) as real / 4 as real;
  }

  lemma {:induction false} WrittenDayIsInteger(d: Date)
    requires 1 <= d.month <= 12
    ensures WrittenDay(d) == IntFormula(d, WrittenCenturyShift(d.month)) as real + 1721028.5
  {
    var y, m := d.year, d.month;
    YearTermIsInteger(y, m);
    CenturyTermIsInteger(y, WrittenCenturyShift(m), (m as real - 9.0) / 7.0);
    MonthTermIsInteger(m);
  }

  lemma {:induction false} GregorianDayIsInteger(d: Date)
    requires 1 <= d.month <= 12
    ensures GregorianDay(d) == IntFormula(d, GregorianCenturyShift(d.month)) as real + 1721028.5
  {
    var y, m := d.year, d.month;
    YearTermIsInteger(y, m);
    var s := GregorianCenturyShift(m);
    assert Trunc((m as real - 9.0) / 7.0) == s as real;
    CenturyTermIsInteger(y, s, s as real);
    MonthTermIsInteger(m);
  }

  lemma LeapTermStep(y: int)
    ensures (7 * (y + 1)) / 4 - (7 * y) / 4 == if y % 4 == 0 then 1 else 2
  {
    var a, r := y / 4, y % 4;
    assert 7 * y == 4 * (7 * a + r) + 3 * r;
    assert 7 * (y + 1) == 4 * (7 * a + r + 1) + 3 * r + 3;
  }

  /** Euclidean division by one of the calendar's constants is fixed by
      any quotient and remainder that fit. */
  lemma DivModBy(n: int, d: int, q: int, r: int)
    requires d == 4 || d == 100 || d == 400
    requires n == d * q + r && 0 <= r < d
    ensures n / d == q && n % d == r
  {
    if d == 4 {
      assert n == 4 * q + r;
    } else if d == 100 {
      assert n == 100 * q + r;
    } else {
      assert n == 400 * q + r;
    }
  }

  lemma CenturyTermStep(y: int)
    ensures (3 * (y / 100 + 1)) / 4 - (3 * ((y - 1) / 100 + 1)) / 4
         == if y % 100 == 0 && y % 400 != 0 then 1 else 0
  {
    var c, r1 := (y - 1) / 100, (y - 1) % 100;
    DivModBy(y - 1, 100, c, r1);
    if r1 == 99 {
      DivModBy(y, 100, c + 1, 0);
      CenturyYearStep(y, c);
    } else {
      DivModBy(y, 100, c, r1 + 1);
    }
  }

  /** The century term in a century year y == 100 * (c + 1). */
  lemma CenturyYearStep(y: int, c: int)
    requires y == 100 * (c + 1)
    ensures (3 * (c + 2)) / 4 - (3 * (c + 1)) / 4 == if y % 400 != 0 then 1 else 0
  {
    var b, r := c / 4, c % 4;
    DivModBy(c, 4, b, r);
    if r == 0 {
      DivModBy(3 * (c + 1), 4, 3 * b, 3);
      DivModBy(3 * (c + 2), 4, 3 * b + 1, 2);
      DivModBy(y, 400, b, 100);
    } else if r == 1 {
      DivModBy(3 * (c + 1), 4, 3 * b + 1, 2);
      DivModBy(3 * (c + 2), 4, 3 * b + 2, 1);
      DivModBy(y, 400, b, 200);
    } else if r == 2 {
      DivModBy(3 * (c + 1), 4, 3 * b + 2, 1);
      DivModBy(3 * (c + 2), 4, 3 * b + 3, 0);
      DivModBy(y, 400, b, 300);
    } else {
      DivModBy(3 * (c + 1), 4, 3 * b + 3, 0);
      DivModBy(3 * (c + 2), 4, 3 * b + 3, 3);
      DivModBy(y, 400, b + 1, 0);
    }
  }

  lemma DivisibilityChain(y: int)
    ensures y % 400 == 0 ==> y % 100 == 0
    ensures y % 100 == 0 ==> y % 4 == 0
  {
    var k, h := y / 400, y / 100;
    DivModBy(y, 400, k, y % 400);
    DivModBy(y, 100, h, y % 100);
    if y % 400 == 0 { DivModBy(y, 100, 4 * k, 0); }
    if y % 100 == 0 { DivModBy(y, 4, 25 * h, 0); }
  }

  /** The month term steps by the length of the month it leaves. */
  lemma MonthTermStep(y: int, m: int)
    requires 1 <= m <= 11 && m != 2
    ensures (275 * (m + 1)) / 9 - (275 * m) / 9 == DaysInMonth(y, m)
  {
    if m == 1 { assert (275 * 2) / 9 - (275 * 1) / 9 == 31; }
    else if m == 3 { assert (275 * 4) / 9 - (275 * 3) / 9 == 31; }
    else if m == 4 { assert (275 * 5) / 9 - (275 * 4) / 9 == 30; }
    else if m == 5 { assert (275 * 6) / 9 - (275 * 5) / 9 == 31; }
    else if m == 6 { assert (275 * 7) / 9 - (275 * 6) / 9 == 30; }
    else if m == 7 { assert (275 * 8) / 9 - (275 * 7) / 9 == 31; }
    else if m == 8 { assert (275 * 9) / 9 - (275 * 8) / 9 == 31; }
    else if m == 9 { assert (275 * 10) / 9 - (275 * 9) / 9 == 30; }
    else if m == 10 { assert (275 * 11) / 9 - (275 * 10) / 9 == 31; }
    else { assert (275 * 12) / 9 - (275 * 11) / 9 == 30; }
  }

  lemma FebruaryEndStep(y: int)
    ensures IntFormula(Date(y, 3, 1), 0) == IntFormula(Date(y, 2, DaysInMonth(y, 2)), -1) + 1
  {
    LeapTermStep(y);
    CenturyTermStep(y);
    DivisibilityChain(y);
    assert (3 + 9) / 12 == 1 && (2 + 9) / 12 == 0;
    assert (275 * 3) / 9 - (275 * 2) / 9 == 30;
    assert DaysInMonth(y, 2) == 30 - ((7 * (y + 1)) / 4 - (7 * y) / 4)
                                   - ((3 * (y / 100 + 1)) / 4 - (3 * ((y - 1) / 100 + 1)) / 4);
  }

  lemma DecemberEndStep(y: int)
    ensures IntFormula(Date(y + 1, 1, 1), -1) == IntFormula(Date(y, 12, 31), 0) + 1
  {
    assert (y + 1 - 1) / 100 == y / 100;
    assert (1 + 9) / 12 == 0 && (12 + 9) / 12 == 1;
  }

  lemma MonthEndStep(y: int, m: int)
    requires 1 <= m <= 11 && m != 2
    ensures IntFormula(Date(y, m + 1, 1), GregorianCenturyShift(m + 1))
         == IntFormula(Date(y, m, DaysInMonth(y, m)), GregorianCenturyShift(m)) + 1
  {
    MonthTermStep(y, m);
    assert (m + 9) / 12 == (m + 1 + 9) / 12;
  }

  lemma {:induction false} IntFormulaConsecutive(d: Date)
    requires ValidDate(d)
    ensures IntFormula(NextDay(d), GregorianCenturyShift(NextDay(d).month))
         == IntFormula(d, GregorianCenturyShift(d.month)) + 1
  {
    var y, m := d.year, d.month;
    var n := NextDay(d);
    if d.day < DaysInMonth(y, m) {
      assert n == Date(y, m, d.day + 1);
      WithinMonthStep(d, GregorianCenturyShift(m));
    } else if m == 2 {
      assert d == Date(y, 2, DaysInMonth(y, 2)) && n == Date(y, 3, 1);
      FebruaryEndStep(y);
    } else if m == 12 {
      assert d == Date(y, 12, 31) && n == Date(y + 1, 1, 1);
      DecemberEndStep(y);
    } else {
      assert d == Date(y, m, DaysInMonth(y, m)) && n == Date(y, m + 1, 1);
      MonthEndStep(y, m);
    }
  }

  lemma WithinMonthStep(d: Date, s: int)
    ensures IntFormula(Date(d.year, d.month, d.day + 1), s) == IntFormula(d, s) + 1
  {
  }

  /** With truncation, consecutive calendar days of the Gregorian calendar
      get consecutive Julian days, across month and year ends and through
      the leap-year rules for 4, 100 and 400. */
  lemma {:induction false} GregorianDaysAreConsecutive(d: Date)
    requires ValidDate(d)
    ensures GregorianDay(NextDay(d)) == GregorianDay(d) + 1.0
  {
    GregorianDayIsInteger(d);
    GregorianDayIsInteger(NextDay(d));
    IntFormulaConsecutive(d);
  }

  /** As written, the formula runs one day ahead exactly from 1 March to
      31 August of a century year that is not a multiple of 400, and in
      January of the year after such a century year; it agrees with the
      Gregorian count everywhere else. */
  lemma {:induction false} WrittenDayOffset(d: Date)
    requires 1 <= d.month <= 12
    ensures WrittenDay(d) == GregorianDay(d) + (if CenturyShifted(d.year, d.month) then 1.0 else 0.0)
  {
    WrittenDayIsInteger(d);
    GregorianDayIsInteger(d);
    ShiftDifference(d);
  }

  lemma ShiftDifference(d: Date)
    requires 1 <= d.month <= 12
    ensures IntFormula(d, WrittenCenturyShift(d.month)) - IntFormula(d, GregorianCenturyShift(d.month))
         == if CenturyShifted(d.year, d.month) then 1 else 0
  {
    var y, m := d.year, d.month;
    if m == 1 {
      JanuaryShift(y);
    } else if 3 <= m <= 8 {
      CenturyTermStep(y);
    }
  }

  lemma JanuaryShift(y: int)
    ensures (3 * ((y - 1) / 100 + 1)) / 4 - (3 * ((y - 2) / 100 + 1)) / 4
         == if y % 100 == 1 && (y - 1) % 400 != 0 then 1 else 0
  {
    var z := y - 1;
    CenturyTermStep(z);
    assert z - 1 == y - 2;
    YearAfterCentury(y);
  }

  lemma YearAfterCentury(y: int)
    ensures (y - 1) % 100 == 0 <==> y % 100 == 1
  {
    var c, r := (y - 1) / 100, (y - 1) % 100;
    DivModBy(y - 1, 100, c, r);
    if r == 99 {
      DivModBy(y, 100, c + 1, 0);
    } else {
      DivModBy(y, 100, c, r + 1);
    }
  }

  predicate CenturyShifted(y: int, m: int)
  {
    || (y % 100 == 0 && y % 400 != 0 && 3 <= m <= 8)
    || (y % 100 == 1 && (y - 1) % 400 != 0 && m == 1)
  }
}
