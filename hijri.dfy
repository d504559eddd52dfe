/**
 * Gregorian to Hijri conversion (noor_app/hijri_utils.py).
 *
 * A Gregorian date goes to its Julian Day Number (JDN) by the standard
 * integer formula, and the JDN goes to a date of the tabular (arithmetical)
 * Islamic calendar. Every divisor in both formulas is a positive constant, so
 * Python's floor division `//` coincides with Dafny's Euclidean `/`.
 *
 * Day numbers in this module are JDNs: `NextDayAdvancesJdn` shows that the
 * next Gregorian day has the next JDN, so the source's walks by
 * `timedelta(days=1)` are walks by 1 over JDNs.
 */
module Hijri {
  import opened Wrappers

  datatype GDate = GDate(year: int, month: int, day: int)
  datatype HDate = HDate(year: int, month: int, day: int)

  predicate IsLeapYear(y: int) {
    y % 4 == 0 && (y % 100 != 0 || y % 400 == 0)
  }

  function DaysInMonth(y: int, m: int): int {
    if m == 2 then (if IsLeapYear(y) then 29 else 28)
    else if m == 4 || m == 6 || m == 9 || m == 11 then 30
    else 31
  }

  /** A date the source's `datetime` can hold (proleptic Gregorian). */
  predicate ValidGDate(g: GDate) {
    1 <= g.month <= 12 && 1 <= g.day <= DaysInMonth(g.year, g.month)
  }

  /** The calendar day after `g`: what `g + timedelta(days=1)` denotes. */
  function NextDay(g: GDate): (r: GDate)
    requires ValidGDate(g)
    ensures ValidGDate(r)
  {
    if g.day < DaysInMonth(g.year, g.month) then GDate(g.year, g.month, g.day + 1)
    else if g.month < 12 then GDate(g.year, g.month + 1, 1)
    else GDate(g.year + 1, 1, 1)
  }

  /**
   * The Julian Day Number of a Gregorian date (the first half of
   * `gregorian_to_hijri`): 1 January of year 1, the first date a Python
   * `datetime` holds, is day 1721426, and 1 January 2000 is day 2451545.
   * With `NextDayAdvancesJdn` this fixes the number of every later date.
   */
  function JulianDay(g: GDate): (jd: int)
    ensures g == GDate(1, 1, 1) ==> jd == 1721426
    ensures g == GDate(2000, 1, 1) ==> jd == 2451545
  {
    var a := (14 - g.month) / 12;
    var y := g.year + 4800 - a;
    var m := g.month + 12 * a - 3;
    g.day + (153 * m + 2) / 5 + 365 * y + y / 4 - y / 100 + y / 400 - 32045
  }

  /** How many multiples of k lie in (x, x + 1]: the step of `x / k` from x to x + 1. */
  lemma DivStep(x: int, k: int)
    requires k == 4 || k == 100 || k == 400
    ensures (x + 1) / k - x / k == if (x + 1) % k == 0 then 1 else 0
  {
    var q, r := x / k, x % k;
    if r == k - 1 {
      assert x + 1 == k * (q + 1) + 0;
    } else {
      assert x + 1 == k * q + (r + 1);
    }
  }

  lemma ShiftedYearLeap(year: int)
    ensures IsLeapYear(year) <==>
      ((year + 4800) % 4 == 0 && ((year + 4800) % 100 != 0 || (year + 4800) % 400 == 0))
  {
    assert 4800 == 4 * 1200 == 100 * 48 == 400 * 12;
    assert (year + 4800) % 4 == year % 4;
    assert (year + 4800) % 100 == year % 100;
    assert (year + 4800) % 400 == year % 400;
  }

  /** Advancing a Gregorian date by one day advances its Julian Day Number by exactly one. */
  lemma NextDayAdvancesJdn(g: GDate)
    requires ValidGDate(g)
    ensures JulianDay(NextDay(g)) == JulianDay(g) + 1
  {
    if g.day < DaysInMonth(g.year, g.month) {
      SameMonthStep(g);
    } else if g.month == 2 {
      EndOfFebruaryStep(g.year, g.day);
    } else if g.month == 12 {
      EndOfYearStep(g.year);
    } else {
      MonthLengthStep(g.month);
    }
  }

  lemma SameMonthStep(g: GDate)
    requires ValidGDate(g) && g.day < DaysInMonth(g.year, g.month)
    ensures JulianDay(GDate(g.year, g.month, g.day + 1)) == JulianDay(g) + 1
  {
  }

  lemma EndOfFebruaryStep(year: int, day: int)
    requires day == DaysInMonth(year, 2)
    ensures JulianDay(GDate(year, 3, 1)) == JulianDay(GDate(year, 2, day)) + 1
  {
    // February belongs to the shifted year year + 4799, March to year + 4800
    var y := year + 4799;
    assert JulianDay(GDate(year, 2, day)) == day + 337 + 365 * y + y / 4 - y / 100 + y / 400 - 32045;
    assert JulianDay(GDate(year, 3, 1)) == 1 + 0 + 365 * (y + 1) + (y + 1) / 4 - (y + 1) / 100 + (y + 1) / 400 - 32045;
    LeapDayStep(year);
  }

  /** The leap-day terms grow from February's shifted year to March's by one exactly in a leap year. */
  lemma LeapDayStep(year: int)
    ensures var y := year + 4799;
      (y + 1) / 4 - y / 4 - ((y + 1) / 100 - y / 100) + ((y + 1) / 400 - y / 400)
        == if IsLeapYear(year) then 1 else 0
  {
    var y := year + 4799;
    DivStep(y, 4);
    DivStep(y, 100);
    DivStep(y, 400);
    ShiftedYearLeap(year);
  }

  lemma EndOfYearStep(year: int)
    ensures JulianDay(GDate(year + 1, 1, 1)) == JulianDay(GDate(year, 12, 31)) + 1
  {
    var y := year + 4800;
    assert JulianDay(GDate(year, 12, 31)) == 31 + 275 + 365 * y + y / 4 - y / 100 + y / 400 - 32045;
    assert JulianDay(GDate(year + 1, 1, 1)) == 1 + 306 + 365 * y + y / 4 - y / 100 + y / 400 - 32045;
  }

  /** Within one shifted year, the month offsets `(153 * m + 2) / 5` differ by the month length. */
  lemma MonthLengthStep(month: int)
    requires 1 <= month < 12 && month != 2
    ensures var a := (14 - month) / 12;
      var a' := (14 - (month + 1)) / 12;
      a == a' &&
      (153 * (month + 1 + 12 * a - 3) + 2) / 5 - (153 * (month + 12 * a - 3) + 2) / 5
        == DaysInMonth(0, month)
  {
    if month == 1 {
    } else if month == 3 {
    } else if month == 4 {
    } else if month == 5 {
    } else if month == 6 {
    } else if month == 7 {
    } else if month == 8 {
    } else if month == 9 {
    } else if month == 10 {
    } else {
    }
  }

  /** The day of the 30-year cycle, `l` after the second assignment in the source: 355..10985. */
  function CycleDay(jd: int): (l: int)
    ensures 355 <= l <= 10985
  {
    var l0 := jd - 1948440 + 10632;
    var n := (l0 - 1) / 10631;
    l0 - 10631 * n + 354
  }

  /** The number of completed 30-year cycles, `n` in the source. */
  function CycleCount(jd: int): int {
    (jd - 1948440 + 10632 - 1) / 10631
  }

  /** The year within the cycle, `j` in the source. */
  function CycleYear(l: int): int {
    ((10985 - l) / 5316) * ((50 * l) / 17719) + (l / 5670) * ((43 * l) / 15238)
  }

  /** The day of the Hijri year shifted by 29, `l` after the third assignment in the source. */
  function YearDay(l: int, j: int): int {
    l - ((30 - j) / 15) * ((17719 * j) / 50) - (j / 16) * ((15238 * j) / 43) + 29
  }

  /** The two halves of the 30-year cycle: each factor of `j` is 0 or 1. */
  lemma CycleYearCases(l: int)
    requires 355 <= l <= 10985
    ensures l <= 5669 ==> CycleYear(l) == (50 * l) / 17719 && 1 <= CycleYear(l) <= 15
    ensures 5670 <= l ==> CycleYear(l) == (43 * l) / 15238 && 16 <= CycleYear(l) <= 30
  {
    if l <= 5669 {
      assert (10985 - l) / 5316 == 1;
      assert l / 5670 == 0;
    } else {
      assert (10985 - l) / 5316 == 0;
      assert l / 5670 == 1;
    }
  }

  lemma YearDayCases(l: int, j: int)
    requires 1 <= j <= 30
    ensures j <= 15 ==> YearDay(l, j) == l - (17719 * j) / 50 + 29
    ensures 16 <= j ==> YearDay(l, j) == l - (15238 * j) / 43 + 29
  {
    if j <= 15 {
      assert (30 - j) / 15 == 1 && j / 16 == 0;
    } else {
      assert (30 - j) / 15 == 0 && j / 16 == 1;
    }
  }

  /** 17719 * j is never a multiple of 50 for j in 1..15, nor 15238 * j of 43 for j in 16..30. */
  lemma CycleStartsOffGrid(j: int)
    requires 1 <= j <= 30
    ensures j <= 15 ==> 50 * ((17719 * j) / 50) < 17719 * j
    ensures 16 <= j ==> 43 * ((15238 * j) / 43) < 15238 * j
  {
    if j <= 15 {
      FirstHalfOffGrid(j);
    } else {
      SecondHalfOffGrid(j);
    }
  }

  lemma FirstHalfOffGrid(j: int)
    requires 1 <= j <= 15
    ensures 50 * ((17719 * j) / 50) < 17719 * j
  {
    var t := (17719 * j) / 50 - 354 * j;
    assert 50 * t <= 19 * j < 50 * t + 50;
    assert 0 <= t <= 5;
    // 19 * j == 50 * t has no solution with 1 <= j <= 15
    if t == 0 {
    } else if t == 1 {
      assert 19 * 2 < 50 < 19 * 3;
    } else if t == 2 {
      assert 19 * 5 < 100 < 19 * 6;
    } else if t == 3 {
      assert 19 * 7 < 150 < 19 * 8;
    } else if t == 4 {
      assert 19 * 10 < 200 < 19 * 11;
    } else {
      assert 19 * 13 < 250 < 19 * 14;
    }
  }

  lemma SecondHalfOffGrid(j: int)
    requires 16 <= j <= 30
    ensures 43 * ((15238 * j) / 43) < 15238 * j
  {
    var t := (15238 * j) / 43 - 354 * j;
    assert 43 * t <= 16 * j < 43 * t + 43;
    assert 5 <= t <= 11;
    // 16 * j == 43 * t has no solution with 16 <= j <= 30
    if t == 5 {
      assert 16 * 13 < 215 < 16 * 14;
    } else if t == 6 {
      assert 16 * 16 < 258 < 16 * 17;
    } else if t == 7 {
      assert 16 * 18 < 301 < 16 * 19;
    } else if t == 8 {
      assert 16 * 21 < 344 < 16 * 22;
    } else if t == 9 {
      assert 16 * 24 < 387 < 16 * 25;
    } else if t == 10 {
      assert 16 * 26 < 430 < 16 * 27;
    } else {
      assert 16 * 29 < 473 < 16 * 30;
    }
  }

  /** The shifted day of the year lies in 30..384. */
  lemma YearDayRange(jd: int)
    ensures var l := CycleDay(jd); 30 <= YearDay(l, CycleYear(l)) <= 384
  {
    var l := CycleDay(jd);
    CycleYearCases(l);
    var j := CycleYear(l);
    YearDayCases(l, j);
    CycleStartsOffGrid(j);
  }

  /** 709 * m is never a multiple of 24 for m in 1..12. */
  lemma MonthStartsOffGrid(m: int)
    requires 1 <= m <= 12
    ensures (709 * m) % 24 != 0
  {
    assert (709 * m) % 24 == (13 * m) % 24 by {
      assert 709 * m == 24 * (29 * m) + 13 * m;
    }
  }

  /** Month and day from the shifted day of the year. */
  function MonthOf(l: int): int { (24 * l) / 709 }
  function DayOf(l: int): int { l - (709 * MonthOf(l)) / 24 }

  lemma MonthDayRange(l: int)
    requires 30 <= l <= 384
    ensures 1 <= MonthOf(l) <= 12 && 1 <= DayOf(l) <= 30
  {
    var m := MonthOf(l);
    assert 1 <= m <= 12;
    MonthStartsOffGrid(m);
  }

  /**
   * The tabular Islamic date of a Julian Day Number (the second half of
   * `gregorian_to_hijri`). It is total: every day number has a date, whose
   * month lies in 1..12 and whose day lies in 1..30.
   */
  function HijriOfJdn(jd: int): (h: HDate)
    ensures 1 <= h.month <= 12 && 1 <= h.day <= 30
  {
    var n := CycleCount(jd);
    var l := CycleDay(jd);
    var j := CycleYear(l);
    var l2 := YearDay(l, j);
    YearDayRange(jd);
    MonthDayRange(l2);
    HDate(30 * n + j - 30, MonthOf(l2), DayOf(l2))
  }

  /** Unless the cycle day is the last one, the next day number is the next day of the same cycle. */
  lemma CycleDayStep(jd: int)
    requires CycleDay(jd) < 10985
    ensures CycleDay(jd + 1) == CycleDay(jd) + 1 && CycleCount(jd + 1) == CycleCount(jd)
  {
    var l0 := jd - 1948440 + 10632;
    var n := (l0 - 1) / 10631;
    assert l0 - 1 - 10631 * n < 10630;
    assert n * 10631 <= l0 < n * 10631 + 10631;
  }

  /** A day no later than the 295th shifted day of its year is not the last day of its cycle year. */
  lemma EarlyInYearSameCycleYear(l: int)
    requires 355 <= l <= 10985
    requires YearDay(l, CycleYear(l)) <= 295
    ensures l < 10985 && CycleYear(l + 1) == CycleYear(l)
  {
    CycleYearCases(l);
    var j := CycleYear(l);
    YearDayCases(l, j);
    CycleYearCases(l + 1);
  }

  /**
   * Ramadan runs day after day: inside month 9, the next day number is the
   * next day of month 9, and after day 30 comes month 10. The tabular
   * calendar gives month 9 thirty days.
   */
  lemma RamadanNextDay(jd: int)
    requires HijriOfJdn(jd).month == 9
    ensures HijriOfJdn(jd).day < 30 ==>
      HijriOfJdn(jd + 1) == HDate(HijriOfJdn(jd).year, 9, HijriOfJdn(jd).day + 1)
    ensures HijriOfJdn(jd).day == 30 ==> HijriOfJdn(jd + 1).month == 10
  {
    var l := CycleDay(jd);
    var j := CycleYear(l);
    var l2 := YearDay(l, j);
    assert MonthOf(l2) == 9;
    assert 266 <= l2 <= 295;
    EarlyInYearSameCycleYear(l);
    CycleDayStep(jd);
    CycleYearCases(l);
    YearDayCases(l, j);
    assert YearDay(l + 1, j) == l2 + 1;
    assert DayOf(l2) == l2 - 265;
  }

  /** At the last day of a 30-year cycle the next day number starts the next cycle. */
  lemma CycleWrap(jd: int)
    requires CycleDay(jd) == 10985
    ensures CycleDay(jd + 1) == 355 && CycleCount(jd + 1) == CycleCount(jd) + 1
  {
    var l0 := jd - 1948440 + 10632;
    var n := (l0 - 1) / 10631;
    assert l0 == 10631 * (n + 1);
  }

  /** Consecutive years of the cycle start 354 or 355 shifted days apart. */
  lemma YearLengthFirstHalf(j: int)
    ensures 354 <= (17719 * (j + 1)) / 50 - (17719 * j) / 50 <= 355
  {
  }

  lemma YearLengthSecondHalf(j: int)
    ensures 354 <= (15238 * (j + 1)) / 43 - (15238 * j) / 43 <= 355
  {
  }

  /**
   * From one cycle day to the next the cycle year stays or grows by one.
   * When it grows, the new year starts at shifted day 30 and the old one
   * ended at shifted day 383 or 384.
   */
  lemma CycleYearStep(l: int)
    requires 355 <= l < 10985
    ensures var j := CycleYear(l);
      CycleYear(l + 1) == j || CycleYear(l + 1) == j + 1
    ensures var j := CycleYear(l);
      CycleYear(l + 1) == j + 1 ==> YearDay(l + 1, j + 1) == 30 && 383 <= YearDay(l, j) <= 384
  {
    CycleYearCases(l);
    CycleYearCases(l + 1);
    var j := CycleYear(l);
    var k := CycleYear(l + 1);
    if l + 1 <= 5669 {
      FirstHalfYearStep(l);
    } else if l == 5669 {
      assert j == 15 && k == 16;
      YearDayCases(l, 15);
      YearDayCases(l + 1, 16);
    } else {
      SecondHalfYearStep(l);
    }
  }

  lemma FirstHalfYearStep(l: int)
    requires 355 <= l && l + 1 <= 5669
    requires CycleYear(l) == (50 * l) / 17719 && 1 <= CycleYear(l) <= 15
    requires CycleYear(l + 1) == (50 * (l + 1)) / 17719 && 1 <= CycleYear(l + 1) <= 15
    ensures var j := CycleYear(l);
      CycleYear(l + 1) == j || CycleYear(l + 1) == j + 1
    ensures var j := CycleYear(l);
      CycleYear(l + 1) == j + 1 ==> YearDay(l + 1, j + 1) == 30 && 383 <= YearDay(l, j) <= 384
  {
    var j := CycleYear(l);
    var k := CycleYear(l + 1);
    if k == j + 1 {
      CycleStartsOffGrid(k);
      assert (17719 * k) / 50 == l;
      YearDayCases(l + 1, k);
      YearDayCases(l, j);
      YearLengthFirstHalf(j);
    }
  }

  lemma SecondHalfYearStep(l: int)
    requires 5670 <= l < 10985
    requires CycleYear(l) == (43 * l) / 15238 && 16 <= CycleYear(l) <= 30
    requires CycleYear(l + 1) == (43 * (l + 1)) / 15238 && 16 <= CycleYear(l + 1) <= 30
    ensures var j := CycleYear(l);
      CycleYear(l + 1) == j || CycleYear(l + 1) == j + 1
    ensures var j := CycleYear(l);
      CycleYear(l + 1) == j + 1 ==> YearDay(l + 1, j + 1) == 30 && 383 <= YearDay(l, j) <= 384
  {
    var j := CycleYear(l);
    var k := CycleYear(l + 1);
    if k == j + 1 {
      CycleStartsOffGrid(k);
      assert (15238 * k) / 43 == l;
      YearDayCases(l + 1, k);
      YearDayCases(l, j);
      YearLengthSecondHalf(j);
    }
  }

  /** Within a year the next shifted day is the next day of the month or the first of the next month. */
  lemma MonthStep(l: int)
    requires 30 <= l && l + 1 <= 384
    ensures (MonthOf(l + 1) == MonthOf(l) && DayOf(l + 1) == DayOf(l) + 1) ||
      (MonthOf(l + 1) == MonthOf(l) + 1 && DayOf(l + 1) == 1)
  {
    var m := MonthOf(l);
    var k := MonthOf(l + 1);
    assert k == m || k == m + 1;
    if k == m + 1 {
      MonthDayRange(l + 1);
      MonthStartsOffGrid(k);
      assert (709 * k) / 24 == l;
    }
  }

  /**
   * The Hijri date advances with the day number: the next day is the next
   * day of the same month, the first of the next month, or after month 12
   * the first of month 1 of the next year.
   */
  lemma HijriNextDay(jd: int)
    ensures var h := HijriOfJdn(jd);
      var n := HijriOfJdn(jd + 1);
      n == HDate(h.year, h.month, h.day + 1) ||
      (h.month < 12 && n == HDate(h.year, h.month + 1, 1)) ||
      (h.month == 12 && n == HDate(h.year + 1, 1, 1))
  {
    var l := CycleDay(jd);
    var j := CycleYear(l);
    var l2 := YearDay(l, j);
    YearDayRange(jd);
    YearDayRange(jd + 1);
    if l == 10985 {
      CycleWrap(jd);
      CycleYearCases(l);
      YearDayCases(l, j);
      assert j == 30 && l2 == 383;
      CycleYearCases(355);
      YearDayCases(355, 1);
      assert CycleYear(355) == 1 && YearDay(355, 1) == 30;
      assert MonthOf(383) == 12 && MonthOf(30) == 1 && DayOf(30) == 1;
    } else {
      CycleDayStep(jd);
      CycleYearStep(l);
      if CycleYear(l + 1) == j {
        assert YearDay(l + 1, j) == l2 + 1;
        MonthStep(l2);
        MonthDayRange(l2 + 1);
      } else {
        assert MonthOf(l2) == 12 && MonthOf(30) == 1 && DayOf(30) == 1;
      }
    }
  }

  /** `gregorian_to_hijri`. */
  function GregorianToHijri(g: GDate): (h: HDate)
    ensures 1 <= h.month <= 12 && 1 <= h.day <= 30
  {
    HijriOfJdn(JulianDay(g))
  }

  /** 2021-04-13 is the first of Ramadan 1442. */
  lemma FirstOfRamadan1442()
    ensures JulianDay(GDate(2021, 4, 13)) == 2459318
    ensures GregorianToHijri(GDate(2021, 4, 13)) == HDate(1442, 9, 1)
  {
    assert JulianDay(GDate(2021, 4, 13)) == 13 + 31 + 365 * 6821 + 1705 - 68 + 17 - 32045;
    assert CycleCount(2459318) == 49;
    assert CycleDay(2459318) == 945;
    CycleYearCases(945);
    assert CycleYear(945) == 2;
    YearDayCases(945, 2);
    assert YearDay(945, 2) == 266;
    assert MonthOf(266) == 9;
    assert DayOf(266) == 1;
  }

  // ---- get_hijri_date: "Y/MM/DD" ----

  predicate IsDigits(s: string) {
    forall i :: 0 <= i < |s| ==> '0' <= s[i] <= '9'
  }

  function Digit(k: int): (c: char)
    requires 0 <= k < 10
  {
    "0123456789"[k]
  }

  /** The decimal text of a natural number, as Python's `str` writes it. */
  function NatText(n: nat): (s: string)
    ensures |s| >= 1 && IsDigits(s)
    decreases n
  {
    if n < 10 then [Digit(n)] else NatText(n / 10) + [Digit(n % 10)]
  }

  /** The value of a string of decimal digits. */
  function DigitsValue(s: string): nat
    requires IsDigits(s)
  {
    if s == [] then 0 else 10 * DigitsValue(s[..|s| - 1]) + (s[|s| - 1] - '0') as int
  }

  lemma {:induction false} NatTextValue(n: nat)
    ensures DigitsValue(NatText(n)) == n
    decreases n
  {
    if n >= 10 {
      NatTextValue(n / 10);
      var s := NatText(n);
      assert s[..|s| - 1] == NatText(n / 10);
    }
  }

  /** `f"{x}"`: a minus sign before negative numbers. */
  function IntText(x: int): (s: string)
    ensures '/' !in s
  {
    if x < 0 then "-" + NatText(-x) else NatText(x)
  }

  /** `f"{x:02d}"`: at least two characters, zero-padded when non-negative. */
  function Pad2(x: int): (s: string)
    ensures '/' !in s
    ensures 0 <= x < 100 ==> |s| == 2 && IsDigits(s) && DigitsValue(s) == x
  {
    NatTextValue(if x < 0 then 0 else x);
    if 0 <= x < 10 then "0" + NatText(x) else IntText(x)
  }

  function HijriText(h: HDate): string {
    IntText(h.year) + "/" + Pad2(h.month) + "/" + Pad2(h.day)
  }

  /**
   * `get_hijri_date`, with the clock's reading as a parameter: the text has
   * exactly three '/'-separated fields, the year, and the month and day as
   * two digits each that read back as the month and day.
   */
  function GetHijriDate(today: GDate): (r: string)
    ensures var h := GregorianToHijri(today);
      var f := Split(r, '/');
      |f| == 3 && f[0] == IntText(h.year) &&
      |f[1]| == 2 && IsDigits(f[1]) && DigitsValue(f[1]) == h.month &&
      |f[2]| == 2 && IsDigits(f[2]) && DigitsValue(f[2]) == h.day
  {
    HijriTextFields(GregorianToHijri(today));
    HijriText(GregorianToHijri(today))
  }

  /** Python's `str.split(sep)`. */
  function Split(s: string, sep: char): (r: seq<string>)
    ensures |r| >= 1
    decreases |s|
  {
    if s == [] then [""]
    else if s[0] == sep then [""] + Split(s[1..], sep)
    else var rest := Split(s[1..], sep); [[s[0]] + rest[0]] + rest[1..]
  }

  lemma {:induction false} SplitNoSeparator(a: string, sep: char)
    requires sep !in a
    ensures Split(a, sep) == [a]
    decreases |a|
  {
    if a != [] {
      SplitNoSeparator(a[1..], sep);
      assert [a[0]] + a[1..] == a;
    }
  }

  lemma {:induction false} SplitAtFirst(a: string, sep: char, b: string)
    requires sep !in a
    ensures Split(a + [sep] + b, sep) == [a] + Split(b, sep)
    decreases |a|
  {
    if a == [] {
      assert a + [sep] + b == [sep] + b;
    } else {
      var s := a + [sep] + b;
      assert s[0] == a[0] && s[1..] == a[1..] + [sep] + b;
      SplitAtFirst(a[1..], sep, b);
      assert [a[0]] + a[1..] == a;
    }
  }

  /** The text of a Hijri date with a month in 1..12 and a day in 1..30 splits into its three fields. */
  lemma HijriTextFields(h: HDate)
    requires 1 <= h.month <= 12 && 1 <= h.day <= 30
    ensures var f := Split(HijriText(h), '/');
      |f| == 3 && f[0] == IntText(h.year) &&
      |f[1]| == 2 && IsDigits(f[1]) && DigitsValue(f[1]) == h.month &&
      |f[2]| == 2 && IsDigits(f[2]) && DigitsValue(f[2]) == h.day
  {
    var y, m, d := IntText(h.year), Pad2(h.month), Pad2(h.day);
    assert HijriText(h) == y + ['/'] + (m + ['/'] + d);
    SplitAtFirst(y, '/', m + ['/'] + d);
    SplitAtFirst(m, '/', d);
    SplitNoSeparator(d, '/');
  }

  // ---- get_ramadan_gregorian_dates ----

  predicate IsRamadanStart(jd: int) {
    HijriOfJdn(jd).month == 9 && HijriOfJdn(jd).day == 1
  }

  /**
   * Inside month 9 the month began `day - 1` days earlier: that day number
   * is a first of Ramadan.
   */
  lemma {:induction false} RamadanStartOf(t: int)
    requires HijriOfJdn(t).month == 9
    ensures IsRamadanStart(t - HijriOfJdn(t).day + 1)
    decreases HijriOfJdn(t).day
  {
    var h := HijriOfJdn(t);
    if h.day > 1 {
      HijriNextDay(t - 1);
      assert HijriOfJdn(t - 1) == HDate(h.year, 9, h.day - 1);
      RamadanStartOf(t - 1);
    }
  }

  /**
   * `get_ramadan_gregorian_dates`: search back at most 370 days from today
   * for the first of Ramadan, then collect the days of month 9 from there.
   * Dates are returned as day numbers; the result is empty or the thirty
   * consecutive days of the most recent Ramadan that began within the window.
   */
  method RamadanDates(today: GDate) returns (result: seq<int>)
    ensures var t := JulianDay(today);
      result == [] <==> forall d :: t - 370 < d <= t ==> !IsRamadanStart(d)
    ensures result != [] ==> var t := JulianDay(today);
      t - 370 < result[0] <= t && IsRamadanStart(result[0]) &&
      forall d :: result[0] < d <= t ==> !IsRamadanStart(d)
    ensures |result| == 0 || |result| == 30
    ensures forall k :: 0 <= k < |result| ==>
      result[k] == result[0] + k && HijriOfJdn(result[k]) == HDate(HijriOfJdn(result[0]).year, 9, k + 1)
    ensures result != [] ==> HijriOfJdn(result[0] + |result|).month != 9
    ensures HijriOfJdn(JulianDay(today)).month == 9 ==> JulianDay(today) in result
  {
    var t := JulianDay(today);
    var date := t;
    var found := false;
    var i := 0;
    while i < 370
      invariant 0 <= i <= 370 && date == t - i
      invariant forall d :: date < d <= t ==> !IsRamadanStart(d)
      invariant found ==> IsRamadanStart(date) && i < 370
    {
      var h := HijriOfJdn(date);
      if h.month == 9 && h.day == 1 {
        found := true;
        break;
      }
      date := date - 1;
      i := i + 1;
    }
    if !found {
      RamadanStartInWindow(t);
      return [];
    }
    var start := date;
    assert IsRamadanStart(start);
    result := [];
    var cur := start;
    while true
      invariant cur == start + |result| && |result| <= 30
      invariant forall k :: 0 <= k < |result| ==>
        result[k] == start + k && HijriOfJdn(result[k]) == HDate(HijriOfJdn(start).year, 9, k + 1)
      invariant HijriOfJdn(cur).month == 9 ==> HijriOfJdn(cur) == HDate(HijriOfJdn(start).year, 9, |result| + 1)
      invariant |result| < 30 ==> HijriOfJdn(cur).month == 9
      decreases 30 - |result|
    {
      var h := HijriOfJdn(cur);
      if h.month != 9 {
        break;
      }
      RamadanNextDay(cur);
      result := result + [cur];
      cur := cur + 1;
    }
    if HijriOfJdn(t).month == 9 {
      TodayInRamadan(t, result);
    }
  }

  /** A day of month 9 has a first of Ramadan among the 370 days that end with it. */
  lemma RamadanStartInWindow(t: int)
    ensures HijriOfJdn(t).month == 9 ==> exists d :: t - 370 < d <= t && IsRamadanStart(d)
  {
    if HijriOfJdn(t).month == 9 {
      RamadanStartOf(t);
      var d := t - HijriOfJdn(t).day + 1;
      assert t - 370 < d <= t && IsRamadanStart(d);
    }
  }

  /** A day of month 9 lies in the 30 days that start at the most recent first of Ramadan before it. */
  lemma TodayInRamadan(t: int, result: seq<int>)
    requires HijriOfJdn(t).month == 9
    requires |result| == 30 && IsRamadanStart(result[0]) && result[0] <= t
    requires forall k :: 0 <= k < |result| ==> result[k] == result[0] + k
    requires forall d :: result[0] < d <= t ==> !IsRamadanStart(d)
    ensures t in result
  {
    RamadanStartOf(t);
    var k := t - result[0];
    assert result[k] == t;
  }
}
