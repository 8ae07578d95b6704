/**
 * The proleptic Gregorian calendar as .NET's DateTime uses it: a date is
 * stored as a day number (days since 0001-01-01), and the Year, Month and Day
 * properties take that number apart through 400-, 100-, 4- and 1-year cycles.
 * DayNumber is the constructor's direction (year, month, day to days) and
 * CivilFromDays the properties' direction; the two are proved inverse on the
 * representable range 0001-01-01 .. 9999-12-31.
 */
module Calendar {

  const DaysPerYear := 365
  const DaysPer4Years := 1461
  const DaysPer100Years := 36524
  const DaysPer400Years := 146097
  /** Day number of 10000-01-01; every representable date lies below it. */
  const DaysTo10000 := 3652059

  datatype Date = Date(year: int, month: int, day: int)

  predicate IsLeapYear(year: int) {
    year % 4 == 0 && (year % 100 != 0 || year % 400 == 0)
  }

  /** Days before the first of each month; entry 12 is the length of the year. */
  function DaysToMonth(leap: bool): (t: seq<int>)
    ensures |t| == 13 && t[0] == 0 && t[12] == if leap then 366 else 365
  {
    if leap then [0, 31, 60, 91, 121, 152, 182, 213, 244, 274, 305, 335, 366]
    else [0, 31, 59, 90, 120, 151, 181, 212, 243, 273, 304, 334, 365]
  }

  /** Later months start later in the year. */
  lemma DaysToMonthIncreasing(leap: bool, i: int, j: int)
    requires 0 <= i < j <= 12
    ensures DaysToMonth(leap)[i] < DaysToMonth(leap)[j]
  {
  }

  function DaysInMonth(year: int, month: int): (n: int)
    requires 1 <= month <= 12
    ensures 28 <= n <= 31
    ensures month == 2 ==> (n == 29 <==> IsLeapYear(year))
  {
    var t := DaysToMonth(IsLeapYear(year));
    t[month] - t[month - 1]
  }

  /** The arguments DateTime's constructor accepts as a date. */
  predicate ValidDate(year: int, month: int, day: int) {
    1 <= year <= 9999 && 1 <= month <= 12 && 1 <= day <= DaysInMonth(year, month)
  }

  /** Days from 0001-01-01 to the first of January of `year`. */
  function DaysBeforeYear(year: int): int
    requires year >= 1
  {
    var y := year - 1;
    y * DaysPerYear + y / 4 - y / 100 + y / 400
  }

  /** Whether the year that ends a run of cycles is a leap year, in GetDatePart's terms. */
  predicate LeapCycle(n100: int, n4: int, n1: int) {
    n1 == 3 && (n4 != 24 || n100 == 3)
  }

  /** Euclidean division is unique: a quotient and a remainder in range are the quotient and the remainder. */
  lemma DivModUnique(x: int, d: int, q: int, r: int)
    requires d > 0 && 0 <= r < d && x == q * d + r
    ensures x / d == q && x % d == r
  {
    var k := q - x / d;
    assert -d < k * d < d;
    SmallMultipleIsZero(k, d);
  }

  lemma SmallMultipleIsZero(k: int, d: int)
    requires d > 0 && -d < k * d < d
    ensures k == 0
  {
  }

  /**
   * A year written in cycles: year - 1 == 400 * a + 100 * b + 4 * c + e.
   * The days before it and whether it is a leap year follow from the cycles alone.
   */
  lemma CycleYear(a: int, b: int, c: int, e: int)
    requires a >= 0 && 0 <= b <= 3 && 0 <= c <= 24 && 0 <= e <= 3
    ensures DaysBeforeYear(400 * a + 100 * b + 4 * c + e + 1)
            == DaysPer400Years * a + DaysPer100Years * b + DaysPer4Years * c + DaysPerYear * e
    ensures IsLeapYear(400 * a + 100 * b + 4 * c + e + 1) == LeapCycle(b, c, e)
  {
    var y := 400 * a + 100 * b + 4 * c + e;
    DivModUnique(y, 4, 100 * a + 25 * b + c, e);
    DivModUnique(y, 100, 4 * a + b, 4 * c + e);
    DivModUnique(y, 400, a, 100 * b + 4 * c + e);
    var year := y + 1;
    if e == 3 {
      DivModUnique(year, 4, 100 * a + 25 * b + c + 1, 0);
    } else {
      DivModUnique(year, 4, 100 * a + 25 * b + c, e + 1);
    }
    if c == 24 && e == 3 {
      DivModUnique(year, 100, 4 * a + b + 1, 0);
      if b == 3 {
        DivModUnique(year, 400, a + 1, 0);
      } else {
        DivModUnique(year, 400, a, 100 * b + 100);
      }
    } else {
      DivModUnique(year, 100, 4 * a + b, 4 * c + e + 1);
    }
  }

  /** Every year from 1 on can be written in cycles. */
  lemma YearCycles(year: int) returns (a: int, b: int, c: int, e: int)
    requires year >= 1
    ensures a >= 0 && 0 <= b <= 3 && 0 <= c <= 24 && 0 <= e <= 3
    ensures year == 400 * a + 100 * b + 4 * c + e + 1
  {
    var y := year - 1;
    a := y / 400;
    var r := y % 400;
    b := r / 100;
    var r2 := r % 100;
    c := r2 / 4;
    e := r2 % 4;
  }

  /** DateTime's DateToTicks, counted in days: the day number of a valid date. */
  function DayNumber(year: int, month: int, day: int): (n: int)
    requires ValidDate(year, month, day)
    ensures 0 <= n < DaysTo10000
  {
    DayNumberInRange(year, month, day);
    DaysBeforeYear(year) + DaysToMonth(IsLeapYear(year))[month - 1] + day - 1
  }

  lemma DayNumberInRange(year: int, month: int, day: int)
    requires ValidDate(year, month, day)
    ensures 0 <= DaysBeforeYear(year) + DaysToMonth(IsLeapYear(year))[month - 1] + day - 1 < DaysTo10000
  {
    var a, b, c, e := YearCycles(year);
    CycleYear(a, b, c, e);
    var t := DaysToMonth(IsLeapYear(year));
    assert t[month - 1] + day - 1 < t[12];
    if a == 24 {
      assert 100 * b + 4 * c + e <= 398;
      if b == 3 && c == 24 {
        assert e <= 2 && !IsLeapYear(year);
      }
    }
  }

  /** The cycles GetDatePart splits a day number into. */
  datatype Cycles = Cycles(n400: int, n100: int, n4: int, n1: int, dayOfYear: int)

  /**
   * The first steps of GetDatePart: whole 400-year cycles, then 100-year
   * cycles (at most 3, the fourth being one day longer), 4-year cycles and
   * years (at most 3, the fourth being the leap year), and the day in the year.
   */
  function SplitDays(n: int): (s: Cycles)
    requires 0 <= n
    ensures n == DaysPer400Years * s.n400 + DaysPer100Years * s.n100 + DaysPer4Years * s.n4
                 + DaysPerYear * s.n1 + s.dayOfYear
    ensures s.n400 >= 0 && 0 <= s.n100 <= 3 && 0 <= s.n4 <= 24 && 0 <= s.n1 <= 3
    ensures 0 <= s.dayOfYear < if LeapCycle(s.n100, s.n4, s.n1) then 366 else 365
  {
    var n400 := n / DaysPer400Years;
    var r1 := n - n400 * DaysPer400Years;
    var n100 := if r1 / DaysPer100Years == 4 then 3 else r1 / DaysPer100Years;
    var r2 := r1 - n100 * DaysPer100Years;
    var n4 := r2 / DaysPer4Years;
    var r3 := r2 - n4 * DaysPer4Years;
    var n1 := if r3 / DaysPerYear == 4 then 3 else r3 / DaysPerYear;
    Cycles(n400, n100, n4, n1, r3 - n1 * DaysPerYear)
  }

  /** SplitDays recovers the cycles a day number was built from. */
  lemma SplitDaysOfCycles(a: int, b: int, c: int, e: int, dayOfYear: int)
    requires a >= 0 && 0 <= b <= 3 && 0 <= c <= 24 && 0 <= e <= 3
    requires 0 <= dayOfYear < if LeapCycle(b, c, e) then 366 else 365
    ensures SplitDays(DaysPer400Years * a + DaysPer100Years * b + DaysPer4Years * c
                      + DaysPerYear * e + dayOfYear) == Cycles(a, b, c, e, dayOfYear)
  {
    var j := DaysPerYear * e + dayOfYear;
    var i := DaysPer4Years * c + j;
    var r := DaysPer100Years * b + i;
    var n := DaysPer400Years * a + r;
    DivModUnique(n, DaysPer400Years, a, r);
    if i < DaysPer100Years {
      DivModUnique(r, DaysPer100Years, b, i);
    } else {
      DivModUnique(r, DaysPer100Years, 4, 0);
    }
    DivModUnique(i, DaysPer4Years, c, j);
    if dayOfYear < 365 {
      DivModUnique(j, DaysPerYear, e, dayOfYear);
    } else {
      DivModUnique(j, DaysPerYear, 4, 0);
    }
  }

  /** The month whose span of days-before-month values holds `dayOfYear`, searched from `m` up. */
  function FindMonth(t: seq<int>, dayOfYear: int, m: int): (month: int)
    requires |t| == 13 && 1 <= m <= 12 && t[m - 1] <= dayOfYear < t[12]
    ensures m <= month <= 12 && t[month - 1] <= dayOfYear < t[month]
    decreases 12 - m
  {
    if dayOfYear < t[m] then m else FindMonth(t, dayOfYear, m + 1)
  }

  /**
   * GetDatePart: the year, month and day of a day number. The result is a
   * valid date and DayNumber maps it back to `n`.
   */
  function CivilFromDays(n: int): (date: Date)
    requires 0 <= n < DaysTo10000
    ensures ValidDate(date.year, date.month, date.day)
    ensures DayNumber(date.year, date.month, date.day) == n
  {
    var s := SplitDays(n);
    var year := 400 * s.n400 + 100 * s.n100 + 4 * s.n4 + s.n1 + 1;
    var t := DaysToMonth(LeapCycle(s.n100, s.n4, s.n1));
    var month := FindMonth(t, s.dayOfYear, 1);
    var day := s.dayOfYear - t[month - 1] + 1;
    CivilFromCycles(s, year, t, month, day);
    Date(year, month, day)
  }

  /** The date CivilFromDays assembles from the cycles of `n` is valid and numbered `n`. */
  lemma CivilFromCycles(s: Cycles, year: int, t: seq<int>, month: int, day: int)
    requires s.n400 >= 0 && 0 <= s.n100 <= 3 && 0 <= s.n4 <= 24 && 0 <= s.n1 <= 3
    requires 0 <= s.dayOfYear < if LeapCycle(s.n100, s.n4, s.n1) then 366 else 365
    requires DaysPer400Years * s.n400 + DaysPer100Years * s.n100 + DaysPer4Years * s.n4
             + DaysPerYear * s.n1 + s.dayOfYear < DaysTo10000
    requires year == 400 * s.n400 + 100 * s.n100 + 4 * s.n4 + s.n1 + 1
    requires t == DaysToMonth(LeapCycle(s.n100, s.n4, s.n1))
    requires 1 <= month <= 12 && t[month - 1] <= s.dayOfYear < t[month]
    requires day == s.dayOfYear - t[month - 1] + 1
    ensures ValidDate(year, month, day)
    ensures DayNumber(year, month, day)
            == DaysPer400Years * s.n400 + DaysPer100Years * s.n100 + DaysPer4Years * s.n4
               + DaysPerYear * s.n1 + s.dayOfYear
  {
    CycleYear(s.n400, s.n100, s.n4, s.n1);
    assert year <= 9999 by {
      if s.n400 == 24 {
        assert !(s.n100 == 3 && s.n4 == 24 && s.n1 == 3);
      }
    }
    assert IsLeapYear(year) == LeapCycle(s.n100, s.n4, s.n1);
    assert ValidDate(year, month, day);
  }

  /** Taking apart the day number of a valid date gives that date back. */
  lemma DayNumberRoundTrip(year: int, month: int, day: int)
    requires ValidDate(year, month, day)
    ensures CivilFromDays(DayNumber(year, month, day)) == Date(year, month, day)
  {
    var a, b, c, e := YearCycles(year);
    var t := DaysToMonth(LeapCycle(b, c, e));
    var dayOfYear := t[month - 1] + day - 1;
    var n := DaysPer400Years * a + DaysPer100Years * b + DaysPer4Years * c + DaysPerYear * e + dayOfYear;
    DayNumberOfCycles(year, month, day, a, b, c, e);
    assert DayNumber(year, month, day) == n;
    CivilFromDaysOfCycles(a, b, c, e, dayOfYear, month);
    assert CivilFromDays(n) == Date(year, month, day);
  }

  /** The day number of a valid date, written through the cycles of its year and its day in that year. */
  lemma DayNumberOfCycles(year: int, month: int, day: int, a: int, b: int, c: int, e: int)
    requires ValidDate(year, month, day)
    requires a >= 0 && 0 <= b <= 3 && 0 <= c <= 24 && 0 <= e <= 3
    requires year == 400 * a + 100 * b + 4 * c + e + 1
    ensures 0 <= DaysToMonth(LeapCycle(b, c, e))[month - 1] + day - 1 < if LeapCycle(b, c, e) then 366 else 365
    ensures DaysToMonth(LeapCycle(b, c, e))[month - 1] <= DaysToMonth(LeapCycle(b, c, e))[month - 1] + day - 1
            < DaysToMonth(LeapCycle(b, c, e))[month]
    ensures DayNumber(year, month, day)
            == DaysPer400Years * a + DaysPer100Years * b + DaysPer4Years * c + DaysPerYear * e
               + DaysToMonth(LeapCycle(b, c, e))[month - 1] + day - 1
  {
    CycleYear(a, b, c, e);
    var t := DaysToMonth(IsLeapYear(year));
    assert t[month - 1] + day - 1 < t[12];
  }

  /** CivilFromDays on a day number given by its cycles and its day in the year. */
  lemma CivilFromDaysOfCycles(a: int, b: int, c: int, e: int, dayOfYear: int, month: int)
    requires a >= 0 && 0 <= b <= 3 && 0 <= c <= 24 && 0 <= e <= 3
    requires 0 <= dayOfYear < if LeapCycle(b, c, e) then 366 else 365
    requires DaysPer400Years * a + DaysPer100Years * b + DaysPer4Years * c + DaysPerYear * e + dayOfYear < DaysTo10000
    requires 1 <= month <= 12
    requires DaysToMonth(LeapCycle(b, c, e))[month - 1] <= dayOfYear < DaysToMonth(LeapCycle(b, c, e))[month]
    ensures CivilFromDays(DaysPer400Years * a + DaysPer100Years * b + DaysPer4Years * c + DaysPerYear * e + dayOfYear)
            == Date(400 * a + 100 * b + 4 * c + e + 1, month, dayOfYear - DaysToMonth(LeapCycle(b, c, e))[month - 1] + 1)
  {
    SplitDaysOfCycles(a, b, c, e, dayOfYear);
    FindMonthOfDay(LeapCycle(b, c, e), 1, month, dayOfYear);
  }

  /** The month search, started at any month up to `month`, finds the month whose days hold `dayOfYear`. */
  lemma {:induction false} FindMonthOfDay(leap: bool, m: int, month: int, dayOfYear: int)
    requires 1 <= m <= month <= 12
    requires DaysToMonth(leap)[month - 1] <= dayOfYear < DaysToMonth(leap)[month]
    ensures DaysToMonth(leap)[m - 1] <= dayOfYear
    ensures FindMonth(DaysToMonth(leap), dayOfYear, m) == month
    decreases month - m
  {
    if m < month {
      DaysToMonthIncreasing(leap, m - 1, month - 1);
      DaysToMonthIncreasing(leap, m, month);
      FindMonthOfDay(leap, m + 1, month, dayOfYear);
    }
  }

  /** Distinct valid dates have distinct day numbers. */
  lemma {:induction false} DayNumberInjective(y1: int, m1: int, d1: int, y2: int, m2: int, d2: int)
    requires ValidDate(y1, m1, d1) && ValidDate(y2, m2, d2)
    requires DayNumber(y1, m1, d1) == DayNumber(y2, m2, d2)
    ensures y1 == y2 && m1 == m2 && d1 == d2
  {
    DayNumberRoundTrip(y1, m1, d1);
    DayNumberRoundTrip(y2, m2, d2);
  }
}
