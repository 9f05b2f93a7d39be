/**
  Time values and civil dates as section 21.4.1 of ECMA-262 defines them, on unbounded integers.
  A time value counts milliseconds since 1970-01-01T00:00:00Z, a day number counts days since then.
  Dafny's `/` and `%` round towards minus infinity for the positive divisors used here, which is
  the floor and modulo of the standard.
 */
module JsDate {
  /** The milliseconds of n days. */
  function Days(n: int): int {
    n * 86_400_000
  }

  function Day(t: int): int {
    t / 86_400_000
  }

  function TimeWithinDay(t: int): int {
    t % 86_400_000
  }

  predicate IsLeapYear(y: int) {
    y % 4 == 0 && (y % 100 != 0 || y % 400 == 0)
  }

  function DaysInYear(y: int): int {
    if IsLeapYear(y) then 366 else 365
  }

  /** Day number of 1 January of year y. */
  function DayFromYear(y: int): int {
    365 * (y - 1970) + (y - 1969) / 4 - (y - 1901) / 100 + (y - 1601) / 400
  }

  /** Days of the year that precede month m (0 is January). */
  function DaysBeforeMonth(m: int, leap: bool): int
    requires 0 <= m <= 12
  {
    if m == 0 then 0 else if m == 1 then 31 else
    (if leap then 1 else 0) +
    if m == 2 then 59 else if m == 3 then 90 else if m == 4 then 120 else if m == 5 then 151
    else if m == 6 then 181 else if m == 7 then 212 else if m == 8 then 243 else if m == 9 then 273
    else if m == 10 then 304 else if m == 11 then 334 else 365
  }

  lemma YearLength(y: int)
    ensures DayFromYear(y + 1) == DayFromYear(y) + DaysInYear(y)
  {
    QuotientSteps(y - 1969, 4);
    QuotientSteps(y - 1901, 100);
    QuotientSteps(y - 1601, 400);
    LeapQuotients(y);
  }

  /** The three quotients of DayFromYear step exactly at the years that the leap rule looks at. */
  lemma LeapQuotients(y: int)
    ensures (y - 1968) % 4 == 0 <==> y % 4 == 0
    ensures (y - 1900) % 100 == 0 <==> y % 100 == 0
    ensures (y - 1600) % 400 == 0 <==> y % 400 == 0
    ensures y % 400 == 0 ==> y % 100 == 0
    ensures y % 100 == 0 ==> y % 4 == 0
  {
    Residue4(y);
    Residue100(y);
    Residue400(y);
  }

  lemma Residue4(y: int)
    ensures (y - 1968) % 4 == y % 4
  {
  }

  lemma Residue100(y: int)
    ensures (y - 1900) % 100 == y % 100
    ensures y % 100 == 0 ==> y % 4 == 0
  {
  }

  lemma Residue400(y: int)
    ensures (y - 1600) % 400 == y % 400
    ensures y % 400 == 0 ==> y % 100 == 0
  {
  }

  lemma QuotientSteps(x: int, n: int)
    requires n == 4 || n == 100 || n == 400
    ensures (x + 1) / n == x / n + (if (x + 1) % n == 0 then 1 else 0)
  {
  }

  lemma {:induction false} DayFromYearMonotone(y: int, z: int)
    requires y <= z
    ensures DayFromYear(y) + 365 * (z - y) <= DayFromYear(z)
    decreases z - y
  {
    if y < z {
      YearLength(y);
      DayFromYearMonotone(y + 1, z);
    }
  }

  /** The year that day d falls in: the largest year that starts no later than d. */
  function YearFromDay(d: int): (y: int)
    ensures DayFromYear(y) <= d < DayFromYear(y + 1)
  {
    var guess := 1970 + (400 * d) / 146097;
    if d < DayFromYear(guess) then
      YearGuess(d);
      guess - 1
    else if d >= DayFromYear(guess + 1) then
      YearGuess(d);
      guess + 1
    else
      guess
  }

  /** The quotient by the mean Gregorian year is off by at most one. */
  lemma YearGuess(d: int)
    ensures var guess := 1970 + (400 * d) / 146097;
            DayFromYear(guess - 1) <= d < DayFromYear(guess + 2)
  {
  }

  lemma YearIsUnique(d: int, y: int)
    requires DayFromYear(y) <= d < DayFromYear(y + 1)
    ensures YearFromDay(d) == y
  {
    hide DayFromYear;
    var z := YearFromDay(d);
    if z < y {
      DayFromYearMonotone(z + 1, y);
    } else if y < z {
      DayFromYearMonotone(y + 1, z);
    }
  }

  /** The month (0 to 11) that the 0-based day of the year falls in. */
  function MonthOf(dayInYear: int, leap: bool): (m: int)
    requires 0 <= dayInYear < if leap then 366 else 365
    ensures 0 <= m <= 11
    ensures DaysBeforeMonth(m, leap) <= dayInYear < DaysBeforeMonth(m + 1, leap)
  {
    var extra := if leap then 1 else 0;
    if dayInYear < 31 then 0
    else if dayInYear < 59 + extra then 1
    else if dayInYear < 90 + extra then 2
    else if dayInYear < 120 + extra then 3
    else if dayInYear < 151 + extra then 4
    else if dayInYear < 181 + extra then 5
    else if dayInYear < 212 + extra then 6
    else if dayInYear < 243 + extra then 7
    else if dayInYear < 273 + extra then 8
    else if dayInYear < 304 + extra then 9
    else if dayInYear < 334 + extra then 10
    else 11
  }

  function DayWithinYear(d: int): (n: int)
    ensures 0 <= n < DaysInYear(YearFromDay(d))
  {
    YearLength(YearFromDay(d));
    d - DayFromYear(YearFromDay(d))
  }

  function MonthFromDay(d: int): (m: int)
    ensures 0 <= m <= 11
  {
    MonthOf(DayWithinYear(d), IsLeapYear(YearFromDay(d)))
  }

  /** Day of the month, from 1. */
  function DateFromDay(d: int): (dt: int)
    ensures 1 <= dt <= 31
  {
    DayWithinYear(d) - DaysBeforeMonth(MonthFromDay(d), IsLeapYear(YearFromDay(d))) + 1
  }

  /** 0 is Sunday. */
  function WeekDay(d: int): (w: int)
    ensures 0 <= w <= 6
  {
    (d + 4) % 7
  }

  /** Month and date may be out of range; they carry into the year and the month. */
  function MakeDay(year: int, month: int, date: int): int {
    var y := year + month / 12;
    DayFromYear(y) + DaysBeforeMonth(month % 12, IsLeapYear(y)) + date - 1
  }

  function MakeTime(day: int, withinDay: int): int {
    Days(day) + withinDay
  }

  /** `Date.UTC(year, month, date)`: a year from 0 to 99 stands for the twentieth century. */
  function DateUtc(year: int, month: int, date: int): int {
    var y := if 0 <= year <= 99 then 1900 + year else year;
    MakeTime(MakeDay(y, month, date), 0)
  }

  function GetUtcFullYear(t: int): int { YearFromDay(Day(t)) }
  function GetUtcMonth(t: int): int { MonthFromDay(Day(t)) }
  function GetUtcDate(t: int): int { DateFromDay(Day(t)) }
  function GetUtcDay(t: int): (w: int)
    ensures 0 <= w <= 6
  {
    WeekDay(Day(t))
  }

  function SetUtcDate(t: int, date: int): int {
    MakeTime(MakeDay(GetUtcFullYear(t), GetUtcMonth(t), date), TimeWithinDay(t))
  }

  function SetUtcMonth(t: int, month: int): int {
    MakeTime(MakeDay(GetUtcFullYear(t), month, GetUtcDate(t)), TimeWithinDay(t))
  }

  /** A day number is rebuilt from its year, month and date. */
  lemma CivilRoundTrip(d: int)
    ensures MakeDay(YearFromDay(d), MonthFromDay(d), DateFromDay(d)) == d
  {
    hide DayFromYear, DaysBeforeMonth, YearFromDay, MonthFromDay, IsLeapYear, MakeDay;
    MakeDayInside(YearFromDay(d), MonthFromDay(d), DateFromDay(d));
  }

  lemma MakeDayInside(y: int, m: int, dt: int)
    requires 0 <= m <= 11
    ensures MakeDay(y, m, dt) == DayFromYear(y) + DaysBeforeMonth(m, IsLeapYear(y)) + dt - 1
  {
    hide DayFromYear, DaysBeforeMonth, IsLeapYear;
    assert m / 12 == 0 && m % 12 == m;
  }

  lemma MonthIsUnique(n: int, leap: bool, m: int)
    requires 0 <= m <= 11 && 0 <= n < if leap then 366 else 365
    requires DaysBeforeMonth(m, leap) <= n < DaysBeforeMonth(m + 1, leap)
    ensures MonthOf(n, leap) == m
  {
  }

  lemma MonthsFitInYear(m: int, leap: bool)
    requires 0 <= m <= 11
    ensures 0 <= DaysBeforeMonth(m, leap) < DaysBeforeMonth(m + 1, leap) <= if leap then 366 else 365
  {
  }

  /** A date that exists in the month is read back from the day number that MakeDay gives it. */
  lemma MakeDayMeetsStandard(year: int, month: int, date: int)
    requires 0 <= month <= 11
    requires 1 <= date <= DaysBeforeMonth(month + 1, IsLeapYear(year)) - DaysBeforeMonth(month, IsLeapYear(year))
    ensures var d := MakeDay(year, month, date);
            YearFromDay(d) == year && MonthFromDay(d) == month && DateFromDay(d) == date
  {
    hide DayFromYear, DaysBeforeMonth, YearFromDay, IsLeapYear, MakeDay, MonthOf;
    var d, leap := MakeDay(year, month, date), IsLeapYear(year);
    var n := DaysBeforeMonth(month, leap) + date - 1;
    MakeDayInside(year, month, date);
    MonthsFitInYear(month, leap);
    YearLength(year);
    YearIsUnique(d, year);
    MonthIsUnique(n, leap, month);
  }

  /** 1 January 1970 is a Thursday, weekdays go up by one a day, and 0 stands for Sunday. */
  lemma WeekDaysOfTheStandard(d: int)
    ensures WeekDay(0) == 4
    ensures WeekDay(d + 1) == if WeekDay(d) == 6 then 0 else WeekDay(d) + 1
  {
  }

  /** The lengths of the twelve months, and the first day of year 1970. */
  lemma MonthsOfTheStandard(leap: bool)
    ensures var days := [31, if leap then 29 else 28, 31, 30, 31, 30, 31, 31, 30, 31, 30, 31];
            forall m | 0 <= m < 12 :: DaysBeforeMonth(m + 1, leap) - DaysBeforeMonth(m, leap) == days[m]
    ensures DaysBeforeMonth(0, leap) == 0
    ensures MakeDay(1970, 0, 1) == 0
  {
  }
}
