/**
  UTC day, week and month arithmetic of src/services/custody/dateUtils.js on time values, with the
  closed forms that the calendar relies on.
 */
module DateUtils {
  import opened JsDate

  /** 1 January of year 100, the first time value whose year `Date.UTC` takes literally for good. */
  const FIRST_INSTANT: int := -59_011_459_200_000

  type Instant = t: int | FIRST_INSTANT <= t witness 0

  function UtcDayStart(t: int): int {
    DateUtc(GetUtcFullYear(t), GetUtcMonth(t), GetUtcDate(t))
  }

  function AddUtcDays(t: int, days: int): int {
    SetUtcDate(t, GetUtcDate(t) + days)
  }

  function MondayOfCalendarWeek(t: int): int {
    var day := UtcDayStart(t);
    var utcDay := GetUtcDay(day);
    var daysFromMonday := if utcDay == 0 then 6 else utcDay - 1;
    AddUtcDays(day, -daysFromMonday)
  }

  function CalendarWeekIndexSince(start: int, current: int): int {
    (MondayOfCalendarWeek(current) - MondayOfCalendarWeek(start)) / Days(7)
  }

  function AddUtcMonths(t: int, months: int): int {
    SetUtcMonth(t, GetUtcMonth(t) + months)
  }

  predicate IsMidnight(t: int) {
    TimeWithinDay(t) == 0
  }

  /** Midnight of day number d. */
  function Midnight(d: int): (t: int)
    ensures Day(t) == d && IsMidnight(t)
  {
    Days(d)
  }

  /** Number of the Monday-to-Sunday week of day d; week 0 holds 1 January 1970. */
  function WeekNumber(d: int): int {
    (d + 3) / 7
  }

  lemma MakeDayInYear(year: int, month: int, date: int)
    requires 0 <= month <= 11 && 1 <= date
    ensures MakeDay(year, month, date) >= DayFromYear(year)
  {
    hide DayFromYear;
  }

  /** A year that is read as 1900 years later gives a day far in the future. */
  lemma RemappedDayIsFar(t: int)
    requires 0 <= GetUtcFullYear(t) <= 99
    ensures IsMidnight(UtcDayStart(t)) && Day(UtcDayStart(t)) > Day(t) + 7
  {
    hide DayFromYear, DaysBeforeMonth, DaysInYear, YearFromDay, MonthFromDay, DateFromDay;
    var d := Day(t);
    var y := YearFromDay(d);
    CivilRoundTrip(d);
    MakeDayInYear(1900 + y, MonthFromDay(d), DateFromDay(d));
    DayFromYearMonotone(y + 1, 1900 + y);
  }

  /** Rebuilding a date from its UTC fields is flooring to the day, except in years 0 to 99. */
  lemma UtcDayStartExact(t: int)
    ensures UtcDayStart(t) == Midnight(Day(t)) <==> !(0 <= GetUtcFullYear(t) <= 99)
  {
    hide DayFromYear, DaysBeforeMonth, DaysInYear, YearFromDay, MonthFromDay, DateFromDay;
    CivilRoundTrip(Day(t));
    if 0 <= GetUtcFullYear(t) <= 99 {
      RemappedDayIsFar(t);
    }
  }

  /** 1 January of year 50 is floored to 1 January 1950. */
  lemma YearFiftyIsRemapped()
    ensures var t := Midnight(MakeDay(50, 0, 1));
            && GetUtcFullYear(t) == 50
            && UtcDayStart(t) == Midnight(MakeDay(1950, 0, 1)) != Midnight(Day(t))
  {
    hide DayFromYear, YearFromDay, MonthFromDay, DateFromDay, MakeDay;
    MakeDayMeetsStandard(50, 0, 1);
    MakeDayMeetsStandard(1950, 0, 1);
  }

  lemma InstantYear(t: Instant)
    ensures GetUtcFullYear(t) >= 100
  {
    var y := YearFromDay(Day(t));
    if y < 100 {
      DayFromYearMonotone(y + 1, 100);
    }
  }

  lemma UtcDayStartIsFloor(t: Instant)
    ensures UtcDayStart(t) == Midnight(Day(t))
    ensures UtcDayStart(t) <= t < UtcDayStart(t) + Days(1)
    ensures FIRST_INSTANT <= UtcDayStart(t)
    ensures IsMidnight(t) ==> UtcDayStart(t) == t
  {
    InstantYear(t);
    UtcDayStartExact(t);
  }

  lemma AddUtcDaysExact(t: int, days: int)
    ensures AddUtcDays(t, days) == t + Days(days)
  {
    hide DayFromYear, DaysBeforeMonth, DaysInYear, YearFromDay, MonthFromDay, DateFromDay;
    CivilRoundTrip(Day(t));
  }

  /** The Monday found is a Monday midnight, and the date lies in the seven days it opens. */
  lemma MondayExact(t: Instant)
    ensures var m := MondayOfCalendarWeek(t);
            && m == Midnight(7 * WeekNumber(Day(t)) - 3)
            && GetUtcDay(m) == 1
            && m <= t < m + Days(7)
  {
    hide UtcDayStart, AddUtcDays, WeekNumber;
    UtcDayStartIsFloor(t);
    MondayOfDay(Day(t));
    AddUtcDaysExact(UtcDayStart(t), -((Day(t) + 3) % 7));
  }

  /** The Monday is right for a time value if and only if its year is not one that `Date.UTC` remaps. */
  lemma MondayIffNotRemapped(t: int)
    ensures MondayOfCalendarWeek(t) == Midnight(7 * WeekNumber(Day(t)) - 3) <==> !(0 <= GetUtcFullYear(t) <= 99)
  {
    hide UtcDayStart, AddUtcDays, WeekNumber, GetUtcFullYear;
    var d := Day(UtcDayStart(t));
    AddUtcDaysExact(UtcDayStart(t), -((d + 3) % 7));
    MondayOfDay(d);
    MondayOfDay(Day(t));
    if 0 <= GetUtcFullYear(t) <= 99 {
      RemappedDayIsFar(t);
    } else {
      UtcDayStartExact(t);
    }
  }

  lemma MondayOfDay(d: int)
    ensures (if WeekDay(d) == 0 then 6 else WeekDay(d) - 1) == (d + 3) % 7
    ensures d - (d + 3) % 7 == 7 * WeekNumber(d) - 3
    ensures WeekDay(7 * WeekNumber(d) - 3) == 1
  {
    assert (d + 3) % 7 == (d + 3) - 7 * ((d + 3) / 7);
    assert 7 * ((d + 3) / 7) + 1 == 1 + 7 * ((d + 3) / 7);
  }

  /** The division in the week index is exact, and the index counts calendar weeks. */
  lemma WeekIndexExact(start: Instant, current: Instant)
    ensures (MondayOfCalendarWeek(current) - MondayOfCalendarWeek(start)) % Days(7) == 0
    ensures CalendarWeekIndexSince(start, current) == WeekNumber(Day(current)) - WeekNumber(Day(start))
  {
    hide MondayOfCalendarWeek;
    MondayExact(start);
    MondayExact(current);
    var n := WeekNumber(Day(current)) - WeekNumber(Day(start));
    assert MondayOfCalendarWeek(current) - MondayOfCalendarWeek(start) == Days(7 * n);
  }

  /** Two dates get the same index exactly when the same Monday opens their weeks. */
  lemma WeekIndexConstantOnWeeks(start: Instant, a: Instant, b: Instant)
    ensures CalendarWeekIndexSince(start, a) == CalendarWeekIndexSince(start, b)
            <==> MondayOfCalendarWeek(a) == MondayOfCalendarWeek(b)
  {
    WeekIndexExact(start, a);
    WeekIndexExact(start, b);
    MondayExact(a);
    MondayExact(b);
  }

  /**
    Twelve months later is the same month and date of the next year, save that 29 February becomes
    1 March; the distance is the length of the year whose February lies between.
   */
  lemma TwelveMonthsLater(t: int)
    ensures var e := AddUtcMonths(t, 12);
            var y, m, dt := GetUtcFullYear(t), GetUtcMonth(t), GetUtcDate(t);
            && GetUtcFullYear(e) == y + 1
            && (GetUtcMonth(e), GetUtcDate(e)) == (if m == 1 && dt == 29 then (2, 1) else (m, dt))
            && TimeWithinDay(e) == TimeWithinDay(t)
            && e - t == Days(if m <= 1 then DaysInYear(y) else DaysInYear(y + 1))
  {
    hide DayFromYear, DaysBeforeMonth, DaysInYear, YearFromDay, MonthFromDay, DateFromDay, MakeDay;
    var d := Day(t);
    var y, m, dt := YearFromDay(d), MonthFromDay(d), DateFromDay(d);
    var rolls := m == 1 && dt == 29;
    var m', dt' := if rolls then 2 else m, if rolls then 1 else dt;
    YearLater(d, m', dt');
    MakeDayMeetsStandard(y + 1, m', dt');
  }

  /** TwelveMonthsLater on day numbers. */
  lemma YearLater(d: int, m': int, dt': int)
    requires var y, m, dt := YearFromDay(d), MonthFromDay(d), DateFromDay(d);
             (m', dt') == (if m == 1 && dt == 29 then (2, 1) else (m, dt))
    ensures var y, m, dt := YearFromDay(d), MonthFromDay(d), DateFromDay(d);
            && 1 <= dt' <= DaysBeforeMonth(m' + 1, IsLeapYear(y + 1)) - DaysBeforeMonth(m', IsLeapYear(y + 1))
            && MakeDay(y, m + 12, dt) == MakeDay(y + 1, m', dt')
            && MakeDay(y + 1, m', dt') == d + if m <= 1 then DaysInYear(y) else DaysInYear(y + 1)
  {
    hide DayFromYear, YearFromDay, MonthFromDay, DateFromDay, IsLeapYear;
    var y, m, dt := YearFromDay(d), MonthFromDay(d), DateFromDay(d);
    CivilRoundTrip(d);
    YearLength(y);
    LeapYearsApart(y);
    DateFits(d);
    NextYearsMonth(m);
    MakeDayInside(y, m, dt);
    MakeDayInside(y + 1, m', dt');
  }

  lemma NextYearsMonth(m: int)
    requires 0 <= m <= 11
    ensures (m + 12) / 12 == 1 && (m + 12) % 12 == m
  {
  }

  lemma DateFits(d: int)
    ensures var leap, m := IsLeapYear(YearFromDay(d)), MonthFromDay(d);
            1 <= DateFromDay(d) <= DaysBeforeMonth(m + 1, leap) - DaysBeforeMonth(m, leap)
  {
    hide DayFromYear, YearFromDay, DaysBeforeMonth, IsLeapYear;
  }

  lemma LeapYearsApart(y: int)
    ensures !(IsLeapYear(y) && IsLeapYear(y + 1))
  {
  }
}
