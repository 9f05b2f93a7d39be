/**
  The weekly custody patterns of src/services/custody/pattern.js and the tables of constants.js:
  who has the child on a date under a schedule.
 */
module Pattern {
  import opened JsDate
  import opened DateUtils
  import opened Options

  datatype Custodian = ParentA | ParentB

  datatype DayName = Sunday | Monday | Tuesday | Wednesday | Thursday | Friday | Saturday

  datatype PatternType = WeekAlternating | EveryOtherWeekend | CustomWeek

  /** A stored week: a JSON object from day names to custodians, and its `_weekInterval` entry. */
  datatype WeekPayload = WeekPayload(days: map<DayName, Custodian>, interval: Option<int>)

  datatype WeekPair = WeekPair(weekA: WeekPayload, weekB: WeekPayload)

  /** The columns of a schedule row that decide the custodian. */
  datatype Plan = Plan(patternType: PatternType, startDate: Instant, weeks: WeekPair)

  const DAY_NAMES: seq<DayName> := [Sunday, Monday, Tuesday, Wednesday, Thursday, Friday, Saturday]

  const ALL_PARENT_A: map<DayName, Custodian> :=
    map[Monday := ParentA, Tuesday := ParentA, Wednesday := ParentA, Thursday := ParentA,
        Friday := ParentA, Saturday := ParentA, Sunday := ParentA]

  const ALL_PARENT_B: map<DayName, Custodian> :=
    map[Monday := ParentB, Tuesday := ParentB, Wednesday := ParentB, Thursday := ParentB,
        Friday := ParentB, Saturday := ParentB, Sunday := ParentB]

  function PresetWeeks(p: PatternType): WeekPair {
    match p
    case EveryOtherWeekend =>
      WeekPair(
        WeekPayload(ALL_PARENT_A[Saturday := ParentB][Sunday := ParentB], None),
        WeekPayload(ALL_PARENT_B[Saturday := ParentA][Sunday := ParentA], None))
    case _ =>
      WeekPair(WeekPayload(ALL_PARENT_A, None), WeekPayload(ALL_PARENT_B, None))
  }

  function ResolveWeekPattern(p: PatternType, weekA: Option<WeekPayload>, weekB: Option<WeekPayload>,
                              weekInterval: Option<int>): WeekPair
  {
    if p == CustomWeek then
      var interval := if weekInterval.Some? && weekInterval.value > 0 then weekInterval.value else 2;
      var cleanA := if weekA.Some? then weekA.value.days else ALL_PARENT_A;
      var cleanB := if weekB.Some? then weekB.value.days else ALL_PARENT_B;
      WeekPair(WeekPayload(cleanA, Some(interval)), WeekPayload(cleanB, None))
    else
      PresetWeeks(p)
  }

  /** The interval entry of a stored week, when it is a positive number. */
  function ParsedInterval(raw: WeekPayload): Option<int> {
    if raw.interval.Some? && raw.interval.value > 0 then raw.interval else None
  }

  predicate SameEntry(a: map<DayName, Custodian>, b: map<DayName, Custodian>, day: DayName) {
    if day in a then day in b && a[day] == b[day] else day !in b
  }

  predicate WeeksEqual(a: map<DayName, Custodian>, b: map<DayName, Custodian>) {
    forall i | 0 <= i < 7 :: SameEntry(a, b, DAY_NAMES[i])
  }

  /** `week[day] ?? week.monday ?? 'parentA'` */
  function DayEntry(week: map<DayName, Custodian>, day: DayName): Custodian {
    if day in week then week[day] else if Monday in week then week[Monday] else ParentA
  }

  /** The remainder operator of JavaScript, which takes the sign of its left operand. */
  function JsRemainder(a: int, n: int): (r: int)
    requires n > 0
    ensures r == 0 <==> a % n == 0
  {
    if a >= 0 then
      a % n
    else
      NegatedMultiple(a, n);
      -((-a) % n)
  }

  lemma NegatedMultiple(a: int, n: int)
    requires n > 0
    ensures (-a) % n == 0 <==> a % n == 0
  {
    if a % n == 0 {
      MultipleIsZero(-(a / n), n, -a);
    }
    if (-a) % n == 0 {
      MultipleIsZero(-((-a) / n), n, a);
    }
  }

  lemma MultipleIsZero(k: int, n: int, a: int)
    requires n > 0 && a == k * n
    ensures a % n == 0 && a / n == k
  {
    var q, r := a / n, a % n;
    assert a == q * n + r;
    assert (k - q) * n == r;
    MultiplesAreApart(k - q, n);
  }

  lemma MultiplesAreApart(x: int, n: int)
    requires n > 0
    ensures x == 0 || x * n >= n || x * n <= -n
  {
  }

  function Interval(plan: Plan): (n: int)
    ensures n > 0
  {
    if plan.patternType == CustomWeek then
      var parsed := ParsedInterval(plan.weeks.weekA);
      if parsed.Some? then parsed.value
      else if WeeksEqual(plan.weeks.weekA.days, plan.weeks.weekB.days) then 1
      else 2
    else
      2
  }

  /** What is stored for a proposal is read back as the interval and the weeks that were asked for. */
  lemma ResolvedPlanIsRead(p: PatternType, start: Instant, weekA: Option<WeekPayload>, weekB: Option<WeekPayload>,
                           weekInterval: Option<int>)
    ensures var plan := Plan(p, start, ResolveWeekPattern(p, weekA, weekB, weekInterval));
            && Interval(plan) == (if p == CustomWeek && weekInterval.Some? && weekInterval.value > 0
                                  then weekInterval.value else 2)
            && (p == CustomWeek && weekA.Some? ==> plan.weeks.weekA.days == weekA.value.days)
            && (p == CustomWeek && weekB.Some? ==> plan.weeks.weekB.days == weekB.value.days)
            && (p != CustomWeek ==> IsPreset(plan))
  {
  }

  function GetCustodianForDate(plan: Plan, date: Instant): Custodian {
    UtcDayStartIsFloor(date);
    var current := UtcDayStart(date);
    var weekIndex := CalendarWeekIndexSince(plan.startDate, date);
    var dayName := DAY_NAMES[GetUtcDay(current)];
    var week := if JsRemainder(weekIndex, Interval(plan)) == 0 then plan.weeks.weekA.days else plan.weeks.weekB.days;
    DayEntry(week, dayName)
  }

  /** Reference rule on day numbers: every Interval-th calendar week, counted from the first, is a week A. */
  function CustodianOnDay(plan: Plan, d: int): Custodian {
    var since := WeekNumber(d) - WeekNumber(Day(plan.startDate));
    var week := if since % Interval(plan) == 0 then plan.weeks.weekA.days else plan.weeks.weekB.days;
    DayEntry(week, DAY_NAMES[WeekDay(d)])
  }

  /** The code meets the reference rule on every date, before the start and at any time of day too. */
  lemma CustodianMeetsRule(plan: Plan, date: Instant)
    ensures GetCustodianForDate(plan, date) == CustodianOnDay(plan, Day(date))
  {
    hide UtcDayStart, MondayOfCalendarWeek, CalendarWeekIndexSince;
    UtcDayStartIsFloor(date);
    WeekIndexExact(plan.startDate, date);
  }

  /** The custodian is the week's own entry for the day, else its entry for Monday, else parent A. */
  predicate ReadsEntry(week: map<DayName, Custodian>, day: DayName, custodian: Custodian) {
    && (day in week ==> custodian == week[day])
    && (day !in week && Monday in week ==> custodian == week[Monday])
    && (day !in week && Monday !in week ==> custodian == ParentA)
  }

  /**
    On every date the custodian is read under the name that the day has, in week A when the calendar
    week is a multiple of the interval away from the first and in week B otherwise.
   */
  lemma CustodianIsOfTheDay(plan: Plan, date: Instant)
    ensures var custodian, w := GetCustodianForDate(plan, date), GetUtcDay(date);
            var since := WeekNumber(Day(date)) - WeekNumber(Day(plan.startDate));
            var week := if since % Interval(plan) == 0 then plan.weeks.weekA.days else plan.weeks.weekB.days;
            && (w == 0 ==> ReadsEntry(week, Sunday, custodian))
            && (w == 1 ==> ReadsEntry(week, Monday, custodian))
            && (w == 2 ==> ReadsEntry(week, Tuesday, custodian))
            && (w == 3 ==> ReadsEntry(week, Wednesday, custodian))
            && (w == 4 ==> ReadsEntry(week, Thursday, custodian))
            && (w == 5 ==> ReadsEntry(week, Friday, custodian))
            && (w == 6 ==> ReadsEntry(week, Saturday, custodian))
  {
    hide GetCustodianForDate, Interval;
    CustodianMeetsRule(plan, date);
  }

  /** The presets by name: whole weeks in turn, or weekends against the rest of the week. */
  lemma PresetsByName(plan: Plan, date: Instant)
    requires IsPreset(plan)
    ensures var even := (WeekNumber(Day(date)) - WeekNumber(Day(plan.startDate))) % 2 == 0;
            var weekend := GetUtcDay(date) == 6 || GetUtcDay(date) == 0;
            GetCustodianForDate(plan, date) ==
            if plan.patternType == WeekAlternating then if even then ParentA else ParentB
            else if even != weekend then ParentA else ParentB
  {
    hide GetCustodianForDate;
    CustodianMeetsRule(plan, date);
  }

  /** A custom week stored without an interval alternates, unless its two weeks agree on every day. */
  lemma IntervalOfOldRows(plan: Plan)
    requires plan.patternType == CustomWeek
    requires plan.weeks.weekA.interval.None? || plan.weeks.weekA.interval.value <= 0
    ensures var a, b := plan.weeks.weekA.days, plan.weeks.weekB.days;
            Interval(plan) == if forall day: DayName :: (day in a <==> day in b) && (day in a ==> a[day] == b[day])
                              then 1 else 2
  {
    var a, b := plan.weeks.weekA.days, plan.weeks.weekB.days;
    if WeeksEqual(a, b) {
      forall day: DayName
        ensures (day in a <==> day in b) && (day in a ==> a[day] == b[day])
      {
        DayHasIndex(day);
        var i :| 0 <= i < 7 && DAY_NAMES[i] == day;
        assert SameEntry(a, b, DAY_NAMES[i]);
      }
    } else {
      var i :| 0 <= i < 7 && !SameEntry(a, b, DAY_NAMES[i]);
      var day := DAY_NAMES[i];
      assert !((day in a <==> day in b) && (day in a ==> a[day] == b[day]));
    }
  }

  lemma DayHasIndex(day: DayName)
    ensures exists i | 0 <= i < 7 :: DAY_NAMES[i] == day
  {
    match day
    case Sunday => assert DAY_NAMES[0] == day;
    case Monday => assert DAY_NAMES[1] == day;
    case Tuesday => assert DAY_NAMES[2] == day;
    case Wednesday => assert DAY_NAMES[3] == day;
    case Thursday => assert DAY_NAMES[4] == day;
    case Friday => assert DAY_NAMES[5] == day;
    case Saturday => assert DAY_NAMES[6] == day;
  }

  /** The plan repeats every 7 * Interval days, in both directions. */
  lemma CustodianIsPeriodic(plan: Plan, date: Instant, k: int)
    requires FIRST_INSTANT <= date + Days(7 * (Interval(plan) * k))
    ensures GetCustodianForDate(plan, date + Days(7 * (Interval(plan) * k))) == GetCustodianForDate(plan, date)
  {
    hide GetCustodianForDate, CustodianOnDay;
    var n := Interval(plan);
    CustodianMeetsRule(plan, date);
    CustodianMeetsRule(plan, date + Days(7 * (n * k)));
    assert Day(date + Days(7 * (n * k))) == Day(date) + 7 * (n * k);
    OnDayIsPeriodic(plan, Day(date), k);
  }

  lemma OnDayIsPeriodic(plan: Plan, d: int, k: int)
    ensures CustodianOnDay(plan, d + 7 * (Interval(plan) * k)) == CustodianOnDay(plan, d)
  {
    hide DayEntry, Interval;
    var n := Interval(plan);
    var since := WeekNumber(d) - WeekNumber(Day(plan.startDate));
    assert WeekNumber(d + 7 * (n * k)) == WeekNumber(d) + n * k;
    assert WeekDay(d + 7 * (n * k)) == WeekDay(d);
    SameRemainder(since, k, n);
  }

  lemma SameRemainder(a: int, k: int, n: int)
    requires n > 0
    ensures (a + n * k) % n == a % n
  {
    var b := a + n * k;
    MultipleIsZero(a / n + k - b / n, n, b % n - a % n);
  }

  /** How many of the n days from day number d the parent has. */
  function DaysWith(plan: Plan, parent: Custodian, d: int, n: nat): nat
    decreases n
  {
    if n == 0 then 0
    else (if CustodianOnDay(plan, d) == parent then 1 else 0) + DaysWith(plan, parent, d + 1, n - 1)
  }

  lemma {:induction false} DaysWithSplits(plan: Plan, parent: Custodian, d: int, m: nat, n: nat)
    ensures DaysWith(plan, parent, d, m + n) == DaysWith(plan, parent, d, m) + DaysWith(plan, parent, d + m, n)
    decreases m
  {
    hide CustodianOnDay;
    if m > 0 {
      DaysWithSplits(plan, parent, d + 1, m - 1, n);
    }
  }

  /** How many days of one week the parent has under its table. */
  function DaysOfWeek(week: map<DayName, Custodian>, parent: Custodian): nat {
    Entries(week, parent, 7)
  }

  function Entries(week: map<DayName, Custodian>, parent: Custodian, n: nat): nat
    requires n <= 7
  {
    if n == 0 then 0
    else Entries(week, parent, n - 1) + if DayEntry(week, DAY_NAMES[n % 7]) == parent then 1 else 0
  }

  /**
    Over any 7 * Interval consecutive days, wherever they begin, a parent has the days of one week A
    and of Interval - 1 weeks B.
   */
  lemma DaysPerPeriod(plan: Plan, parent: Custodian, d: int)
    ensures DaysWith(plan, parent, d, 7 * Interval(plan))
            == DaysOfWeek(plan.weeks.weekA.days, parent)
               + (Interval(plan) - 1) * DaysOfWeek(plan.weeks.weekB.days, parent)
  {
    hide CustodianOnDay, Interval, DaysOfWeek, DaysWith, WeekNumber, Day;
    var n := Interval(plan);
    var first := 7 * WeekNumber(Day(plan.startDate)) - 3;
    WindowShift(plan, parent, first, d);
    DaysWithSplits(plan, parent, first, 7, 7 * (n - 1));
    OneWeek(plan, parent, WeekNumber(Day(plan.startDate)));
    WeeksB(plan, parent, 1, n - 1);
  }

  lemma {:induction false} WeeksB(plan: Plan, parent: Custodian, i: nat, m: nat)
    requires 1 <= i && i + m == Interval(plan)
    ensures DaysWith(plan, parent, 7 * (WeekNumber(Day(plan.startDate)) + i) - 3, 7 * m)
            == m * DaysOfWeek(plan.weeks.weekB.days, parent)
    decreases m
  {
    hide *;
    var first, c := WeekNumber(Day(plan.startDate)), DaysOfWeek(plan.weeks.weekB.days, parent);
    if m == 0 {
      NoDays(plan, parent, 7 * (first + i) - 3);
    } else {
      DaysWithSplits(plan, parent, 7 * (first + i) - 3, 7, 7 * (m - 1));
      OneWeekB(plan, parent, i);
      WeeksB(plan, parent, i + 1, m - 1);
      OneMore(m, c);
    }
  }

  lemma OneMore(m: int, c: int)
    ensures m * c == c + (m - 1) * c
  {
  }

  lemma OneWeekB(plan: Plan, parent: Custodian, i: nat)
    requires 1 <= i < Interval(plan)
    ensures DaysWith(plan, parent, 7 * (WeekNumber(Day(plan.startDate)) + i) - 3, 7)
            == DaysOfWeek(plan.weeks.weekB.days, parent)
  {
    hide CustodianOnDay, Interval, DaysOfWeek, DaysWith, WeekNumber, Day;
    OneWeek(plan, parent, WeekNumber(Day(plan.startDate)) + i);
    assert i % Interval(plan) == i;
  }

  lemma NoDays(plan: Plan, parent: Custodian, d: int)
    ensures DaysWith(plan, parent, d, 0) == 0
  {
  }

  /** The week with number w, counted from its Monday. */
  lemma OneWeek(plan: Plan, parent: Custodian, w: int)
    ensures DaysWith(plan, parent, 7 * w - 3, 7)
            == DaysOfWeek(if (w - WeekNumber(Day(plan.startDate))) % Interval(plan) == 0
                          then plan.weeks.weekA.days else plan.weeks.weekB.days, parent)
  {
    PartOfWeek(plan, parent, w, 7);
  }

  lemma {:induction false} PartOfWeek(plan: Plan, parent: Custodian, w: int, n: nat)
    requires n <= 7
    ensures DaysWith(plan, parent, 7 * w - 3, n)
            == Entries(if (w - WeekNumber(Day(plan.startDate))) % Interval(plan) == 0
                       then plan.weeks.weekA.days else plan.weeks.weekB.days, parent, n)
  {
    hide Interval, DayEntry, CustodianOnDay, WeekNumber, Day;
    if n > 0 {
      PartOfWeek(plan, parent, w, n - 1);
      DaysWithSplits(plan, parent, 7 * w - 3, n - 1, 1);
      DayInWeek(plan, w, n);
    }
  }

  lemma DayInWeek(plan: Plan, w: int, n: nat)
    requires 1 <= n <= 7
    ensures CustodianOnDay(plan, 7 * w - 3 + (n - 1))
            == DayEntry(if (w - WeekNumber(Day(plan.startDate))) % Interval(plan) == 0
                        then plan.weeks.weekA.days else plan.weeks.weekB.days, DAY_NAMES[n % 7])
  {
    hide Interval, DayEntry, Day;
    WeekPosition(w, n);
  }

  lemma WeekPosition(w: int, n: nat)
    requires 1 <= n <= 7
    ensures WeekNumber(7 * w - 3 + (n - 1)) == w
    ensures WeekDay(7 * w - 3 + (n - 1)) == n % 7
  {
    assert 7 * w - 3 + (n - 1) + 4 == n + 7 * w;
  }

  /** A window of one period counts the same wherever it begins. */
  lemma {:induction false} WindowShift(plan: Plan, parent: Custodian, a: int, b: int)
    ensures DaysWith(plan, parent, a, 7 * Interval(plan)) == DaysWith(plan, parent, b, 7 * Interval(plan))
    decreases if a <= b then b - a else a - b
  {
    hide CustodianOnDay, Interval;
    if a < b {
      SlideByOne(plan, parent, a);
      WindowShift(plan, parent, a + 1, b);
    } else if b < a {
      SlideByOne(plan, parent, b);
      WindowShift(plan, parent, a, b + 1);
    }
  }

  lemma SlideByOne(plan: Plan, parent: Custodian, a: int)
    ensures DaysWith(plan, parent, a, 7 * Interval(plan)) == DaysWith(plan, parent, a + 1, 7 * Interval(plan))
  {
    hide CustodianOnDay, Interval;
    var n := 7 * Interval(plan);
    OnDayIsPeriodic(plan, a, 1);
    DaysWithSplits(plan, parent, a + 1, n - 1, 1);
  }

  predicate IsPreset(plan: Plan) {
    plan.patternType != CustomWeek && plan.weeks == PresetWeeks(plan.patternType)
  }

  /** Position of day d in the 14-day cycle, from the Monday of the week of the start date. */
  function Phase(plan: Plan, d: int): (p: int)
    ensures 0 <= p < 14
  {
    (d + 3 - 7 * WeekNumber(Day(plan.startDate))) % 14
  }

  /** How far parent A is ahead at a position of the cycle. */
  function Lead(p: PatternType, phase: int): int {
    if p == EveryOtherWeekend then
      if phase <= 5 then phase else if phase <= 12 then 10 - phase else phase - 14
    else
      if phase <= 7 then phase else 14 - phase
  }

  lemma PresetDay(plan: Plan, d: int)
    requires IsPreset(plan)
    ensures Lead(plan.patternType, Phase(plan, d + 1)) - Lead(plan.patternType, Phase(plan, d))
            == if CustodianOnDay(plan, d) == ParentA then 1 else -1
  {
    hide WeekNumber, WeekDay, Day;
    FortnightStep(plan, d);
    FortnightWeek(d, WeekNumber(Day(plan.startDate)));
    FortnightDay(d, WeekNumber(Day(plan.startDate)));
  }

  lemma FortnightStep(plan: Plan, d: int)
    ensures Phase(plan, d + 1) == if Phase(plan, d) == 13 then 0 else Phase(plan, d) + 1
  {
    hide WeekNumber;
  }

  lemma FortnightWeek(d: int, w: int)
    ensures (WeekNumber(d) - w) % 2 == 0 <==> (d + 3 - 7 * w) % 14 < 7
  {
  }

  lemma FortnightDay(d: int, w: int)
    ensures WeekDay(d) == ((d + 3 - 7 * w) % 14 + 1) % 7
  {
  }

  lemma {:induction false} BalanceIsLead(plan: Plan, d: int, n: nat)
    requires IsPreset(plan)
    ensures DaysWith(plan, ParentA, d, n) + DaysWith(plan, ParentB, d, n) == n
    ensures DaysWith(plan, ParentA, d, n) - DaysWith(plan, ParentB, d, n)
            == Lead(plan.patternType, Phase(plan, d + n)) - Lead(plan.patternType, Phase(plan, d))
    decreases n
  {
    hide CustodianOnDay, Phase, Lead, IsPreset;
    if n > 0 {
      PresetDay(plan, d);
      BalanceIsLead(plan, d + 1, n - 1);
    }
  }

  /** A preset is fair on every window: at most seven days apart, and even over whole fortnights. */
  lemma PresetsAreFair(plan: Plan, d: int, n: nat)
    requires IsPreset(plan)
    ensures -7 <= DaysWith(plan, ParentA, d, n) - DaysWith(plan, ParentB, d, n) <= 7
    ensures n % 14 == 0 ==> DaysWith(plan, ParentA, d, n) == DaysWith(plan, ParentB, d, n) == n / 2
  {
    hide CustodianOnDay, Phase, DaysWith, IsPreset;
    BalanceIsLead(plan, d, n);
    if n % 14 == 0 {
      WholeFortnights(plan, d, n / 14);
    }
  }

  lemma WholeFortnights(plan: Plan, d: int, k: int)
    ensures Phase(plan, d + 14 * k) == Phase(plan, d)
  {
  }

  /** The bound is sharp: from this day on, parent B has seven days in a row. */
  lemma SevenIsReached(plan: Plan)
    requires IsPreset(plan)
    ensures var weekB := 7 * (WeekNumber(Day(plan.startDate)) + 1) - 3;
            var d := if plan.patternType == EveryOtherWeekend then weekB - 2 else weekB;
            DaysWith(plan, ParentB, d, 7) - DaysWith(plan, ParentA, d, 7) == 7
  {
    hide CustodianOnDay, Phase;
    var weekB := 7 * (WeekNumber(Day(plan.startDate)) + 1) - 3;
    BalanceIsLead(plan, if plan.patternType == EveryOtherWeekend then weekB - 2 else weekB, 7);
    PhaseInWeekB(plan);
  }

  lemma PhaseInWeekB(plan: Plan)
    ensures var weekB := 7 * (WeekNumber(Day(plan.startDate)) + 1) - 3;
            && Phase(plan, weekB) == 7 && Phase(plan, weekB + 7) == 0
            && Phase(plan, weekB - 2) == 5 && Phase(plan, weekB + 5) == 12
  {
  }
}
