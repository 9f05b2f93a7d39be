/**
  What each request to the calendar gets, in terms of what was asked: exactly when it is taken, what is
  then stored, and what the days show once the other parent agrees.
 */
module CustodyAnswers {
  import opened JsDate
  import opened DateUtils
  import opened Options
  import opened Pattern
  import opened Custody
  import opened CustodyRuns
  import opened CustodyAgreements

  /** Whatever is not taken changes nothing. */
  lemma RefusalsChangeNothing(c: Calendar, a: Action)
    ensures Step(c, a).1 != Done ==> Next(c, a) == c
  {
    hide UtcDayStart, ResolveWeekPattern, Generated, SwapApplied, Excepted, LatestWith, Supersede;
  }

  // ----- Schedules ---------------------------------------------------------------------------

  /** A parent may propose any range of days that does not end before it begins; one day is a range. */
  lemma ProposalIsTakenIff(c: Calendar, a: Action)
    requires a.ProposeSchedule?
    ensures Step(c, a).1 == Done
            <==> a.proposer.IsParent() && (a.endDate.Some? ==> Day(a.startDate) <= Day(a.endDate.value))
    ensures !a.proposer.IsParent() ==> Step(c, a).1 == Refused("schedule_not_allowed")
    ensures a.proposer.IsParent() && Step(c, a).1 != Done ==> Step(c, a).1 == Refused("invalid_date_range")
  {
    hide UtcDayStart, ResolveWeekPattern, Supersede;
    UtcDayStartIsFloor(a.startDate);
    if a.endDate.Some? {
      UtcDayStartIsFloor(a.endDate.value);
    }
  }

  /** The interval that a custom week repeats with: the one asked for, when it is positive, else two weeks. */
  function IntervalAsked(a: Action): (n: int)
    requires a.ProposeSchedule?
    ensures n > 0
  {
    if a.weekInterval.Some? && a.weekInterval.value > 0 then a.weekInterval.value else 2
  }

  /** The stored days are the ones asked for, or the parent's on every day when none were. */
  predicate DaysAsked(asked: Option<WeekPayload>, default: Custodian, days: map<DayName, Custodian>) {
    if asked.Some? then days == asked.value.days
    else forall day: DayName :: day in days && days[day] == default
  }

  /** A proposal that is taken is stored as the last row, supersedes the pending ones and changes nothing else. */
  lemma ProposalIsStored(c: Calendar, a: Action)
    requires a.ProposeSchedule? && Step(c, a).1 == Done
    ensures var c', n := Next(c, a), |c.schedules|;
            && c' == c.(schedules := c'.schedules) && |c'.schedules| == n + 1
            && (forall i | 0 <= i < n ::
                  c'.schedules[i] == if c.schedules[i].status == PendingApproval
                                     then c.schedules[i].(status := Superseded) else c.schedules[i])
            && var s := c'.schedules[n];
            && s.status == PendingApproval && s.approvedBy == None && s.proposedBy == a.proposer.id
            && s.handover == a.handover
            && s.plan.patternType == a.patternType && s.plan.startDate == Midnight(Day(a.startDate))
            && (a.endDate.None? ==> s.endDate == None)
            && (a.endDate.Some? ==> s.endDate.Some? && s.endDate.value == Midnight(Day(a.endDate.value)))
            && (if a.patternType != CustomWeek then IsPreset(s.plan) && Interval(s.plan) == 2
                else && Interval(s.plan) == IntervalAsked(a)
                     && DaysAsked(a.weekA, ParentA, s.plan.weeks.weekA.days)
                     && DaysAsked(a.weekB, ParentB, s.plan.weeks.weekB.days))
  {
    hide UtcDayStart;
    DefaultWeeks();
    UtcDayStartIsFloor(a.startDate);
    if a.endDate.Some? {
      UtcDayStartIsFloor(a.endDate.value);
    }
  }

  lemma DefaultWeeks()
    ensures forall day: DayName :: day in ALL_PARENT_A && ALL_PARENT_A[day] == ParentA
    ensures forall day: DayName :: day in ALL_PARENT_B && ALL_PARENT_B[day] == ParentB
  {
    forall day: DayName
      ensures day in ALL_PARENT_A && ALL_PARENT_A[day] == ParentA && day in ALL_PARENT_B && ALL_PARENT_B[day] == ParentB
    {
      assert || day.Sunday? || day.Monday? || day.Tuesday? || day.Wednesday?
             || day.Thursday? || day.Friday? || day.Saturday?;
    }
  }

  /** A pending schedule is answered by any parent but its proposer. */
  lemma ScheduleAnswerIsTakenIff(c: Calendar, id: nat, responder: User, approve: bool)
    ensures var outcome := Step(c, RespondToSchedule(id, responder, approve)).1;
            && (outcome == NotFound <==> id >= |c.schedules|)
            && (id < |c.schedules| ==>
                  && (outcome == Refused("schedule_not_pending") <==> c.schedules[id].status != PendingApproval)
                  && (outcome == Done <==>
                        c.schedules[id].status == PendingApproval
                        && responder.IsParent() && responder.id != c.schedules[id].proposedBy)
                  && outcome in {Done, Refused("schedule_not_pending"), Refused("schedule_not_allowed")})
  {
    hide Generated, Supersede;
  }

  /** The row that a day gets from a schedule. */
  predicate RowOfSchedule(row: Slot, id: nat, s: Schedule, custodian: Custodian) {
    && row.source == FromSchedule && row.scheduleId == Some(id) && row.exceptionId == None
    && row.handover == s.handover && row.custodian == custodian
  }

  /** The midnights of the days that were asked for, up to the last one, or for about a year. */
  predicate DayAsked(a: Action, k: int)
    requires a.ProposeSchedule?
  {
    && IsMidnight(k) && Day(a.startDate) <= Day(k)
    && if a.endDate.Some? then Day(k) <= Day(a.endDate.value) else Day(k) < Day(a.startDate) + 365
  }

  /**
    An approval activates the schedule, supersedes the active one, and writes the days of the horizon
    that are not overridden from the schedule; a rejection supersedes the schedule and writes nothing.
   */
  lemma ScheduleAnswerIsStored(c: Calendar, id: nat, responder: User, approve: bool)
    requires Step(c, RespondToSchedule(id, responder, approve)).1 == Done
    ensures var c' := Next(c, RespondToSchedule(id, responder, approve));
            && c'.exceptions == c.exceptions && c'.swaps == c.swaps && |c'.schedules| == |c.schedules|
            && c'.schedules[id] == (if approve then c.schedules[id].(status := Active, approvedBy := Some(responder.id))
                                    else c.schedules[id].(status := Superseded))
            && (forall i | 0 <= i < |c.schedules| && i != id ::
                  c'.schedules[i] == if approve && c.schedules[i].status == Active
                                     then c.schedules[i].(status := Superseded) else c.schedules[i])
            && (!approve ==> c'.slots == c.slots)
            && (approve ==> forall k :: k in c'.slots <==> k in c.slots || k in Horizon(c.schedules[id]))
            && (approve ==> forall k | k in c'.slots ::
                  if k in Horizon(c.schedules[id]) && !Overridden(c.slots, k)
                  then FIRST_INSTANT <= k
                       && RowOfSchedule(c'.slots[k], id, c.schedules[id], GetCustodianForDate(c.schedules[id].plan, k))
                  else k in c.slots && c'.slots[k] == c.slots[k])
  {
    hide UtcDayStart, GetCustodianForDate, HorizonEnd, IsMidnight;
    if approve {
      var row := c.schedules[id].(status := Active, approvedBy := Some(responder.id));
      SameHorizon(c.schedules[id], row);
      forall k | k in Horizon(row)
        ensures FIRST_INSTANT <= k
      {
        HorizonIsAligned(row, k);
      }
      hide Horizon;
    }
  }

  lemma SameHorizon(s: Schedule, t: Schedule)
    requires s.plan == t.plan && s.endDate == t.endDate
    ensures Horizon(s) == Horizon(t)
  {
  }

  lemma AskedDaysAreHorizon(a: Action, s: Schedule, k: int)
    requires a.ProposeSchedule? && DayAsked(a, k)
    requires s.plan.startDate == Midnight(Day(a.startDate))
    requires if a.endDate.Some? then s.endDate.Some? && s.endDate.value == Midnight(Day(a.endDate.value))
             else s.endDate == None
    ensures k in Horizon(s)
  {
    hide UtcDayStart, HorizonEnd;
    HorizonEndExact(s);
    UtcDayStartIsFloor(s.plan.startDate);
  }

  /**
    Proposed by one parent and approved by another, the schedule shows what was asked for: each day of
    the range without an override reads the entry under its own name of the week A that was asked for
    in every interval-th calendar week, and of the week B in the others, with the handover asked for.
   */
  lemma ApprovedProposalShows(c: Calendar, a: Action, responder: User, k: int)
    requires a.ProposeSchedule? && Step(c, a).1 == Done
    requires responder.IsParent() && responder.id != a.proposer.id
    requires DayAsked(a, k) && !Overridden(c.slots, k)
    ensures var id := |c.schedules|;
            var (c', outcome) := Step(Next(c, a), RespondToSchedule(id, responder, true));
            && outcome == Done && k in c'.slots && c'.slots[k].source == FromSchedule
            && c'.slots[k].scheduleId == Some(id) && c'.slots[k].handover == a.handover
            && ShowsWhatWasAsked(a, k, c'.slots[k].custodian)
  {
    hide Step, GetCustodianForDate, Horizon, Interval, IsPreset, DayAsked, ShowsWhatWasAsked, DaysAsked, IntervalAsked;
    var id, proposed := |c.schedules|, Next(c, a);
    ProposalIsStored(c, a);
    var s := proposed.schedules[id];
    ScheduleAnswerIsTakenIff(proposed, id, responder, true);
    ScheduleAnswerIsStored(proposed, id, responder, true);
    AskedDaysAreHorizon(a, s, k);
    HorizonIsAligned(s, k);
    StoredPlanShows(a, s.plan, k);
  }

  predicate ShowsWhatWasAsked(a: Action, k: int, custodian: Custodian)
    requires a.ProposeSchedule?
  {
    var since := WeekNumber(Day(k)) - WeekNumber(Day(a.startDate));
    match a.patternType
    case WeekAlternating => custodian == if since % 2 == 0 then ParentA else ParentB
    case EveryOtherWeekend =>
      custodian == if (since % 2 == 0) != (GetUtcDay(k) == 6 || GetUtcDay(k) == 0) then ParentA else ParentB
    case CustomWeek =>
      if since % IntervalAsked(a) == 0 then ShowsEntry(a.weekA, ParentA, GetUtcDay(k), custodian)
      else ShowsEntry(a.weekB, ParentB, GetUtcDay(k), custodian)
  }

  /** The custodian is what the week that was asked for says on the weekday, or the default of no week. */
  predicate ShowsEntry(asked: Option<WeekPayload>, default: Custodian, w: int, custodian: Custodian) {
    if asked.None? then custodian == default
    else
      && (w == 0 ==> ReadsEntry(asked.value.days, Sunday, custodian))
      && (w == 1 ==> ReadsEntry(asked.value.days, Monday, custodian))
      && (w == 2 ==> ReadsEntry(asked.value.days, Tuesday, custodian))
      && (w == 3 ==> ReadsEntry(asked.value.days, Wednesday, custodian))
      && (w == 4 ==> ReadsEntry(asked.value.days, Thursday, custodian))
      && (w == 5 ==> ReadsEntry(asked.value.days, Friday, custodian))
      && (w == 6 ==> ReadsEntry(asked.value.days, Saturday, custodian))
  }

  lemma StoredPlanShows(a: Action, plan: Plan, k: Instant)
    requires a.ProposeSchedule? && plan.patternType == a.patternType
    requires plan.startDate == Midnight(Day(a.startDate))
    requires if a.patternType != CustomWeek then IsPreset(plan)
             else && Interval(plan) == IntervalAsked(a)
                  && DaysAsked(a.weekA, ParentA, plan.weeks.weekA.days)
                  && DaysAsked(a.weekB, ParentB, plan.weeks.weekB.days)
    ensures ShowsWhatWasAsked(a, k, GetCustodianForDate(plan, k))
  {
    hide GetCustodianForDate, Interval, IntervalAsked, WeekNumber, IsPreset;
    if a.patternType == CustomWeek {
      CustodianIsOfTheDay(plan, k);
    } else {
      PresetsByName(plan, k);
      assert plan.patternType == WeekAlternating || plan.patternType == EveryOtherWeekend;
    }
  }

  // ----- Exceptions --------------------------------------------------------------------------

  function LastDate(a: Action): Instant
    requires a.CreateException?
  {
    if a.toDate.Some? then a.toDate.value else a.fromDate
  }

  /** An exception needs a parent, an active schedule, and a range that does not end before it begins. */
  lemma ExceptionIsTakenIff(c: Calendar, a: Action)
    requires a.CreateException?
    ensures Step(c, a).1 == Done
            <==> a.requester.IsParent() && HasActive(c.schedules) && Day(a.fromDate) <= Day(LastDate(a))
    ensures !a.requester.IsParent() ==> Step(c, a).1 == Refused("exception_not_allowed")
    ensures a.requester.IsParent() && !HasActive(c.schedules) ==> Step(c, a).1 == Refused("schedule_not_active")
    ensures a.requester.IsParent() && HasActive(c.schedules) && Step(c, a).1 != Done ==>
              Step(c, a).1 == Refused("invalid_date_range")
  {
    hide UtcDayStart, LatestWith;
    UtcDayStartIsFloor(a.fromDate);
    UtcDayStartIsFloor(LastDate(a));
    if LatestWith(c.schedules, Active).Some? {
      assert c.schedules[LatestWith(c.schedules, Active).value].status == Active;
    }
  }

  /** The last row then holds the custodian and the days asked for, and nothing else changes. */
  lemma ExceptionIsStored(c: Calendar, a: Action)
    requires a.CreateException? && Step(c, a).1 == Done
    ensures var c', n := Next(c, a), |c.exceptions|;
            && c' == c.(exceptions := c'.exceptions) && |c'.exceptions| == n + 1 && c'.exceptions[..n] == c.exceptions
            && var e := c'.exceptions[n];
            && e.custodian == a.custodian && e.requester == a.requester.id && e.status == ExceptionPending
            && e.fromDate == Midnight(Day(a.fromDate)) && e.toDate == Midnight(Day(LastDate(a)))
            && (forall k :: k in ExceptionDays(e) <==> IsMidnight(k) && Day(a.fromDate) <= Day(k) <= Day(LastDate(a)))
  {
    hide UtcDayStart, LatestWith, ExceptionDays, Day, IsMidnight;
    UtcDayStartIsFloor(a.fromDate);
    UtcDayStartIsFloor(LastDate(a));
    var e := Next(c, a).exceptions[|c.exceptions|];
    assert Day(e.fromDate) == Day(a.fromDate) && Day(e.toDate) == Day(LastDate(a));
    forall k
      ensures k in ExceptionDays(e) <==> IsMidnight(k) && Day(a.fromDate) <= Day(k) <= Day(LastDate(a))
    {
      ExceptionDaysExact(e, k);
    }
  }

  /** A pending exception is answered by any parent but its requester. */
  lemma ExceptionAnswerIsTakenIff(c: Calendar, id: nat, responder: User, approve: bool)
    ensures var outcome := Step(c, RespondToException(id, responder, approve)).1;
            && (outcome == NotFound <==> id >= |c.exceptions|)
            && (id < |c.exceptions| ==>
                  && (outcome == Refused("exception_not_pending") <==> c.exceptions[id].status != ExceptionPending)
                  && (outcome == Done <==>
                        c.exceptions[id].status == ExceptionPending
                        && responder.IsParent() && responder.id != c.exceptions[id].requester)
                  && outcome in {Done, Refused("exception_not_pending"), Refused("exception_not_allowed")})
  {
    hide Excepted;
  }

  /**
    The answer sets the status of the row. A rejection writes no day; an approval gives each day of the
    exception its custodian, keeps the schedule and the handover of a row that is there, and leaves all
    other days alone.
   */
  lemma ExceptionAnswerIsStored(c: Calendar, id: nat, responder: User, approve: bool)
    requires Step(c, RespondToException(id, responder, approve)).1 == Done
    ensures var c', e := Next(c, RespondToException(id, responder, approve)), c.exceptions[id];
            && c'.schedules == c.schedules && c'.swaps == c.swaps
            && var status := if approve then ExceptionAccepted else ExceptionRejected;
            && c'.exceptions == c.exceptions[id := e.(status := status)]
            && (!approve ==> c'.slots == c.slots)
            && (approve ==> forall k :: k in c'.slots <==> k in c.slots || k in ExceptionDays(e))
            && (approve ==> forall k | k in c'.slots ::
                  if k !in ExceptionDays(e) then c'.slots[k] == c.slots[k]
                  else && c'.slots[k].custodian == e.custodian && c'.slots[k].source == FromException
                       && c'.slots[k].exceptionId == Some(id)
                       && c'.slots[k].scheduleId == (if k in c.slots then c.slots[k].scheduleId else None)
                       && c'.slots[k].handover == (if k in c.slots then c.slots[k].handover else Handover(None, None)))
  {
    hide ExceptionDays;
    if approve {
      SameDays(c.exceptions[id], c.exceptions[id].(status := ExceptionAccepted));
    }
  }

  /**
    Asked for by one parent and approved by another, an exception shows the custodian that was asked for
    on exactly the days that were asked for; every other day is as before.
   */
  lemma ApprovedRequestShows(c: Calendar, a: Action, responder: User, k: int)
    requires a.CreateException? && Step(c, a).1 == Done
    requires responder.IsParent() && responder.id != a.requester.id
    ensures var (c', outcome) := Step(Next(c, a), RespondToException(|c.exceptions|, responder, true));
            && outcome == Done
            && (if IsMidnight(k) && Day(a.fromDate) <= Day(k) <= Day(LastDate(a))
                then k in c'.slots && c'.slots[k].custodian == a.custodian && IsOverride(c'.slots[k])
                else (k in c'.slots <==> k in c.slots) && (k in c'.slots ==> c'.slots[k] == c.slots[k]))
  {
    hide Step, ExceptionDays, Day, IsMidnight;
    ExceptionIsStored(c, a);
    ExceptionAnswerIsTakenIff(Next(c, a), |c.exceptions|, responder, true);
    ExceptionAnswerIsStored(Next(c, a), |c.exceptions|, responder, true);
  }

  // ----- Swaps -------------------------------------------------------------------------------

  /** A request for a swap is always taken, and stored pending with the dates as they were given. */
  lemma SwapIsStored(c: Calendar, requester: User, originalDate: Instant, proposedDate: Instant)
    ensures var (c', outcome) := Step(c, CreateSwap(requester, originalDate, proposedDate));
            var n := |c.swaps|;
            && outcome == Done && c' == c.(swaps := c'.swaps) && |c'.swaps| == n + 1 && c'.swaps[..n] == c.swaps
            && c'.swaps[n].originalDate == originalDate && c'.swaps[n].proposedDate == proposedDate
            && c'.swaps[n].status == SwapPending && c'.swaps[n].requester == requester.id
  {
  }

  /** What a day shows for a swap: its row, or else what the schedule in force gives it. */
  predicate ShownForSwap(c: Calendar, k: int, custodian: Custodian) {
    if k in c.slots then c.slots[k].custodian == custodian
    else
      var s := ActiveOrPending(c.schedules);
      s.Some? && FIRST_INSTANT <= k && GetCustodianForDate(c.schedules[s.value].plan, k) == custodian
  }

  /** The table with a row for the day that shows the custodian, and otherwise the same. */
  lemma EnsuredShows(c: Calendar, date: Instant, custodian: Custodian)
    requires ShownForSwap(c, Midnight(Day(date)), custodian)
    ensures var k := Midnight(Day(date));
            && UtcDayStart(date) == k && Ensured(c, date).Keys == c.slots.Keys + {k}
            && Ensured(c, date)[k].custodian == custodian
            && forall j | j in c.slots :: Ensured(c, date)[j] == c.slots[j]
  {
    hide UtcDayStart, GetCustodianForDate, LatestWith, Day;
    UtcDayStartIsFloor(date);
  }

  lemma SwapShows(c: Calendar, originalDate: Instant, proposedDate: Instant, first: Custodian, second: Custodian)
    requires ShownForSwap(c, Midnight(Day(originalDate)), first)
    requires ShownForSwap(c, Midnight(Day(proposedDate)), second)
    ensures var slots := SwapApplied(c, originalDate, proposedDate);
            var a, b := Midnight(Day(originalDate)), Midnight(Day(proposedDate));
            && slots.Keys == c.slots.Keys + {a, b}
            && slots[a].custodian == second && slots[a].source == FromSwap
            && slots[b].custodian == first && slots[b].source == FromSwap
            && (forall k | k in c.slots && k in {a, b} ::
                  slots[k] == c.slots[k].(custodian := slots[k].custodian, source := FromSwap))
            && (forall k | k in c.slots && k !in {a, b} :: slots[k] == c.slots[k])
  {
    hide Ensured, UtcDayStart, Day, ShownForSwap;
    BothShow(c, originalDate, proposedDate, first, second);
  }

  lemma BothShow(c: Calendar, originalDate: Instant, proposedDate: Instant, first: Custodian, second: Custodian)
    requires ShownForSwap(c, Midnight(Day(originalDate)), first)
    requires ShownForSwap(c, Midnight(Day(proposedDate)), second)
    ensures var both := Ensured(c.(slots := Ensured(c, originalDate)), proposedDate);
            var a, b := Midnight(Day(originalDate)), Midnight(Day(proposedDate));
            && UtcDayStart(originalDate) == a && UtcDayStart(proposedDate) == b
            && both.Keys == c.slots.Keys + {a, b} && both[a].custodian == first && both[b].custodian == second
            && forall k | k in c.slots :: both[k] == c.slots[k]
  {
    hide Ensured, UtcDayStart, Day, LatestWith, GetCustodianForDate;
    EnsuredShows(c, originalDate, first);
    var c1 := c.(slots := Ensured(c, originalDate));
    assert ShownForSwap(c1, Midnight(Day(proposedDate)), second);
    EnsuredShows(c1, proposedDate, second);
  }

  /**
    Asked for by one parent and accepted by another, the two days show each other's custodian, keep
    their handover when they had a row, and every other day is as before.
   */
  lemma AcceptedSwapShows(c: Calendar, requester: User, responder: User, originalDate: Instant, proposedDate: Instant,
                          first: Custodian, second: Custodian)
    requires responder.IsParent() && responder.id != requester.id
    requires ShownForSwap(c, Midnight(Day(originalDate)), first)
    requires ShownForSwap(c, Midnight(Day(proposedDate)), second)
    ensures var asked := Next(c, CreateSwap(requester, originalDate, proposedDate));
            var (c', outcome) := Step(asked, RespondToSwap(|c.swaps|, responder, SwapAccepted));
            var a, b := Midnight(Day(originalDate)), Midnight(Day(proposedDate));
            && outcome == Done && c'.schedules == c.schedules && c'.exceptions == c.exceptions
            && a in c'.slots && c'.slots[a].custodian == second && c'.slots[a].source == FromSwap
            && b in c'.slots && c'.slots[b].custodian == first && c'.slots[b].source == FromSwap
            && (forall k | k in c.slots && k in {a, b} ::
                  c'.slots[k] == c.slots[k].(custodian := c'.slots[k].custodian, source := FromSwap))
            && c'.slots.Keys == c.slots.Keys + {a, b}
            && (forall k | k in c.slots && k !in {a, b} :: c'.slots[k] == c.slots[k])
  {
    hide SwapApplied, GetCustodianForDate, LatestWith, Day;
    var asked := Next(c, CreateSwap(requester, originalDate, proposedDate));
    assert ShownForSwap(asked, Midnight(Day(originalDate)), first);
    assert ShownForSwap(asked, Midnight(Day(proposedDate)), second);
    SwapShows(asked, originalDate, proposedDate, first, second);
  }

  // ----- Handovers ---------------------------------------------------------------------------

  /** A parent edits a row's handover only while no schedule is pending or active. */
  lemma EditIsTakenIff(c: Calendar, user: User, k: int, h: Handover)
    ensures var outcome := Step(c, EditHandover(user, k, h)).1;
            var locked := exists i | 0 <= i < |c.schedules| :: c.schedules[i].status != Superseded;
            && (outcome == Done <==> user.IsParent() && !locked && k in c.slots)
            && (!user.IsParent() ==> outcome == Refused("slot_not_allowed"))
            && (user.IsParent() && locked ==> outcome == Refused("schedule_locked"))
            && (user.IsParent() && !locked && k !in c.slots ==> outcome == NotFound)
  {
    hide LatestWith;
    var s := ActiveOrPending(c.schedules);
    if s.Some? {
      assert c.schedules[s.value].status != Superseded;
    }
  }

  /** The row then has the handover that was given and is otherwise the same, as is everything else. */
  lemma EditIsStored(c: Calendar, user: User, k: int, h: Handover)
    requires Step(c, EditHandover(user, k, h)).1 == Done
    ensures var c' := Next(c, EditHandover(user, k, h));
            && c' == c.(slots := c'.slots) && c'.slots.Keys == c.slots.Keys && c'.slots[k].handover == h
            && c'.slots[k].(handover := c.slots[k].handover) == c.slots[k]
            && forall j | j in c.slots && j != k :: c'.slots[j] == c.slots[j]
  {
    hide LatestWith;
  }
}
