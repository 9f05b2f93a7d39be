/**
  What every run of the custody actions keeps: the slot table is a complete and exact cache of the
  active schedule outside the agreed overrides, overrides survive, and the approval protocol holds.
 */
module CustodyRuns {
  import opened JsDate
  import opened DateUtils
  import opened Options
  import opened Pattern
  import opened Custody

  // ----- The invariant -----------------------------------------------------------------------

  predicate AtMostOne(schedules: seq<Schedule>, status: ScheduleStatus) {
    forall i, j | 0 <= i < j < |schedules| :: !(schedules[i].status == status && schedules[j].status == status)
  }

  predicate HasActive(schedules: seq<Schedule>) {
    exists i | 0 <= i < |schedules| :: schedules[i].status == Active
  }

  /** Approval is by another user than the proposer, only active or superseded schedules carry one. */
  predicate ApprovalOk(s: Schedule) {
    && (s.status == Active ==> s.approvedBy.Some?)
    && (s.status == PendingApproval ==> s.approvedBy.None?)
    && (s.approvedBy.Some? ==> s.approvedBy.value != s.proposedBy)
  }

  predicate ProtocolOk(schedules: seq<Schedule>) {
    && AtMostOne(schedules, PendingApproval)
    && AtMostOne(schedules, Active)
    && (forall i | 0 <= i < |schedules| :: ApprovalOk(schedules[i]))
    && (forall i | 0 <= i < |schedules| :: schedules[i].approvedBy.Some? ==> HasActive(schedules))
  }

  /** A row with source `schedule` is, column by column, the row that its approved schedule gives that day. */
  predicate RowAgrees(schedules: seq<Schedule>, k: int, s: Slot) {
    s.source == FromSchedule ==>
      && s.scheduleId.Some? && s.scheduleId.value < |schedules|
      && schedules[s.scheduleId.value].approvedBy.Some?
      && k in Horizon(schedules[s.scheduleId.value])
      && FIRST_INSTANT <= k
      && s == ScheduleSlot(s.scheduleId.value, schedules[s.scheduleId.value], k)
  }

  predicate CacheAgrees(schedules: seq<Schedule>, slots: SlotTable) {
    forall k | k in slots :: RowAgrees(schedules, k, slots[k])
  }

  /** Each day of the horizon has a row, overridden or made from this schedule. */
  predicate Covers(slots: SlotTable, id: nat, s: Schedule) {
    forall k | k in Horizon(s) ::
      && k in slots
      && (IsOverride(slots[k]) || (slots[k].source == FromSchedule && slots[k].scheduleId == Some(id)))
  }

  predicate ActiveCovered(schedules: seq<Schedule>, slots: SlotTable) {
    forall i | 0 <= i < |schedules| :: schedules[i].status == Active ==> Covers(slots, i, schedules[i])
  }

  /** Stored plans are the tables of their preset, or a custom pair of weeks with a positive interval. */
  predicate PlanOk(plan: Plan) {
    if plan.patternType == CustomWeek then ParsedInterval(plan.weeks.weekA).Some? else IsPreset(plan)
  }

  predicate PlansOk(schedules: seq<Schedule>) {
    forall i | 0 <= i < |schedules| :: PlanOk(schedules[i].plan)
  }

  predicate Inv(c: Calendar) {
    && ProtocolOk(c.schedules) && PlansOk(c.schedules) && Aligned(c.slots)
    && CacheAgrees(c.schedules, c.slots) && ActiveCovered(c.schedules, c.slots)
  }

  // ----- Horizons ----------------------------------------------------------------------------

  lemma HorizonEndExact(s: Schedule)
    ensures IsMidnight(HorizonEnd(s))
    ensures s.endDate.None? ==>
      || HorizonEnd(s) == UtcDayStart(s.plan.startDate) + Days(365)
      || HorizonEnd(s) == UtcDayStart(s.plan.startDate) + Days(366)
    ensures s.endDate.Some? ==> HorizonEnd(s) == Midnight(Day(s.endDate.value) + 1)
  {
    hide UtcDayStart, AddUtcDays, AddUtcMonths;
    UtcDayStartIsFloor(s.plan.startDate);
    TwelveMonths(UtcDayStart(s.plan.startDate));
    if s.endDate.Some? {
      UtcDayStartIsFloor(s.endDate.value);
      AddUtcDaysExact(UtcDayStart(s.endDate.value), 1);
    }
  }

  lemma TwelveMonths(t: int)
    requires IsMidnight(t)
    ensures IsMidnight(AddUtcMonths(t, 12))
    ensures AddUtcMonths(t, 12) == t + Days(365) || AddUtcMonths(t, 12) == t + Days(366)
  {
    hide AddUtcMonths, TimeWithinDay, GetUtcFullYear, GetUtcMonth, GetUtcDate, IsLeapYear;
    TwelveMonthsLater(t);
  }

  lemma HorizonIsAligned(s: Schedule, k: int)
    requires k in Horizon(s)
    ensures FIRST_INSTANT <= k && IsMidnight(k)
  {
    hide UtcDayStart, HorizonEnd;
    UtcDayStartIsFloor(s.plan.startDate);
  }

  lemma {:induction false} MidnightCount(a: int, b: int)
    requires a <= b
    ensures |MidnightsIn(Midnight(a), Midnight(b))| == b - a
    decreases b - a
  {
    if a < b {
      MidnightCount(a, b - 1);
      assert MidnightsIn(Midnight(a), Midnight(b)) == MidnightsIn(Midnight(a), Midnight(b - 1)) + {Midnight(b - 1)};
    } else {
      assert MidnightsIn(Midnight(a), Midnight(b)) == {};
    }
  }

  /** An open-ended schedule covers 365 or 366 days, also when it starts on 29 February. */
  lemma OpenEndedHorizon(s: Schedule)
    requires s.endDate.None?
    ensures |Horizon(s)| == 365 || |Horizon(s)| == 366
  {
    hide UtcDayStart, HorizonEnd, MidnightsIn;
    HorizonEndExact(s);
    UtcDayStartIsFloor(s.plan.startDate);
    var d := Day(s.plan.startDate);
    MidnightCount(d, d + 365);
    MidnightCount(d, d + 366);
  }

  // ----- Table updates -----------------------------------------------------------------------

  /** Generating again changes nothing. */
  lemma GenerationIsIdempotent(slots: SlotTable, id: nat, s: Schedule)
    ensures Generated(Generated(slots, id, s), id, s) == Generated(slots, id, s)
  {
    hide UtcDayStart, HorizonEnd, GetCustodianForDate, MidnightsIn;
  }

  lemma GeneratedCovers(slots: SlotTable, id: nat, s: Schedule)
    ensures Covers(Generated(slots, id, s), id, s)
  {
    hide Horizon, GetCustodianForDate, UtcDayStart;
  }

  lemma GeneratedAgrees(schedules: seq<Schedule>, slots: SlotTable, id: nat)
    requires id < |schedules| && schedules[id].approvedBy.Some?
    requires CacheAgrees(schedules, slots)
    ensures CacheAgrees(schedules, Generated(slots, id, schedules[id]))
  {
    hide Horizon, GetCustodianForDate, UtcDayStart;
    var slots' := Generated(slots, id, schedules[id]);
    forall k | k in slots'
      ensures RowAgrees(schedules, k, slots'[k])
    {
      if k in Horizon(schedules[id]) {
        HorizonIsAligned(schedules[id], k);
      }
    }
  }

  lemma GeneratedAligned(slots: SlotTable, id: nat, s: Schedule)
    requires Aligned(slots)
    ensures Aligned(Generated(slots, id, s))
  {
    hide Horizon, GetCustodianForDate, UtcDayStart, IsMidnight;
    forall k | k in Horizon(s)
      ensures FIRST_INSTANT <= k && IsMidnight(k)
    {
      HorizonIsAligned(s, k);
    }
  }

  // ----- Steps that leave the columns of a schedule alone ------------------------------------

  /** Schedules are only appended; of an old one only the status moves, and an approval is kept. */
  predicate Extends(before: seq<Schedule>, after: seq<Schedule>) {
    && |before| <= |after|
    && forall i | 0 <= i < |before| ::
         && after[i].plan == before[i].plan && after[i].endDate == before[i].endDate
         && after[i].handover == before[i].handover && after[i].proposedBy == before[i].proposedBy
         && (before[i].approvedBy.Some? ==> after[i].approvedBy == before[i].approvedBy)
         && (before[i].status == Superseded ==> after[i].status == Superseded)
         && (after[i].status == PendingApproval ==> before[i].status == PendingApproval)
  }

  lemma AgreementExtends(before: seq<Schedule>, after: seq<Schedule>, slots: SlotTable)
    requires Extends(before, after)
    requires CacheAgrees(before, slots)
    ensures CacheAgrees(after, slots)
  {
    hide GetCustodianForDate, UtcDayStart, AddUtcDays, AddUtcMonths, MidnightsIn;
    forall k | k in slots
      ensures RowAgrees(after, k, slots[k])
    {
      assert RowAgrees(before, k, slots[k]);
    }
  }

  /** The update keeps every row or turns it into an override, and adds only overrides. */
  predicate OnlyOverrides(before: SlotTable, after: SlotTable) {
    && before.Keys <= after.Keys
    && forall k | k in after :: IsOverride(after[k]) || (k in before && after[k] == before[k])
  }

  lemma OverridesKeepCache(c: Calendar, slots: SlotTable)
    requires CacheAgrees(c.schedules, c.slots) && ActiveCovered(c.schedules, c.slots) && OnlyOverrides(c.slots, slots)
    ensures CacheAgrees(c.schedules, slots) && ActiveCovered(c.schedules, slots)
  {
    hide GetCustodianForDate, UtcDayStart, Horizon;
    forall k | k in slots
      ensures RowAgrees(c.schedules, k, slots[k])
    {
      if !IsOverride(slots[k]) {
        assert RowAgrees(c.schedules, k, c.slots[k]);
      }
    }
    forall i | 0 <= i < |c.schedules| && c.schedules[i].status == Active
      ensures Covers(slots, i, c.schedules[i])
    {
      assert Covers(c.slots, i, c.schedules[i]);
    }
  }

  lemma ExceptedOverrides(slots: SlotTable, id: nat, e: CustodyException)
    ensures OnlyOverrides(slots, Excepted(slots, id, e))
  {
    hide ExceptionDays;
  }

  lemma ExceptedAligned(slots: SlotTable, id: nat, e: CustodyException)
    requires Aligned(slots)
    ensures Aligned(Excepted(slots, id, e))
  {
    hide UtcDayStart, IsMidnight;
    UtcDayStartIsFloor(e.fromDate);
  }

  lemma SwapOverrides(c: Calendar, originalDate: Instant, proposedDate: Instant)
    ensures OnlyOverrides(c.slots, SwapApplied(c, originalDate, proposedDate))
    ensures Aligned(c.slots) ==> Aligned(SwapApplied(c, originalDate, proposedDate))
  {
    hide UtcDayStart, GetCustodianForDate, LatestWith, IsMidnight;
    UtcDayStartIsFloor(originalDate);
    UtcDayStartIsFloor(proposedDate);
  }

  lemma ExtendsReflexive(schedules: seq<Schedule>)
    ensures Extends(schedules, schedules)
  {
  }

  lemma ExtendsTransitive(a: seq<Schedule>, b: seq<Schedule>, c: seq<Schedule>)
    requires Extends(a, b) && Extends(b, c)
    ensures Extends(a, c)
  {
  }

  // ----- Preservation, action by action ------------------------------------------------------

  lemma ActiveStays(before: seq<Schedule>, after: seq<Schedule>)
    requires |before| <= |after|
    requires forall i | 0 <= i < |before| :: before[i].status == Active ==> after[i].status == Active
    ensures HasActive(before) ==> HasActive(after)
  {
    if HasActive(before) {
      var i :| 0 <= i < |before| && before[i].status == Active;
      assert after[i].status == Active;
    }
  }

  lemma ResolvedPlanOk(a: Action)
    requires a.ProposeSchedule?
    ensures forall start: Instant ::
              PlanOk(Plan(a.patternType, start, ResolveWeekPattern(a.patternType, a.weekA, a.weekB, a.weekInterval)))
  {
  }

  lemma ProposeKeeps(c: Calendar, a: Action)
    requires Inv(c) && a.ProposeSchedule?
    ensures Inv(Proposed(c, a).0) && Extends(c.schedules, Proposed(c, a).0.schedules)
  {
    hide UtcDayStart, ResolveWeekPattern, RowAgrees, Covers, PlanOk;
    var c' := Proposed(c, a).0;
    if c' != c {
      ResolvedPlanOk(a);
      ActiveStays(c.schedules, c'.schedules);
      AgreementExtends(c.schedules, c'.schedules, c.slots);
      forall i | 0 <= i < |c'.schedules| && c'.schedules[i].status == Active
        ensures Covers(c'.slots, i, c'.schedules[i])
      {
        assert c'.schedules[i] == c.schedules[i];
      }
    }
  }

  lemma RejectionKeeps(c: Calendar, id: nat)
    requires Inv(c) && id < |c.schedules| && c.schedules[id].status == PendingApproval
    ensures var c' := c.(schedules := c.schedules[id := c.schedules[id].(status := Superseded)]);
            Inv(c') && Extends(c.schedules, c'.schedules)
  {
    hide RowAgrees, Covers, Generated, PlanOk;
    var after := c.schedules[id := c.schedules[id].(status := Superseded)];
    AgreementExtends(c.schedules, after, c.slots);
    ActiveStays(c.schedules, after);
    forall i | 0 <= i < |after| && after[i].status == Active
      ensures Covers(c.slots, i, after[i])
    {
      assert after[i] == c.schedules[i];
    }
  }

  lemma ApprovalKeeps(c: Calendar, id: nat, approver: nat)
    requires Inv(c) && id < |c.schedules| && c.schedules[id].status == PendingApproval
    requires approver != c.schedules[id].proposedBy
    ensures var row := c.schedules[id].(status := Active, approvedBy := Some(approver));
            var c' := c.(schedules := Supersede(c.schedules, Active)[id := row], slots := Generated(c.slots, id, row));
            Inv(c') && Extends(c.schedules, c'.schedules)
  {
    hide RowAgrees, Covers, Generated, PlanOk;
    var row := c.schedules[id].(status := Active, approvedBy := Some(approver));
    var after := Supersede(c.schedules, Active)[id := row];
    assert after[id].status == Active;
    AgreementExtends(c.schedules, after, c.slots);
    GeneratedAgrees(after, c.slots, id);
    GeneratedCovers(c.slots, id, row);
    GeneratedAligned(c.slots, id, row);
  }

  lemma ScheduleAnswerKeeps(c: Calendar, id: nat, responder: User, approve: bool)
    requires Inv(c)
    ensures var c' := ScheduleAnswered(c, id, responder, approve).0;
            Inv(c') && Extends(c.schedules, c'.schedules)
  {
    hide Inv, Extends, Generated, Supersede;
    ExtendsReflexive(c.schedules);
    if id < |c.schedules| && c.schedules[id].status == PendingApproval && responder.id != c.schedules[id].proposedBy {
      RejectionKeeps(c, id);
      ApprovalKeeps(c, id, responder.id);
    }
  }

  lemma HandoverEditKeeps(c: Calendar, user: User, k: int, h: Handover)
    requires Inv(c)
    ensures Inv(HandoverEdited(c, user, k, h).0)
    ensures HandoverEdited(c, user, k, h).0.schedules == c.schedules
  {
    hide GetCustodianForDate, Horizon, Covers;
    var c' := HandoverEdited(c, user, k, h).0;
    if c' != c {
      assert !HasActive(c.schedules);
      forall j | j in c'.slots
        ensures RowAgrees(c'.schedules, j, c'.slots[j])
      {
        assert RowAgrees(c.schedules, j, c.slots[j]);
      }
    }
  }

  lemma StepKeepsInv(c: Calendar, a: Action)
    requires Inv(c)
    ensures Inv(Step(c, a).0) && Extends(c.schedules, Step(c, a).0.schedules)
  {
    hide Extends, ProtocolOk, PlansOk, CacheAgrees, ActiveCovered, Aligned;
    hide Proposed, ScheduleAnswered, HandoverEdited, SwapApplied, Excepted;
    ExtendsReflexive(c.schedules);
    match a
    case ProposeSchedule(_, _, _, _, _, _, _, _) =>
      ProposeKeeps(c, a);
    case RespondToSchedule(id, responder, approve) =>
      ScheduleAnswerKeeps(c, id, responder, approve);
    case CreateException(_, _, _, _) =>
    case RespondToException(id, responder, approve) =>
      if id < |c.exceptions| {
        var row := c.exceptions[id].(status := ExceptionAccepted);
        ExceptedOverrides(c.slots, id, row);
        ExceptedAligned(c.slots, id, row);
        OverridesKeepCache(c, Excepted(c.slots, id, row));
      }
    case CreateSwap(_, _, _) =>
    case RespondToSwap(id, responder, answer) =>
      if id < |c.swaps| {
        var row := c.swaps[id];
        SwapOverrides(c, row.originalDate, row.proposedDate);
        OverridesKeepCache(c, SwapApplied(c, row.originalDate, row.proposedDate));
      }
    case EditHandover(user, k, h) =>
      HandoverEditKeeps(c, user, k, h);
  }

  // ----- Theorems about whole runs -----------------------------------------------------------

  lemma {:induction false} RunKeepsInv(c: Calendar, actions: seq<Action>)
    requires Inv(c)
    ensures Inv(Run(c, actions)) && Extends(c.schedules, Run(c, actions).schedules)
    decreases |actions|
  {
    hide Inv, Extends, Step;
    if actions == [] {
      ExtendsReflexive(c.schedules);
    } else {
      var next := Step(c, actions[0]).0;
      StepKeepsInv(c, actions[0]);
      RunKeepsInv(next, actions[1..]);
      ExtendsTransitive(c.schedules, next.schedules, Run(c, actions).schedules);
    }
  }

  lemma EmptyInv()
    ensures Inv(EMPTY)
  {
  }

  /**
    After any run the slot table is an exact cache: a row that claims to come from a schedule shows
    the custodian that schedule gives on that day, superseded or not, and the active schedule has all
    days of its horizon in the table, each either an agreed override or its own row.
   */
  lemma TableIsExactCache(actions: seq<Action>)
    ensures var c := Run(EMPTY, actions);
            && (forall k | k in c.slots && c.slots[k].source == FromSchedule ::
                  && FIRST_INSTANT <= k && c.slots[k].scheduleId.Some? && c.slots[k].scheduleId.value < |c.schedules|
                  && c.slots[k].custodian == GetCustodianForDate(c.schedules[c.slots[k].scheduleId.value].plan, k))
            && (forall i, k |
                  0 <= i < |c.schedules| && c.schedules[i].status == Active && k in Horizon(c.schedules[i]) ::
                  && FIRST_INSTANT <= k && k in c.slots
                  && (IsOverride(c.slots[k]) || c.slots[k] == ScheduleSlot(i, c.schedules[i], k)))
  {
    hide Horizon, GetCustodianForDate;
    var c := Run(EMPTY, actions);
    EmptyInv();
    RunKeepsInv(EMPTY, actions);
    forall k | k in c.slots && c.slots[k].source == FromSchedule
      ensures FIRST_INSTANT <= k && c.slots[k].scheduleId.Some? && c.slots[k].scheduleId.value < |c.schedules|
      ensures c.slots[k].custodian == GetCustodianForDate(c.schedules[c.slots[k].scheduleId.value].plan, k)
    {
      assert RowAgrees(c.schedules, k, c.slots[k]);
    }
    forall i, k | 0 <= i < |c.schedules| && c.schedules[i].status == Active && k in Horizon(c.schedules[i])
      ensures FIRST_INSTANT <= k && k in c.slots
      ensures IsOverride(c.slots[k]) || c.slots[k] == ScheduleSlot(i, c.schedules[i], k)
    {
      HorizonIsAligned(c.schedules[i], k);
      assert Covers(c.slots, i, c.schedules[i]);
      assert RowAgrees(c.schedules, k, c.slots[k]);
    }
  }

  /** At most one pending and one active schedule, each active one approved by another user than its proposer. */
  lemma ProtocolHolds(actions: seq<Action>)
    ensures var ss := Run(EMPTY, actions).schedules;
            && (forall i, j | 0 <= i < j < |ss| :: ss[i].status == ss[j].status ==> ss[i].status == Superseded)
            && (forall i | 0 <= i < |ss| && ss[i].status == Active ::
                  ss[i].approvedBy.Some? && ss[i].approvedBy.value != ss[i].proposedBy)
  {
    EmptyInv();
    RunKeepsInv(EMPTY, actions);
    var ss := Run(EMPTY, actions).schedules;
    forall i, j | 0 <= i < j < |ss| && ss[i].status == ss[j].status
      ensures ss[i].status == Superseded
    {
    }
  }

  /** A superseded schedule stays superseded, and what was proposed never changes. */
  lemma SupersededIsFinal(c: Calendar, actions: seq<Action>, i: nat)
    requires Inv(c) && i < |c.schedules|
    ensures var c' := Run(c, actions);
            && i < |c'.schedules|
            && (c.schedules[i].status == Superseded ==> c'.schedules[i].status == Superseded)
            && c'.schedules[i].plan == c.schedules[i].plan && c'.schedules[i].endDate == c.schedules[i].endDate
  {
    hide Inv;
    RunKeepsInv(c, actions);
  }

  /** An answered exception never changes again, so it is applied at most once. */
  lemma {:induction false} AnswersAreFinal(c: Calendar, actions: seq<Action>, i: nat)
    requires i < |c.exceptions| && c.exceptions[i].status != ExceptionPending
    ensures i < |Run(c, actions).exceptions| && Run(c, actions).exceptions[i] == c.exceptions[i]
    decreases |actions|
  {
    hide Step;
    if actions != [] {
      AnswerStays(c, actions[0], i);
      AnswersAreFinal(Step(c, actions[0]).0, actions[1..], i);
    }
  }

  lemma AnswerStays(c: Calendar, a: Action, i: nat)
    requires i < |c.exceptions| && c.exceptions[i].status != ExceptionPending
    ensures i < |Step(c, a).0.exceptions| && Step(c, a).0.exceptions[i] == c.exceptions[i]
    ensures a.RespondToException? && a.exceptionId == i ==> Step(c, a) == (c, Refused("exception_not_pending"))
  {
    hide UtcDayStart, ResolveWeekPattern, Generated, SwapApplied, Excepted, LatestWith;
  }

  lemma StepKeepsActive(c: Calendar, a: Action)
    requires HasActive(c.schedules)
    ensures HasActive(Step(c, a).0.schedules)
  {
    hide UtcDayStart, ResolveWeekPattern, Generated, SwapApplied, Excepted;
    var after := Step(c, a).0.schedules;
    if a.RespondToSchedule? && a.approve && after != c.schedules {
      assert after[a.scheduleId].status == Active;
    } else {
      ActiveStays(c.schedules, after);
    }
  }

  predicate IsOnlyActive(schedules: seq<Schedule>, i: nat)
    requires i < |schedules|
  {
    forall j | 0 <= j < |schedules| :: schedules[j].status == Active <==> j == i
  }

  /** From the first approval on there is exactly one active schedule, so handover edits are refused. */
  lemma {:induction false} ActiveForever(c: Calendar, actions: seq<Action>, edit: Action)
    requires Inv(c) && HasActive(c.schedules) && edit.EditHandover?
    ensures var c' := Run(c, actions);
            && (exists i | 0 <= i < |c'.schedules| :: IsOnlyActive(c'.schedules, i))
            && Step(c', edit).1.Refused? && Step(c', edit).0 == c'
    decreases |actions|
  {
    hide Step;
    if actions == [] {
      var i :| 0 <= i < |c.schedules| && c.schedules[i].status == Active;
      assert IsOnlyActive(c.schedules, i);
      EditIsLocked(c, edit);
    } else {
      var next := Step(c, actions[0]).0;
      StepKeepsInv(c, actions[0]);
      StepKeepsActive(c, actions[0]);
      ActiveForever(next, actions[1..], edit);
      assert Run(c, actions) == Run(next, actions[1..]);
      var i :| 0 <= i < |Run(c, actions).schedules| && IsOnlyActive(Run(c, actions).schedules, i);
    }
  }

  lemma EditIsLocked(c: Calendar, edit: Action)
    requires HasActive(c.schedules) && edit.EditHandover?
    ensures Step(c, edit).1.Refused? && Step(c, edit).0 == c
  {
    hide LatestWith;
    var i :| 0 <= i < |c.schedules| && c.schedules[i].status == Active;
  }

  // ----- Overrides survive -------------------------------------------------------------------

  /** No row is deleted, and an override stays an override. */
  predicate OverridesStay(before: SlotTable, after: SlotTable) {
    forall k | k in before :: k in after && (IsOverride(before[k]) ==> IsOverride(after[k]))
  }

  lemma StepKeepsOverrides(c: Calendar, a: Action)
    ensures OverridesStay(c.slots, Step(c, a).0.slots)
  {
    hide Horizon, UtcDayStart, ResolveWeekPattern, SwapApplied, Excepted, GetCustodianForDate;
    match a
    case RespondToException(id, responder, approve) =>
      if id < |c.exceptions| {
        ExceptedOverrides(c.slots, id, c.exceptions[id].(status := ExceptionAccepted));
      }
    case RespondToSwap(id, responder, answer) =>
      if id < |c.swaps| {
        SwapOverrides(c, c.swaps[id].originalDate, c.swaps[id].proposedDate);
      }
    case _ =>
  }

  lemma {:induction false} OverridesSurvive(c: Calendar, actions: seq<Action>)
    ensures OverridesStay(c.slots, Run(c, actions).slots)
    decreases |actions|
  {
    hide Step;
    if actions != [] {
      StepKeepsOverrides(c, actions[0]);
      OverridesSurvive(Step(c, actions[0]).0, actions[1..]);
    }
  }

  /** An exception covers the whole days from its first to its last date, both included. */
  lemma ExceptionDaysExact(e: CustodyException, k: int)
    ensures k in ExceptionDays(e) <==> IsMidnight(k) && Day(e.fromDate) <= Day(k) <= Day(e.toDate)
  {
    hide UtcDayStart;
    UtcDayStartIsFloor(e.fromDate);
    UtcDayStartIsFloor(e.toDate);
  }

  /** After an approval the whole days of the exception show its custodian, and every other row is as before. */
  lemma ApprovedExceptionShows(c: Calendar, id: nat, responder: User, k: int)
    requires ExceptionAnswered(c, id, responder, true).1 == Done
    ensures var after, e := ExceptionAnswered(c, id, responder, true).0.slots, c.exceptions[id];
            if IsMidnight(k) && Day(e.fromDate) <= Day(k) <= Day(e.toDate)
            then k in after && after[k].custodian == e.custodian && after[k].source == FromException
                 && after[k].exceptionId == Some(id)
            else (k in after <==> k in c.slots) && (k in after ==> after[k] == c.slots[k])
  {
    hide ExceptionDays, IsMidnight, Day;
    ExceptionDaysExact(c.exceptions[id].(status := ExceptionAccepted), k);
  }
}
