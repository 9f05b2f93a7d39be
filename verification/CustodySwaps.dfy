/**
  What the answer to a swap request does and does not guarantee. The code never reads the status of
  the request it answers, and it fills a missing day from a proposal before it asks for the schedule
  in force.
 */
module CustodySwaps {
  import opened JsDate
  import opened DateUtils
  import opened Options
  import opened Pattern
  import opened Custody
  import opened CustodyRuns
  import opened CustodyDays
  import opened CustodyAgreements
  import Runs

  /** Any parent other than the requester answers any request, whatever its status, with any status. */
  lemma SwapAnswerDoneIff(c: Calendar, id: nat, responder: User, answer: SwapStatus)
    ensures SwapAnswered(c, id, responder, answer).1 == Done
            <==> id < |c.swaps| && responder.IsParent() && responder.id != c.swaps[id].requester
    ensures SwapAnswered(c, id, responder, answer).1 == Done ==>
              SwapAnswered(c, id, responder, answer).0.swaps[id].status == answer
  {
    hide SwapApplied;
  }

  // ----- When an acceptance exchanges anything -----------------------------------------------

  /** The table on which an acceptance of the request would work. */
  function Both(c: Calendar, id: nat): SlotTable
    requires id < |c.swaps|
  {
    BothEnsured(c, c.swaps[id].originalDate, c.swaps[id].proposedDate)
  }

  function OriginalDay(c: Calendar, id: nat): int
    requires id < |c.swaps|
  {
    UtcDayStart(c.swaps[id].originalDate)
  }

  function ProposedDay(c: Calendar, id: nat): int
    requires id < |c.swaps|
  {
    UtcDayStart(c.swaps[id].proposedDate)
  }

  predicate HasBothRows(c: Calendar, id: nat)
    requires id < |c.swaps|
  {
    OriginalDay(c, id) in c.slots && ProposedDay(c, id) in c.slots
  }

  /** The days are exchanged if and only if both have rows or some schedule is pending or active. */
  lemma AcceptanceTakesEffectIff(c: Calendar, id: nat, responder: User)
    requires SwapAnswered(c, id, responder, SwapAccepted).1 == Done
    ensures var after, both := SwapAnswered(c, id, responder, SwapAccepted).0.slots, Both(c, id);
            var a, b := OriginalDay(c, id), ProposedDay(c, id);
            && ((a in both && b in both) <==> HasBothRows(c, id) || ActiveOrPending(c.schedules).Some?)
            && (if a in both && b in both
                then after.Keys == both.Keys
                     && after[a].custodian == both[b].custodian && after[b].custodian == both[a].custodian
                else after == c.slots)
  {
    hide UtcDayStart, GetCustodianForDate, LatestWith, ScheduleSlot;
  }

  /** Every day that has a row shows the custodian it showed before. */
  predicate SameCustodians(before: SlotTable, after: SlotTable) {
    after.Keys == before.Keys && forall k | k in before :: after[k].custodian == before[k].custodian
  }

  /** A further acceptance of a swap changes no custodian if and only if its two rows show the same one. */
  lemma AcceptingAgainIsHarmlessIff(c: Calendar, id: nat, responder: User)
    requires SwapAnswered(c, id, responder, SwapAccepted).1 == Done
    requires HasBothRows(c, id)
    ensures SameCustodians(c.slots, SwapAnswered(c, id, responder, SwapAccepted).0.slots)
            <==> c.slots[OriginalDay(c, id)].custodian == c.slots[ProposedDay(c, id)].custodian
  {
    hide UtcDayStart, GetCustodianForDate, LatestWith, ScheduleSlot;
  }

  // ----- When the status tells the truth -----------------------------------------------------

  /**
    The request reads accepted exactly while the original day shows another custodian than `before`,
    the one it showed when the swap was asked for.
   */
  predicate StatusTells(c: Calendar, id: nat, before: Custodian)
    requires id < |c.swaps| && OriginalDay(c, id) in Both(c, id)
  {
    c.swaps[id].status == SwapAccepted <==> Both(c, id)[OriginalDay(c, id)].custodian != before
  }

  /** The swap is one of two days of different custodians, both known to the table or the schedule. */
  predicate Matters(c: Calendar, id: nat) {
    && id < |c.swaps|
    && OriginalDay(c, id) in Both(c, id) && ProposedDay(c, id) in Both(c, id)
    && Both(c, id)[OriginalDay(c, id)].custodian != Both(c, id)[ProposedDay(c, id)].custodian
  }

  /** An answer keeps the status truthful if and only if the request did not yet read accepted. */
  lemma AnswerKeepsStatusTruthIff(c: Calendar, id: nat, responder: User, answer: SwapStatus, before: Custodian)
    requires Matters(c, id) && StatusTells(c, id, before)
    requires SwapAnswered(c, id, responder, answer).1 == Done
    ensures var after := SwapAnswered(c, id, responder, answer).0;
            Matters(after, id) && (StatusTells(after, id, before) <==> c.swaps[id].status != SwapAccepted)
  {
    hide UtcDayStart, GetCustodianForDate, LatestWith, ScheduleSlot;
    var row, after := c.swaps[id], SwapAnswered(c, id, responder, answer).0;
    assert after.swaps[id] == row.(status := answer);
    if answer == SwapAccepted {
      ExchangeIsSettled(c, row.originalDate, row.proposedDate);
      assert Both(after, id) == after.slots;
    } else {
      assert Both(after, id) == Both(c, id);
    }
  }

  lemma ExchangeIsSettled(c: Calendar, originalDate: Instant, proposedDate: Instant)
    ensures var both, after := BothEnsured(c, originalDate, proposedDate), SwapApplied(c, originalDate, proposedDate);
            var a, b := UtcDayStart(originalDate), UtcDayStart(proposedDate);
            a in both && b in both ==>
              && BothEnsured(c.(slots := after), originalDate, proposedDate) == after
              && after[a].custodian == both[b].custodian && after[b].custodian == both[a].custodian
  {
    hide UtcDayStart, GetCustodianForDate, LatestWith, ScheduleSlot;
  }

  /** The swap reads accepted, its two days are exchanged, and they show different custodians. */
  predicate InForce(c: Calendar, id: nat, before: Custodian) {
    && id < |c.swaps| && c.swaps[id].status == SwapAccepted
    && Overridden(c.slots, OriginalDay(c, id)) && Overridden(c.slots, ProposedDay(c, id))
    && c.slots[OriginalDay(c, id)].custodian != before == c.slots[ProposedDay(c, id)].custodian
  }

  lemma FirstAcceptanceIsInForce(c: Calendar, id: nat, responder: User)
    requires Matters(c, id)
    requires SwapAnswered(c, id, responder, SwapAccepted).1 == Done
    ensures var next := SwapAnswered(c, id, responder, SwapAccepted).0;
            && InForce(next, id, Both(c, id)[OriginalDay(c, id)].custodian)
            && next.swaps[id] == c.swaps[id].(status := SwapAccepted)
  {
    hide UtcDayStart, GetCustodianForDate, LatestWith, ScheduleSlot;
  }

  predicate IsAnswer(a: Action, id: nat) {
    a.RespondToSwap? && a.swapId == id
  }

  /** A parent other than the requester answers the request. */
  predicate IsValidAnswer(a: Action, id: nat, requester: nat) {
    IsAnswer(a, id) && a.responder.IsParent() && a.responder.id != requester
  }

  /** Whatever else happens, nothing but answers to the request makes an agreement over the two days. */
  predicate OnlyThisSwap(c: Calendar, actions: seq<Action>, id: nat, a: int, b: int)
    decreases |actions|
  {
    actions == [] ||
    (&& (IsAnswer(actions[0], id) || Leaves(Made(c, actions[0]), a, b))
     && OnlyThisSwap(Next(c, actions[0]), actions[1..], id, a, b))
  }

  predicate Leaves(made: Option<Agreement>, a: int, b: int) {
    made.Some? ==> !Touches(made.value, a) && !Touches(made.value, b)
  }

  function Tells(id: nat, before: Custodian): Calendar -> bool {
    (c: Calendar) => id < |c.swaps| && OriginalDay(c, id) in Both(c, id) && StatusTells(c, id, before)
  }

  ghost predicate TellsThroughout(c: Calendar, actions: seq<Action>, id: nat, before: Custodian) {
    Runs.Throughout(Run, Tells(id, before), c, actions)
  }

  predicate NeverAnswered(actions: seq<Action>, id: nat, requester: nat) {
    forall i | 0 <= i < |actions| :: !IsValidAnswer(actions[i], id, requester)
  }

  /**
    From an acceptance that took effect, over any run in which no other agreement touches the two
    days, the status is truthful at every moment if and only if no parent answers the request again.
   */
  lemma {:induction false} StatusStaysTrueIff(c: Calendar, actions: seq<Action>, id: nat, before: Custodian)
    requires InForce(c, id, before)
    requires OnlyThisSwap(c, actions, id, OriginalDay(c, id), ProposedDay(c, id))
    ensures TellsThroughout(c, actions, id, before) <==> NeverAnswered(actions, id, c.swaps[id].requester)
    decreases |actions|
  {
    hide Step, InForce, OriginalDay, ProposedDay, StatusTells, Both, IsValidAnswer, IsAnswer, Made;
    InForceTells(c, id, before);
    CustodyRunsBySteps();
    Runs.ThroughoutStep(Run, Next, Tells(id, before), c, actions);
    if actions != [] {
      var next, rest, requester := Next(c, actions[0]), actions[1..], c.swaps[id].requester;
      NeverAnsweredStepByStep(actions, id, requester);
      if IsValidAnswer(actions[0], id, requester) {
        ValidAnswerBreaks(c, actions[0], id, before);
        Runs.ThroughoutStep(Run, Next, Tells(id, before), next, rest);
      } else {
        OtherStepsLeaveSwap(c, actions[0], id, before);
        StatusStaysTrueIff(next, rest, id, before);
      }
    }
  }

  /**
    The same from the first acceptance on: take any request for two days of different custodians, let
    a parent accept it, and let no other agreement touch the two days from then on.
   */
  lemma AcceptedStaysTrueIff(c: Calendar, id: nat, responder: User, actions: seq<Action>)
    requires Matters(c, id) && SwapAnswered(c, id, responder, SwapAccepted).1 == Done
    requires OnlyThisSwap(SwapAnswered(c, id, responder, SwapAccepted).0, actions, id,
                          OriginalDay(c, id), ProposedDay(c, id))
    ensures var accepted := SwapAnswered(c, id, responder, SwapAccepted).0;
            var before := Both(c, id)[OriginalDay(c, id)].custodian;
            TellsThroughout(accepted, actions, id, before) <==> NeverAnswered(actions, id, c.swaps[id].requester)
  {
    hide SwapAnswered, Both, InForce, OnlyThisSwap, TellsThroughout, NeverAnswered;
    hide UtcDayStart, BothEnsured;
    FirstAcceptanceIsInForce(c, id, responder);
    var accepted := SwapAnswered(c, id, responder, SwapAccepted).0;
    InForceTells(accepted, id, Both(c, id)[OriginalDay(c, id)].custodian);
    StatusStaysTrueIff(accepted, actions, id, Both(c, id)[OriginalDay(c, id)].custodian);
  }

  lemma NeverAnsweredStepByStep(actions: seq<Action>, id: nat, requester: nat)
    requires actions != []
    ensures NeverAnswered(actions, id, requester)
            <==> !IsValidAnswer(actions[0], id, requester) && NeverAnswered(actions[1..], id, requester)
  {
    hide IsValidAnswer;
    assert actions == [actions[0]] + actions[1..];
  }

  lemma InForceTells(c: Calendar, id: nat, before: Custodian)
    requires InForce(c, id, before)
    ensures id < |c.swaps| && Both(c, id) == c.slots && Matters(c, id) && StatusTells(c, id, before)
  {
    hide UtcDayStart, GetCustodianForDate, LatestWith, ScheduleSlot;
  }

  lemma ValidAnswerBreaks(c: Calendar, a: Action, id: nat, before: Custodian)
    requires InForce(c, id, before) && IsValidAnswer(a, id, c.swaps[id].requester)
    ensures var next := Next(c, a); Matters(next, id) && !StatusTells(next, id, before)
  {
    hide SwapAnswered, InForce, StatusTells, Matters;
    InForceTells(c, id, before);
    SwapAnswerDoneIff(c, id, a.responder, a.answer);
    AnswerKeepsStatusTruthIff(c, id, a.responder, a.answer, before);
    assert c.swaps[id].status == SwapAccepted by { InForceIsAccepted(c, id, before); }
  }

  lemma InForceIsAccepted(c: Calendar, id: nat, before: Custodian)
    requires InForce(c, id, before)
    ensures c.swaps[id].status == SwapAccepted
  {
  }

  lemma OtherStepsLeaveSwap(c: Calendar, a: Action, id: nat, before: Custodian)
    requires InForce(c, id, before) && !IsValidAnswer(a, id, c.swaps[id].requester)
    requires IsAnswer(a, id) || Leaves(Made(c, a), OriginalDay(c, id), ProposedDay(c, id))
    ensures InForce(Next(c, a), id, before) && Next(c, a).swaps[id] == c.swaps[id]
    ensures OriginalDay(Next(c, a), id) == OriginalDay(c, id) && ProposedDay(Next(c, a), id) == ProposedDay(c, id)
  {
    hide UtcDayStart, Applied, Touches, BothEnsured;
    if IsAnswer(a, id) {
      assert Next(c, a) == c;
    } else {
      var first, second := OriginalDay(c, id), ProposedDay(c, id);
      StepKeepsOverrides(c, a);
      StepFollowsAgreement(c, a);
      UntouchedDaysStay(c, a, first);
      UntouchedDaysStay(c, a, second);
      OtherStepsLeaveRow(c, a, id);
    }
  }

  lemma UntouchedDaysStay(c: Calendar, a: Action, k: int)
    requires Overridden(c.slots, k)
    requires Made(c, a).Some? ==> !Touches(Made(c, a).value, k)
    ensures Overridden(Next(c, a).slots, k) && Next(c, a).slots[k].custodian == c.slots[k].custodian
  {
    hide Step, Made;
    StepFollowsAgreement(c, a);
    assert k in Overrides(c.slots) && k in Overrides(Next(c, a).slots);
  }

  lemma OtherStepsLeaveRow(c: Calendar, a: Action, id: nat)
    requires id < |c.swaps| && !IsAnswer(a, id)
    ensures id < |Next(c, a).swaps| && Next(c, a).swaps[id] == c.swaps[id]
  {
    hide UtcDayStart, ResolveWeekPattern, Generated, SwapApplied, Excepted, LatestWith;
  }

  // ----- Reachable examples ------------------------------------------------------------------

  const MOTHER := User(1, RoleParentA)
  const FATHER := User(2, RoleParentB)

  /** Monday 5 January 1970, and the Monday after. */
  const FIRST_DAY: Instant := Days(4)
  const SECOND_DAY: Instant := Days(11)

  const PROPOSAL :=
    ProposeSchedule(MOTHER, WeekAlternating, FIRST_DAY, Some(SECOND_DAY), None, None, None, Handover(None, None))
  const SWAP := CreateSwap(MOTHER, FIRST_DAY, SECOND_DAY)

  /** The custodians of the two days. */
  predicate Shows(c: Calendar, first: Custodian, second: Custodian) {
    && FIRST_DAY in c.slots && c.slots[FIRST_DAY].custodian == first
    && SECOND_DAY in c.slots && c.slots[SECOND_DAY].custodian == second
  }

  lemma CustodyRunsBySteps()
    ensures Runs.RunsBySteps(Run, Next)
  {
    hide Step;
  }

  const PLANNED := Schedule(Plan(WeekAlternating, FIRST_DAY, PresetWeeks(WeekAlternating)), Some(SECOND_DAY),
                            Handover(None, None), PendingApproval, 1, None)

  lemma PlannedDays(id: nat, s: Schedule)
    requires s.plan == PLANNED.plan
    ensures ScheduleSlot(id, s, FIRST_DAY).custodian == ParentA
    ensures ScheduleSlot(id, s, SECOND_DAY).custodian == ParentB
  {
    hide GetCustodianForDate, UtcDayStart;
    CustodianMeetsRule(s.plan, FIRST_DAY);
    CustodianMeetsRule(s.plan, SECOND_DAY);
    assert Day(FIRST_DAY) == 4 && Day(SECOND_DAY) == 11;
  }

  lemma ExampleMidnights()
    ensures UtcDayStart(FIRST_DAY) == FIRST_DAY && UtcDayStart(SECOND_DAY) == SECOND_DAY
  {
    hide UtcDayStart;
    UtcDayStartIsFloor(FIRST_DAY);
    UtcDayStartIsFloor(SECOND_DAY);
  }

  lemma ProposalIsPending()
    ensures Next(EMPTY, PROPOSAL) == Calendar([PLANNED], [], [], map[])
  {
    hide UtcDayStart;
    ExampleMidnights();
  }

  lemma ProposalIsApproved()
    ensures var c := Next(Next(EMPTY, PROPOSAL), RespondToSchedule(0, FATHER, true));
            Shows(c, ParentA, ParentB) && c.swaps == [] && |c.schedules| == 1 && c.schedules[0].status == Active
  {
    hide UtcDayStart, GetCustodianForDate, HorizonEnd, ScheduleSlot;
    ExampleMidnights();
    ProposalIsPending();
    var s := PLANNED.(status := Active, approvedBy := Some(2));
    HorizonEndExact(s);
    assert FIRST_DAY in Horizon(s) && SECOND_DAY in Horizon(s);
    PlannedDays(0, s);
  }

  /** One answer to the swap of the two days, both of which have rows. */
  lemma AnswerShows(c: Calendar, answer: SwapStatus, first: Custodian, second: Custodian)
    requires Shows(c, first, second)
    requires |c.swaps| == 1 && c.swaps[0].originalDate == FIRST_DAY && c.swaps[0].proposedDate == SECOND_DAY
    requires c.swaps[0].requester == 1
    ensures var c' := Next(c, RespondToSwap(0, FATHER, answer));
            && c'.swaps == [c.swaps[0].(status := answer)]
            && (if answer == SwapAccepted then Shows(c', second, first) else Shows(c', first, second))
  {
    hide UtcDayStart, GetCustodianForDate, LatestWith, ScheduleSlot;
    ExampleMidnights();
  }

  function AnsweredTwice(again: SwapStatus): seq<Action> {
    [PROPOSAL, RespondToSchedule(0, FATHER, true), SWAP,
     RespondToSwap(0, FATHER, SwapAccepted), RespondToSwap(0, FATHER, again)]
  }

  /**
    Both failures are reachable. Accepted twice, the swap reads accepted and nothing is exchanged;
    accepted and then rejected, it reads rejected and the days stay exchanged.
   */
  lemma AnsweringAgainIsReachable(again: SwapStatus)
    ensures Shows(Run(EMPTY, AnsweredTwice(again)[..3]), ParentA, ParentB)
    ensures Shows(Run(EMPTY, AnsweredTwice(again)[..4]), ParentB, ParentA)
    ensures var c := Run(EMPTY, AnsweredTwice(again));
            && |c.swaps| == 1 && c.swaps[0].status == again
            && (if again == SwapAccepted then Shows(c, ParentA, ParentB) else Shows(c, ParentB, ParentA))
  {
    hide Run, Step, Shows;
    var actions := AnsweredTwice(again);
    var c1 := Next(EMPTY, actions[0]);
    var c2 := Next(c1, actions[1]);
    ProposalIsApproved();
    var c3 := Next(c2, actions[2]);
    SwapIsCreated(c2);
    AnswerShows(c3, SwapAccepted, ParentA, ParentB);
    var c4 := Next(c3, actions[3]);
    AnswerShows(c4, again, ParentB, ParentA);
    var c5 := Next(c4, actions[4]);
    CustodyRunsBySteps();
    Runs.RunVisits(Run, Next, actions[..3], [EMPTY, c1, c2, c3]);
    Runs.RunVisits(Run, Next, actions[..4], [EMPTY, c1, c2, c3, c4]);
    Runs.RunVisits(Run, Next, actions, [EMPTY, c1, c2, c3, c4, c5]);
  }

  lemma SwapIsCreated(c: Calendar)
    ensures Next(c, SWAP) == c.(swaps := c.swaps + [SwapRequest(FIRST_DAY, SECOND_DAY, SwapPending, 1)])
    ensures forall first, second | Shows(c, first, second) :: Shows(Next(c, SWAP), first, second)
  {
  }

  // ----- Days filled from a plan that nobody approved ----------------------------------------

  /** The custodian of the day comes from its row, or from a schedule that was approved. */
  predicate FromApproved(c: Calendar, made: SlotTable, k: int) {
    k in made ==>
      || (k in c.slots && made[k] == c.slots[k])
      || (&& made[k].scheduleId.Some? && made[k].scheduleId.value < |c.schedules|
          && c.schedules[made[k].scheduleId.value].approvedBy.Some?)
  }

  /**
    The custodians that an accepted swap exchanges come from the table or an approved schedule if and
    only if both days have rows or no proposal is pending.
   */
  lemma SwapUsesApprovedIff(c: Calendar, id: nat)
    requires Inv(c) && id < |c.swaps|
    ensures FromApproved(c, Both(c, id), OriginalDay(c, id)) && FromApproved(c, Both(c, id), ProposedDay(c, id))
            <==> HasBothRows(c, id) || LatestWith(c.schedules, PendingApproval).None?
  {
    hide UtcDayStart, GetCustodianForDate, LatestWith, CacheAgrees, ActiveCovered, Aligned, PlansOk;
    var s := ActiveOrPending(c.schedules);
    if s.Some? {
      assert ApprovalOk(c.schedules[s.value]);
    }
  }

  const UNAPPROVED := [PROPOSAL, SWAP, RespondToSwap(0, FATHER, SwapAccepted), RespondToSchedule(0, FATHER, false)]

  /** A proposal that was only ever rejected leaves two protected days behind. */
  lemma RejectedPlanStays()
    ensures var c := Run(EMPTY, UNAPPROVED);
            && Shows(c, ParentB, ParentA)
            && Overridden(c.slots, FIRST_DAY) && Overridden(c.slots, SECOND_DAY)
            && |c.schedules| == 1 && c.schedules[0].status == Superseded && c.schedules[0].approvedBy.None?
  {
    hide Run, Step, Next, Shows;
    var c1 := Calendar([PLANNED], [], [], map[]);
    ProposalIsPending();
    var c2 := c1.(swaps := [SwapRequest(FIRST_DAY, SECOND_DAY, SwapPending, 1)]);
    SwapIsCreated(c1);
    var c3 := Next(c2, RespondToSwap(0, FATHER, SwapAccepted));
    PendingFillsBothDays();
    var c4 := c3.(schedules := [PLANNED.(status := Superseded)]);
    RejectionOnly(c3);
    ShownBySlots(c3, c4);
    CustodyRunsBySteps();
    assert Next(EMPTY, UNAPPROVED[0]) == c1 && Next(c1, UNAPPROVED[1]) == c2;
    assert Next(c2, UNAPPROVED[2]) == c3 && Next(c3, UNAPPROVED[3]) == c4;
    Runs.RunVisits(Run, Next, UNAPPROVED, [EMPTY, c1, c2, c3, c4]);
  }

  lemma ShownBySlots(c: Calendar, c': Calendar)
    requires c'.slots == c.slots
    ensures forall first, second | Shows(c, first, second) :: Shows(c', first, second)
  {
  }

  lemma PendingFillsBothDays()
    ensures var c := Calendar([PLANNED], [], [SwapRequest(FIRST_DAY, SECOND_DAY, SwapPending, 1)], map[]);
            var c' := Next(c, RespondToSwap(0, FATHER, SwapAccepted));
            && Shows(c', ParentB, ParentA) && c'.schedules == c.schedules
            && Overridden(c'.slots, FIRST_DAY) && Overridden(c'.slots, SECOND_DAY)
  {
    hide UtcDayStart, GetCustodianForDate, ScheduleSlot;
    ExampleMidnights();
    PlannedDays(0, PLANNED);
    assert ActiveOrPending([PLANNED]) == Some(0);
  }

  lemma RejectionOnly(c: Calendar)
    requires c.schedules == [PLANNED]
    ensures Next(c, RespondToSchedule(0, FATHER, false)) == c.(schedules := [PLANNED.(status := Superseded)])
  {
    hide Generated;
  }
}
