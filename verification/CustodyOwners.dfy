/**
  Which schedule a row of the table comes from: outside the overridden days, the table is a function
  of the schedules alone.
 */
module CustodyOwners {
  import opened DateUtils
  import opened Options
  import opened Custody
  import opened CustodyRuns
  import opened CustodyAgreements

  /** The schedule was approved at some time, and its horizon holds the day. */
  predicate Claims(s: Schedule, k: int) {
    s.approvedBy.Some? && k in Horizon(s)
  }

  /** The approved schedule with the largest id whose horizon holds the day. */
  function NewestClaiming(schedules: seq<Schedule>, k: int): (r: Option<nat>)
    ensures r.Some? ==> r.value < |schedules|
  {
    if schedules == [] then None
    else if Claims(schedules[|schedules| - 1], k) then Some(|schedules| - 1)
    else NewestClaiming(schedules[..|schedules| - 1], k)
  }

  /** It claims the day, and no later one does. */
  lemma {:induction false} NewestExact(schedules: seq<Schedule>, k: int)
    ensures var r := NewestClaiming(schedules, k);
            && (r.Some? ==> Claims(schedules[r.value], k))
            && forall j | (if r.Some? then r.value + 1 else 0) <= j < |schedules| :: !Claims(schedules[j], k)
  {
    hide Claims;
    if schedules != [] {
      NewestExact(schedules[..|schedules| - 1], k);
    }
  }

  predicate PendingIsLast(schedules: seq<Schedule>) {
    forall i | 0 <= i < |schedules| - 1 :: schedules[i].status != PendingApproval
  }

  /** The row is an override, or of the newest schedule that claims the day. */
  predicate Owned(schedules: seq<Schedule>, k: int, s: Slot) {
    IsOverride(s) || (s.source == FromSchedule && s.scheduleId.Some? && NewestClaiming(schedules, k) == s.scheduleId)
  }

  predicate RowsOwned(schedules: seq<Schedule>, slots: SlotTable) {
    forall k | k in slots :: Owned(schedules, k, slots[k])
  }

  ghost predicate ClaimedHaveRows(schedules: seq<Schedule>, slots: SlotTable) {
    forall k | NewestClaiming(schedules, k).Some? :: k in slots
  }

  ghost predicate OwnersOk(c: Calendar) {
    PendingIsLast(c.schedules) && RowsOwned(c.schedules, c.slots) && ClaimedHaveRows(c.schedules, c.slots)
  }

  // ----- Steps -------------------------------------------------------------------------------

  /** The same approvals of the same plans, and maybe new schedules without approval. */
  predicate SameApprovals(before: seq<Schedule>, after: seq<Schedule>) {
    && |before| <= |after|
    && (forall i | 0 <= i < |before| ::
          && after[i].plan == before[i].plan && after[i].endDate == before[i].endDate
          && after[i].approvedBy == before[i].approvedBy)
    && (forall i | |before| <= i < |after| :: after[i].approvedBy.None?)
  }

  lemma SameClaim(s: Schedule, t: Schedule, k: int)
    requires s.plan == t.plan && s.endDate == t.endDate && s.approvedBy == t.approvedBy
    ensures Claims(s, k) == Claims(t, k)
  {
    hide UtcDayStart, AddUtcDays, AddUtcMonths, MidnightsIn;
  }

  lemma SameNewest(before: seq<Schedule>, after: seq<Schedule>, k: int)
    requires SameApprovals(before, after)
    ensures NewestClaiming(after, k) == NewestClaiming(before, k)
  {
    hide Horizon;
    forall i | 0 <= i < |after|
      ensures Claims(after[i], k) == (i < |before| && Claims(before[i], k))
    {
      if i < |before| {
        SameClaim(before[i], after[i], k);
      }
    }
    hide Claims;
    NewestExact(before, k);
    NewestExact(after, k);
  }

  lemma SameApprovalsKeep(before: seq<Schedule>, after: seq<Schedule>, slots: SlotTable)
    requires SameApprovals(before, after)
    requires RowsOwned(before, slots) && ClaimedHaveRows(before, slots)
    ensures RowsOwned(after, slots) && ClaimedHaveRows(after, slots)
  {
    hide SameApprovals, NewestClaiming;
    forall k
      ensures NewestClaiming(after, k) == NewestClaiming(before, k)
    {
      SameNewest(before, after, k);
    }
  }

  lemma OverridesKeepOwners(schedules: seq<Schedule>, before: SlotTable, after: SlotTable)
    requires RowsOwned(schedules, before) && ClaimedHaveRows(schedules, before) && OnlyOverrides(before, after)
    ensures RowsOwned(schedules, after) && ClaimedHaveRows(schedules, after)
  {
    hide NewestClaiming;
  }

  /** The last schedule, when it is approved, claims its whole horizon and no other day. */
  lemma ApprovalClaims(before: seq<Schedule>, after: seq<Schedule>, k: int)
    requires |after| == |before| > 0 && SameApprovals(before[..|before| - 1], after[..|before| - 1])
    requires before[|before| - 1].approvedBy.None? && after[|before| - 1].approvedBy.Some?
    ensures NewestClaiming(after, k) ==
            if k in Horizon(after[|before| - 1]) then Some(|before| - 1) else NewestClaiming(before, k)
  {
    hide Horizon, SameApprovals;
    assert !Claims(before[|before| - 1], k);
    SameNewest(before[..|before| - 1], after[..|before| - 1], k);
  }

  lemma ApprovalKeepsOwners(c: Calendar, approver: nat)
    requires Inv(c) && OwnersOk(c) && |c.schedules| > 0
    requires c.schedules[|c.schedules| - 1].status == PendingApproval
    ensures var id := |c.schedules| - 1;
            var row := c.schedules[id].(status := Active, approvedBy := Some(approver));
            OwnersOk(c.(schedules := Supersede(c.schedules, Active)[id := row], slots := Generated(c.slots, id, row)))
  {
    hide Horizon, NewestClaiming, CacheAgrees, ActiveCovered, Aligned, PlansOk, UtcDayStart;
    var id := |c.schedules| - 1;
    var row := c.schedules[id].(status := Active, approvedBy := Some(approver));
    var after := Supersede(c.schedules, Active)[id := row];
    assert ApprovalOk(c.schedules[id]);
    assert SameApprovals(c.schedules[..id], after[..id]);
    forall k
      ensures NewestClaiming(after, k) == if k in Horizon(row) then Some(id) else NewestClaiming(c.schedules, k)
    {
      ApprovalClaims(c.schedules, after, k);
    }
    forall k | k in Generated(c.slots, id, row)
      ensures Owned(after, k, Generated(c.slots, id, row)[k])
    {
      assert k in c.slots ==> Owned(c.schedules, k, c.slots[k]);
    }
  }

  lemma ScheduleAnswerKeepsOwners(c: Calendar, id: nat, responder: User, approve: bool)
    requires Inv(c) && OwnersOk(c)
    ensures OwnersOk(ScheduleAnswered(c, id, responder, approve).0)
  {
    hide Inv, RowsOwned, ClaimedHaveRows, Generated;
    if id < |c.schedules| && c.schedules[id].status == PendingApproval {
      assert id == |c.schedules| - 1;
      ApprovalKeepsOwners(c, responder.id);
      var rejected := c.schedules[id := c.schedules[id].(status := Superseded)];
      SameApprovalsKeep(c.schedules, rejected, c.slots);
    }
  }

  lemma ProposeKeepsOwners(c: Calendar, a: Action)
    requires OwnersOk(c) && a.ProposeSchedule?
    ensures OwnersOk(Proposed(c, a).0)
  {
    hide RowsOwned, ClaimedHaveRows, UtcDayStart;
    SameApprovalsKeep(c.schedules, Proposed(c, a).0.schedules, c.slots);
  }

  lemma EditKeepsOwners(c: Calendar, user: User, k: int, h: Handover)
    requires OwnersOk(c)
    ensures OwnersOk(HandoverEdited(c, user, k, h).0)
  {
    hide NewestClaiming, LatestWith;
    if k in c.slots {
      assert Owned(c.schedules, k, c.slots[k]);
    }
  }

  lemma StepKeepsOwners(c: Calendar, a: Action)
    requires Inv(c) && OwnersOk(c)
    ensures OwnersOk(Next(c, a))
  {
    hide Inv, Proposed, ScheduleAnswered, HandoverEdited, SwapApplied, Excepted, RowsOwned, ClaimedHaveRows;
    match a
    case ProposeSchedule(_, _, _, _, _, _, _, _) =>
      ProposeKeepsOwners(c, a);
    case RespondToSchedule(id, responder, approve) =>
      ScheduleAnswerKeepsOwners(c, id, responder, approve);
    case CreateException(_, _, _, _) =>
    case RespondToException(id, responder, approve) =>
      if id < |c.exceptions| {
        var row := c.exceptions[id].(status := ExceptionAccepted);
        ExceptedOverrides(c.slots, id, row);
        OverridesKeepOwners(c.schedules, c.slots, Excepted(c.slots, id, row));
      }
    case CreateSwap(_, _, _) =>
    case RespondToSwap(id, responder, answer) =>
      if id < |c.swaps| {
        var row := c.swaps[id];
        SwapOverrides(c, row.originalDate, row.proposedDate);
        OverridesKeepOwners(c.schedules, c.slots, SwapApplied(c, row.originalDate, row.proposedDate));
      }
    case EditHandover(user, k, h) =>
      EditKeepsOwners(c, user, k, h);
  }

  // ----- Whole runs --------------------------------------------------------------------------

  lemma {:induction false} RunKeepsOwners(c: Calendar, actions: seq<Action>)
    requires Inv(c) && OwnersOk(c)
    ensures Inv(Run(c, actions)) && OwnersOk(Run(c, actions))
    decreases |actions|
  {
    hide Inv, OwnersOk, Step;
    if actions != [] {
      StepKeepsInv(c, actions[0]);
      StepKeepsOwners(c, actions[0]);
      RunKeepsOwners(Next(c, actions[0]), actions[1..]);
    }
  }

  /**
    In every reachable calendar, a day without an agreed override has the row of the newest approved
    schedule whose horizon holds it, superseded or not, and no row when there is none.
   */
  lemma TableFollowsNewest(actions: seq<Action>, k: int)
    ensures var c := Run(EMPTY, actions);
            !Overridden(c.slots, k) ==>
              var newest := NewestClaiming(c.schedules, k);
              if newest.None? then k !in c.slots
              else k in c.slots && FIRST_INSTANT <= k
                   && c.slots[k] == ScheduleSlot(newest.value, c.schedules[newest.value], k)
  {
    hide NewestClaiming, Horizon, Run;
    EmptyInv();
    EmptyOwners();
    RunKeepsOwners(EMPTY, actions);
    var c := Run(EMPTY, actions);
    if k in c.slots {
      assert Owned(c.schedules, k, c.slots[k]);
      assert RowAgrees(c.schedules, k, c.slots[k]);
    }
  }

  lemma EmptyOwners()
    ensures OwnersOk(EMPTY)
  {
    hide Horizon;
  }
}
