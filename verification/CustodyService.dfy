/**
  The service actions on the rows of one workspace, statement by statement, each proved to change the
  rows exactly as Custody.Step says.
 */
module CustodyService {
  import opened JsDate
  import opened DateUtils
  import opened Options
  import opened Pattern
  import opened Custody
  import opened CustodyRuns

  type Row = (int, Slot)

  /** The days of [start, end) that are not protected. */
  function OpenDays(protectedDays: set<int>, start: int, end: int): set<int> {
    MidnightsIn(start, end) - protectedDays
  }

  /** One row for each of the days, made from the schedule. */
  ghost predicate AreRowsOf(rows: seq<Row>, id: nat, s: Schedule, days: set<int>) {
    && (forall k | k in days :: FIRST_INSTANT <= k)
    && (forall r | r in rows :: r.0 in days && r.1 == ScheduleSlot(id, s, r.0))
    && (forall k | k in days :: (k, ScheduleSlot(id, s, k)) in rows)
    && |rows| == |days|
  }

  lemma NextMidnight(a: int, b: int)
    requires IsMidnight(a) && IsMidnight(b) && a < b
    ensures IsMidnight(a + Days(1)) && a + Days(1) <= b
  {
  }

  lemma MidnightAfter(t: int)
    requires IsMidnight(t)
    ensures IsMidnight(t + Days(1))
  {
  }

  lemma OneMoreMidnight(start: int, cursor: int)
    requires IsMidnight(cursor) && start <= cursor
    ensures MidnightsIn(start, cursor + Days(1)) == MidnightsIn(start, cursor) + {cursor}
    ensures cursor !in MidnightsIn(start, cursor)
  {
  }

  /** The loop that builds the rows of the unprotected days. */
  method CollectRows(id: nat, s: Schedule, start: Instant, end: int, protectedDays: set<int>) returns (rows: seq<Row>)
    requires IsMidnight(start) && IsMidnight(end)
    ensures AreRowsOf(rows, id, s, OpenDays(protectedDays, start, end))
  {
    hide AddUtcDays, ScheduleSlot, TimeWithinDay, MidnightsIn, AreRowsOf;
    rows := [];
    var cursor: int := start;
    EmptyRange(start, start);
    NoRows(id, s);
    assert OpenDays(protectedDays, start, start) == {};
    while cursor < end
      invariant start <= cursor && IsMidnight(cursor) && (cursor <= end || cursor == start)
      invariant AreRowsOf(rows, id, s, OpenDays(protectedDays, start, cursor))
      decreases end - cursor
    {
      OneMoreMidnight(start, cursor);
      NextMidnight(cursor, end);
      AddUtcDaysExact(cursor, 1);
      ghost var before := OpenDays(protectedDays, start, cursor);
      ghost var after := OpenDays(protectedDays, start, cursor + Days(1));
      if cursor !in protectedDays {
        assert after == before + {cursor};
        AppendRow(rows, id, s, before, cursor);
        rows := rows + [(cursor, ScheduleSlot(id, s, cursor))];
      } else {
        assert after == before;
      }
      cursor := AddUtcDays(cursor, 1);
    }
    if end < start {
      EmptyRange(start, end);
      assert OpenDays(protectedDays, start, end) == OpenDays(protectedDays, start, start);
    }
  }

  lemma NoRows(id: nat, s: Schedule)
    ensures AreRowsOf([], id, s, {})
  {
  }

  lemma AppendRow(rows: seq<Row>, id: nat, s: Schedule, days: set<int>, k: Instant)
    requires AreRowsOf(rows, id, s, days) && k !in days
    ensures AreRowsOf(rows + [(k, ScheduleSlot(id, s, k))], id, s, days + {k})
  {
    hide ScheduleSlot;
    var longer := rows + [(k, ScheduleSlot(id, s, k))];
    forall j | j in days + {k}
      ensures FIRST_INSTANT <= j && (j, ScheduleSlot(id, s, j)) in longer
    {
    }
  }

  lemma EmptyRange(start: int, end: int)
    requires end <= start
    ensures MidnightsIn(start, end) == {}
  {
  }

  /** On aligned rows the dates collected as protected are the overridden dates of the range. */
  lemma ProtectedDaysExact(slots: SlotTable, start: int, end: int)
    requires Aligned(slots)
    ensures (set k | k in slots && start <= k < end && IsOverride(slots[k]) :: UtcDayStart(k))
            == set k | k in slots && start <= k < end && IsOverride(slots[k])
  {
    hide UtcDayStart, TimeWithinDay;
    forall k | k in slots
      ensures UtcDayStart(k) == k
    {
      UtcDayStartIsFloor(k);
    }
  }

  /** What the delete and the upserts do to the table, as one value. */
  function Written(slots: SlotTable, id: nat, s: Schedule, days: set<int>): SlotTable
    requires forall k | k in days :: FIRST_INSTANT <= k
  {
    map k: int | k in slots.Keys + days :: if k in days then ScheduleSlot(id, s, k) else slots[k]
  }

  lemma NothingWritten(slots: SlotTable, id: nat, s: Schedule)
    ensures Written(slots, id, s, {}) == slots
  {
    var w := Written(slots, id, s, {});
    forall k
      ensures k in w <==> k in slots
    {
    }
  }

  lemma WriteOne(slots: SlotTable, id: nat, s: Schedule, days: set<int>, k: Instant)
    requires forall j | j in days :: FIRST_INSTANT <= j
    ensures Written(slots, id, s, days + {k}) == Written(slots, id, s, days)[k := ScheduleSlot(id, s, k)]
  {
    hide ScheduleSlot;
  }

  lemma ScheduleSlotColumns(id: nat, s: Schedule, k: Instant)
    ensures var row := ScheduleSlot(id, s, k);
            row.source == FromSchedule && row.scheduleId == Some(id) && row.exceptionId == None
  {
    hide GetCustodianForDate;
  }

  class CustodyCalendar {
    var schedules: seq<Schedule>
    var exceptions: seq<CustodyException>
    var swaps: seq<SwapRequest>
    var slots: SlotTable

    ghost function State(): Calendar
      reads this
    {
      Calendar(schedules, exceptions, swaps, slots)
    }

    constructor ()
      ensures State() == EMPTY
    {
      schedules, exceptions, swaps, slots := [], [], [], map[];
    }

    method UpsertRows(rows: seq<Row>, id: nat, s: Schedule, ghost days: set<int>)
      requires AreRowsOf(rows, id, s, days)
      modifies this`slots
      ensures slots == Written(old(slots), id, s, days)
    {
      hide ScheduleSlot, Written;
      ghost var done: set<int> := {};
      NothingWritten(slots, id, s);
      for i := 0 to |rows|
        invariant done <= days && forall j | 0 <= j < i :: rows[j].0 in done
        invariant slots == Written(old(slots), id, s, done)
      {
        var (date, row) := rows[i];
        assert rows[i] in rows;
        WriteOne(old(slots), id, s, done, date);
        done := done + {date};
        if date in slots {
          slots := slots[date := slots[date].(custodian := row.custodian, handover := row.handover,
                                              source := FromSchedule, scheduleId := Some(id), exceptionId := None)];
        } else {
          slots := slots[date := row];
        }
        assert row.source == FromSchedule && row.scheduleId == Some(id) && row.exceptionId == None by {
          ScheduleSlotColumns(id, s, date);
        }
      }
      assert done == days by {
        forall k | k in days
          ensures k in done
        {
          var j :| 0 <= j < |rows| && rows[j] == (k, ScheduleSlot(id, s, k));
        }
      }
    }

    /** Fills the horizon of the schedule with its rows and returns how many days it wrote. */
    method GenerateSlotsFromSchedule(id: nat, s: Schedule) returns (written: nat)
      requires Aligned(slots)
      modifies this`slots
      ensures slots == Generated(old(slots), id, s)
      ensures written == |set k | k in Horizon(s) && !Overridden(old(slots), k)|
    {
      hide UtcDayStart, AddUtcDays, GetCustodianForDate, HorizonEnd, TimeWithinDay, MidnightsIn;
      ghost var was := slots;
      UtcDayStartIsFloor(s.plan.startDate);
      HorizonEndExact(s);
      var start, end := UtcDayStart(s.plan.startDate), HorizonEnd(s);
      ProtectedDaysExact(was, start, end);
      var protectedDays := set k | k in slots && start <= k < end && IsOverride(slots[k]) :: UtcDayStart(k);
      slots := map k | k in slots
                       && !(slots[k].scheduleId == Some(id) && slots[k].source == FromSchedule && start <= k < end)
                  :: slots[k];
      var rows := CollectRows(id, s, start, end, protectedDays);
      UpsertRows(rows, id, s, OpenDays(protectedDays, start, end));
      written := |rows|;
      WritingGenerates(was, id, s);
    }

    /** The bulk update that supersedes all schedules of one status. */
    method SupersedeAll(status: ScheduleStatus)
      modifies this`schedules
      ensures schedules == Supersede(old(schedules), status)
    {
      for i := 0 to |schedules|
        invariant |schedules| == |old(schedules)|
        invariant forall j | 0 <= j < i :: schedules[j] == Supersede(old(schedules), status)[j]
        invariant forall j | i <= j < |schedules| :: schedules[j] == old(schedules)[j]
      {
        if schedules[i].status == status {
          schedules := schedules[i := schedules[i].(status := Superseded)];
        }
      }
    }

    method ProposeCustodySchedule(proposer: User, patternType: PatternType,
                                  startDate: Instant, endDate: Option<Instant>,
                                  weekA: Option<WeekPayload>, weekB: Option<WeekPayload>, weekInterval: Option<int>,
                                  handover: Handover)
      returns (outcome: Outcome)
      modifies this`schedules
      ensures (State(), outcome) ==
              Step(old(State()), ProposeSchedule(proposer, patternType, startDate, endDate,
                                                 weekA, weekB, weekInterval, handover))
    {
      hide UtcDayStart, ResolveWeekPattern, Supersede;
      if !proposer.IsParent() {
        return Refused("schedule_not_allowed");
      }
      var weeks := ResolveWeekPattern(patternType, weekA, weekB, weekInterval);
      UtcDayStartIsFloor(startDate);
      var normalizedStart: Instant := UtcDayStart(startDate);
      var normalizedEnd: Option<Instant> := None;
      if endDate.Some? {
        UtcDayStartIsFloor(endDate.value);
        normalizedEnd := Some(UtcDayStart(endDate.value));
      }
      if normalizedEnd.Some? && normalizedEnd.value < normalizedStart {
        return Refused("invalid_date_range");
      }
      SupersedeAll(PendingApproval);
      schedules := schedules + [Schedule(Plan(patternType, normalizedStart, weeks), normalizedEnd, handover,
                                         PendingApproval, proposer.id, None)];
      return Done;
    }

    method RespondToCustodySchedule(scheduleId: nat, responder: User, approve: bool) returns (outcome: Outcome)
      requires Aligned(slots)
      modifies this`schedules, this`slots
      ensures (State(), outcome) == Step(old(State()), RespondToSchedule(scheduleId, responder, approve))
    {
      hide Generated, Supersede;
      if scheduleId >= |schedules| {
        return NotFound;
      }
      var schedule := schedules[scheduleId];
      if schedule.status != PendingApproval {
        return Refused("schedule_not_pending");
      }
      if responder.id == schedule.proposedBy {
        return Refused("schedule_not_allowed");
      }
      if !responder.IsParent() {
        return Refused("schedule_not_allowed");
      }
      if !approve {
        schedules := schedules[scheduleId := schedule.(status := Superseded)];
        return Done;
      }
      SupersedeAll(Active);
      schedules := schedules[scheduleId := schedule.(status := Active, approvedBy := Some(responder.id))];
      var written := GenerateSlotsFromSchedule(scheduleId, schedules[scheduleId]);
      return Done;
    }

    /** Upserts the days of an approved exception one by one. */
    method ApplyAcceptedException(id: nat, e: CustodyException)
      modifies this`slots
      ensures slots == Excepted(old(slots), id, e)
    {
      hide UtcDayStart, AddUtcDays, TimeWithinDay, MidnightsIn, ExceptedOn;
      UtcDayStartIsFloor(e.fromDate);
      UtcDayStartIsFloor(e.toDate);
      var start, end := UtcDayStart(e.fromDate), UtcDayStart(e.toDate);
      var cursor := start;
      EmptyRange(start, start);
      ExceptedNone(slots, id, e);
      while cursor <= end
        invariant start <= cursor && IsMidnight(cursor) && (cursor <= end + Days(1) || cursor == start)
        invariant slots == ExceptedOn(old(slots), id, e, MidnightsIn(start, cursor))
        decreases end - cursor
      {
        MidnightAfter(end);
        NextMidnight(cursor, end + Days(1));
        OneMoreMidnight(start, cursor);
        AddUtcDaysExact(cursor, 1);
        ExceptedOne(old(slots), id, e, MidnightsIn(start, cursor), cursor);
        if cursor in slots {
          slots := slots[cursor := slots[cursor].(custodian := e.custodian, source := FromException,
                                                  exceptionId := Some(id))];
        } else {
          slots := slots[cursor := Slot(e.custodian, FromException, None, Some(id), Handover(None, None))];
        }
        cursor := AddUtcDays(cursor, 1);
      }
      NextMidnight(end, cursor);
      if end < start {
        EmptyRange(start, end + Days(1));
      }
    }

    method CreateCustodyException(requester: User, fromDate: Instant, toDate: Option<Instant>, custodian: Custodian)
      returns (outcome: Outcome)
      modifies this`exceptions
      ensures (State(), outcome) == Step(old(State()), CreateException(requester, fromDate, toDate, custodian))
    {
      hide UtcDayStart, LatestWith;
      if !requester.IsParent() {
        return Refused("exception_not_allowed");
      }
      if LatestWith(schedules, Active).None? {
        return Refused("schedule_not_active");
      }
      var last := if toDate.Some? then toDate.value else fromDate;
      UtcDayStartIsFloor(fromDate);
      UtcDayStartIsFloor(last);
      if UtcDayStart(last) < UtcDayStart(fromDate) {
        return Refused("invalid_date_range");
      }
      exceptions := exceptions + [CustodyException(UtcDayStart(fromDate), UtcDayStart(last), custodian,
                                                   ExceptionPending, requester.id)];
      return Done;
    }

    method RespondToCustodyException(exceptionId: nat, responder: User, approve: bool) returns (outcome: Outcome)
      modifies this`exceptions, this`slots
      ensures (State(), outcome) == Step(old(State()), RespondToException(exceptionId, responder, approve))
    {
      hide Excepted;
      if exceptionId >= |exceptions| {
        return NotFound;
      }
      var exc := exceptions[exceptionId];
      if exc.status != ExceptionPending {
        return Refused("exception_not_pending");
      }
      if responder.id == exc.requester || !responder.IsParent() {
        return Refused("exception_not_allowed");
      }
      exceptions := exceptions[exceptionId := exc.(status := if approve then ExceptionAccepted else ExceptionRejected)];
      if approve {
        ApplyAcceptedException(exceptionId, exceptions[exceptionId]);
      }
      return Done;
    }

    /** The interval query for a day: on aligned rows it is the lookup of the day's midnight. */
    method FindCustodySlotForDay(date: Instant) returns (found: Option<int>)
      requires Aligned(slots)
      ensures found == if UtcDayStart(date) in slots then Some(UtcDayStart(date)) else None
    {
      hide TimeWithinDay;
      UtcDayBoundsExact(date);
      UtcDayStartIsFloor(date);
      var start, end := UtcDayStart(date), UtcDayEnd(date);
      if k :| k in slots && start <= k < end {
        SameMidnight(start, k);
        return Some(k);
      }
      return None;
    }

    method EnsureCustodySlotForDay(date: Instant, schedule: Option<nat>) returns (found: Option<int>)
      requires Aligned(slots) && schedule == ActiveOrPending(schedules)
      modifies this`slots
      ensures Aligned(slots) && slots == Ensured(old(State()), date)
      ensures found == if UtcDayStart(date) in slots then Some(UtcDayStart(date)) else None
    {
      hide UtcDayStart, ScheduleSlot, LatestWith, TimeWithinDay;
      var existing := FindCustodySlotForDay(date);
      if existing.Some? {
        return existing;
      }
      if schedule.None? {
        return None;
      }
      UtcDayStartIsFloor(date);
      var day := UtcDayStart(date);
      slots := slots[day := ScheduleSlot(schedule.value, schedules[schedule.value], day)];
      return Some(day);
    }

    method ApplyAcceptedSwapToCalendar(originalDate: Instant, proposedDate: Instant)
      requires Aligned(slots)
      modifies this`slots
      ensures slots == SwapApplied(old(State()), originalDate, proposedDate)
    {
      hide UtcDayStart, ScheduleSlot, LatestWith, Aligned;
      var schedule := ActiveOrPending(schedules);
      var slotOriginal := EnsureCustodySlotForDay(originalDate, schedule);
      ghost var first := slots;
      var slotProposed := EnsureCustodySlotForDay(proposedDate, schedule);
      assert first.Keys <= slots.Keys;
      if slotOriginal.None? || slotProposed.None? {
        return;
      }
      var a, b := slotOriginal.value, slotProposed.value;
      ghost var both := slots;
      var originalCustodian, proposedCustodian := slots[a].custodian, slots[b].custodian;
      slots := slots[a := slots[a].(custodian := proposedCustodian, source := FromSwap)];
      slots := slots[b := slots[b].(custodian := originalCustodian, source := FromSwap)];
      assert slots == Exchanged(both, a, b);
    }

    method CreateSwapRequest(requester: User, originalDate: Instant, proposedDate: Instant) returns (outcome: Outcome)
      modifies this`swaps
      ensures (State(), outcome) == Step(old(State()), CreateSwap(requester, originalDate, proposedDate))
    {
      swaps := swaps + [SwapRequest(originalDate, proposedDate, SwapPending, requester.id)];
      return Done;
    }

    method RespondToSwapRequest(swapId: nat, responder: User, answer: SwapStatus) returns (outcome: Outcome)
      requires Aligned(slots)
      modifies this`swaps, this`slots
      ensures (State(), outcome) == Step(old(State()), RespondToSwap(swapId, responder, answer))
    {
      hide SwapApplied;
      if swapId >= |swaps| {
        return NotFound;
      }
      var existing := swaps[swapId];
      if responder.id == existing.requester || !responder.IsParent() {
        return Refused("swap_not_allowed");
      }
      if answer == SwapAccepted {
        ApplyAcceptedSwapToCalendar(existing.originalDate, existing.proposedDate);
      }
      swaps := swaps[swapId := existing.(status := answer)];
      return Done;
    }

    method UpdateCustodySlotHandover(user: User, slotDate: int, handover: Handover) returns (outcome: Outcome)
      modifies this`slots
      ensures (State(), outcome) == Step(old(State()), EditHandover(user, slotDate, handover))
    {
      hide LatestWith;
      if !user.IsParent() {
        return Refused("slot_not_allowed");
      }
      if exists i | 0 <= i < |schedules| :: schedules[i].status == Active || schedules[i].status == PendingApproval {
        return Refused("schedule_locked");
      }
      if slotDate !in slots {
        return NotFound;
      }
      slots := slots[slotDate := slots[slotDate].(handover := handover)];
      return Done;
    }
  }

  /** The end of the day query: the date of the next day, rebuilt from the fields of this one. */
  function UtcDayEnd(date: int): int {
    DateUtc(GetUtcFullYear(date), GetUtcMonth(date), GetUtcDate(date) + 1)
  }

  lemma UtcDayBoundsExact(date: Instant)
    ensures UtcDayEnd(date) == UtcDayStart(date) + Days(1)
  {
    hide DayFromYear, DaysBeforeMonth, GetUtcFullYear, GetUtcMonth, GetUtcDate;
    InstantYear(date);
  }

  lemma SameMidnight(a: int, b: int)
    requires IsMidnight(a) && IsMidnight(b) && a <= b < a + Days(1)
    ensures a == b
  {
  }

  lemma ExceptedNone(slots: SlotTable, id: nat, e: CustodyException)
    ensures ExceptedOn(slots, id, e, {}) == slots
  {
    var w := ExceptedOn(slots, id, e, {});
    assert w.Keys == slots.Keys;
  }

  lemma ExceptedOne(slots: SlotTable, id: nat, e: CustodyException, days: set<int>, k: int)
    requires k !in days
    ensures var now := ExceptedOn(slots, id, e, days);
            && (k in now <==> k in slots)
            && (k in now ==> now[k] == slots[k])
            && ExceptedOn(slots, id, e, days + {k}) == now[k :=
                 if k in slots
                 then slots[k].(custodian := e.custodian, source := FromException, exceptionId := Some(id))
                 else Slot(e.custodian, FromException, None, Some(id), Handover(None, None))]
  {
  }

  /** Deleting the schedule's own rows and writing the open days is the specified generation. */
  lemma WritingGenerates(was: SlotTable, id: nat, s: Schedule)
    requires Aligned(was)
    ensures var start, end := UtcDayStart(s.plan.startDate), HorizonEnd(s);
            var protectedDays := set k | k in was && start <= k < end && IsOverride(was[k]);
            var kept := map k | k in was
                       && !(was[k].scheduleId == Some(id) && was[k].source == FromSchedule && start <= k < end)
                  :: was[k];
            && (forall k | k in OpenDays(protectedDays, start, end) :: FIRST_INSTANT <= k)
            && OpenDays(protectedDays, start, end) == (set k | k in Horizon(s) && !Overridden(was, k))
            && Written(kept, id, s, OpenDays(protectedDays, start, end)) == Generated(was, id, s)
  {
    hide UtcDayStart, GetCustodianForDate, HorizonEnd, IsMidnight;
    UtcDayStartIsFloor(s.plan.startDate);
  }
}
