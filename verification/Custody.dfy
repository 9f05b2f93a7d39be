/**
  The custody calendar of one workspace as values: schedules, exceptions, swap requests and the slot
  table, and what every service action does to them. An id is the position of the row in creation
  order; a slot is identified by its date.
 */
module Custody {
  import opened JsDate
  import opened DateUtils
  import opened Options
  import opened Pattern

  datatype Role = RoleParentA | RoleParentB | RoleChild | RoleObserver

  datatype User = User(id: nat, role: Role) {
    predicate IsParent() {
      role == RoleParentA || role == RoleParentB
    }
  }

  datatype Handover = Handover(time: Option<string>, location: Option<string>)

  datatype ScheduleStatus = PendingApproval | Active | Superseded

  datatype Schedule = Schedule(plan: Plan, endDate: Option<Instant>, handover: Handover,
                               status: ScheduleStatus, proposedBy: nat, approvedBy: Option<nat>)

  datatype ExceptionStatus = ExceptionPending | ExceptionAccepted | ExceptionRejected

  datatype CustodyException = CustodyException(fromDate: Instant, toDate: Instant, custodian: Custodian,
                                               status: ExceptionStatus, requester: nat)

  datatype SwapStatus = SwapPending | SwapAccepted | SwapRejected | CounterProposed

  datatype SwapRequest = SwapRequest(originalDate: Instant, proposedDate: Instant,
                                     status: SwapStatus, requester: nat)

  datatype Source = FromSchedule | FromException | FromSwap | Manual

  datatype Slot = Slot(custodian: Custodian, source: Source, scheduleId: Option<nat>,
                       exceptionId: Option<nat>, handover: Handover)

  type SlotTable = map<int, Slot>

  datatype Calendar = Calendar(schedules: seq<Schedule>, exceptions: seq<CustodyException>,
                               swaps: seq<SwapRequest>, slots: SlotTable)

  datatype Action =
    | ProposeSchedule(proposer: User, patternType: PatternType, startDate: Instant, endDate: Option<Instant>,
                      weekA: Option<WeekPayload>, weekB: Option<WeekPayload>, weekInterval: Option<int>,
                      handover: Handover)
    | RespondToSchedule(scheduleId: nat, responder: User, approve: bool)
    | CreateException(requester: User, fromDate: Instant, toDate: Option<Instant>, custodian: Custodian)
    | RespondToException(exceptionId: nat, responder: User, approve: bool)
    | CreateSwap(requester: User, originalDate: Instant, proposedDate: Instant)
    | RespondToSwap(swapId: nat, responder: User, answer: SwapStatus)
    | EditHandover(user: User, slotDate: int, newHandover: Handover)

  datatype Outcome = Done | NotFound | Refused(code: string)

  /** Every row of the table is dated at a UTC midnight. */
  predicate Aligned(slots: SlotTable) {
    forall k | k in slots :: FIRST_INSTANT <= k && IsMidnight(k)
  }

  predicate IsOverride(s: Slot) {
    s.source == FromException || s.source == FromSwap
  }

  predicate Overridden(slots: SlotTable, k: int) {
    k in slots && IsOverride(slots[k])
  }

  function MidnightsIn(lo: int, hi: int): set<int> {
    set k | lo <= k < hi && IsMidnight(k)
  }

  // ----- Schedules ---------------------------------------------------------------------------

  const GENERATION_MONTHS := 12

  /** The first midnight after the days that the schedule covers. */
  function HorizonEnd(s: Schedule): int {
    if s.endDate.Some? then AddUtcDays(UtcDayStart(s.endDate.value), 1)
    else AddUtcMonths(UtcDayStart(s.plan.startDate), GENERATION_MONTHS)
  }

  function Horizon(s: Schedule): set<int> {
    MidnightsIn(UtcDayStart(s.plan.startDate), HorizonEnd(s))
  }

  function ScheduleSlot(id: nat, s: Schedule, k: Instant): Slot {
    Slot(GetCustodianForDate(s.plan, k), FromSchedule, Some(id), None, s.handover)
  }

  /** The table after generation: overridden days stay, all other days of the horizon follow the schedule. */
  function Generated(slots: SlotTable, id: nat, s: Schedule): SlotTable {
    UtcDayStartIsFloor(s.plan.startDate);
    map k: int | k in slots.Keys + Horizon(s) ::
      if k in Horizon(s) && !Overridden(slots, k) then ScheduleSlot(id, s, k) else slots[k]
  }

  function Supersede(schedules: seq<Schedule>, status: ScheduleStatus): (r: seq<Schedule>)
    ensures |r| == |schedules|
  {
    seq(|schedules|, i requires 0 <= i < |schedules| =>
      if schedules[i].status == status then schedules[i].(status := Superseded) else schedules[i])
  }

  function LatestWith(schedules: seq<Schedule>, status: ScheduleStatus): (r: Option<nat>)
    ensures r.Some? ==> r.value < |schedules| && schedules[r.value].status == status
    ensures r.None? ==> forall i | 0 <= i < |schedules| :: schedules[i].status != status
    ensures r.Some? ==> forall i | r.value < i < |schedules| :: schedules[i].status != status
  {
    if |schedules| == 0 then None
    else if schedules[|schedules| - 1].status == status then Some(|schedules| - 1)
    else LatestWith(schedules[..|schedules| - 1], status)
  }

  function ActiveOrPending(schedules: seq<Schedule>): Option<nat> {
    var pending := LatestWith(schedules, PendingApproval);
    if pending.Some? then pending else LatestWith(schedules, Active)
  }

  function Proposed(c: Calendar, a: Action): (Calendar, Outcome)
    requires a.ProposeSchedule?
  {
    UtcDayStartIsFloor(a.startDate);
    var start := UtcDayStart(a.startDate);
    var end :=
      if a.endDate.None? then None
      else (UtcDayStartIsFloor(a.endDate.value); Some(UtcDayStart(a.endDate.value)));
    if !a.proposer.IsParent() then (c, Refused("schedule_not_allowed"))
    else if end.Some? && end.value < start then (c, Refused("invalid_date_range"))
    else
      var weeks := ResolveWeekPattern(a.patternType, a.weekA, a.weekB, a.weekInterval);
      var row := Schedule(Plan(a.patternType, start, weeks), end, a.handover, PendingApproval, a.proposer.id, None);
      (c.(schedules := Supersede(c.schedules, PendingApproval) + [row]), Done)
  }

  function ScheduleAnswered(c: Calendar, id: nat, responder: User, approve: bool): (Calendar, Outcome) {
    if id >= |c.schedules| then (c, NotFound)
    else if c.schedules[id].status != PendingApproval then (c, Refused("schedule_not_pending"))
    else if responder.id == c.schedules[id].proposedBy then (c, Refused("schedule_not_allowed"))
    else if !responder.IsParent() then (c, Refused("schedule_not_allowed"))
    else if !approve then (c.(schedules := c.schedules[id := c.schedules[id].(status := Superseded)]), Done)
    else
      var row := c.schedules[id].(status := Active, approvedBy := Some(responder.id));
      (c.(schedules := Supersede(c.schedules, Active)[id := row], slots := Generated(c.slots, id, row)), Done)
  }

  // ----- Exceptions --------------------------------------------------------------------------

  function ExceptionDays(e: CustodyException): set<int> {
    MidnightsIn(UtcDayStart(e.fromDate), UtcDayStart(e.toDate) + Days(1))
  }

  /** The table in which the days show the custodian of the exception, and all others stay. */
  function ExceptedOn(slots: SlotTable, id: nat, e: CustodyException, days: set<int>): SlotTable {
    map k: int | k in slots.Keys + days ::
      if k !in days then slots[k]
      else if k in slots then slots[k].(custodian := e.custodian, source := FromException, exceptionId := Some(id))
      else Slot(e.custodian, FromException, None, Some(id), Handover(None, None))
  }

  /** The table after an approved exception. */
  function Excepted(slots: SlotTable, id: nat, e: CustodyException): SlotTable {
    ExceptedOn(slots, id, e, ExceptionDays(e))
  }

  function ExceptionCreated(c: Calendar, a: Action): (Calendar, Outcome)
    requires a.CreateException?
  {
    UtcDayStartIsFloor(a.fromDate);
    var to := if a.toDate.Some? then a.toDate.value else a.fromDate;
    UtcDayStartIsFloor(to);
    if !a.requester.IsParent() then (c, Refused("exception_not_allowed"))
    else if LatestWith(c.schedules, Active).None? then (c, Refused("schedule_not_active"))
    else if UtcDayStart(to) < UtcDayStart(a.fromDate) then (c, Refused("invalid_date_range"))
    else
      var row :=
        CustodyException(UtcDayStart(a.fromDate), UtcDayStart(to), a.custodian, ExceptionPending, a.requester.id);
      (c.(exceptions := c.exceptions + [row]), Done)
  }

  function ExceptionAnswered(c: Calendar, id: nat, responder: User, approve: bool): (Calendar, Outcome) {
    if id >= |c.exceptions| then (c, NotFound)
    else if c.exceptions[id].status != ExceptionPending then (c, Refused("exception_not_pending"))
    else if responder.id == c.exceptions[id].requester then (c, Refused("exception_not_allowed"))
    else if !responder.IsParent() then (c, Refused("exception_not_allowed"))
    else
      var row := c.exceptions[id].(status := if approve then ExceptionAccepted else ExceptionRejected);
      (c.(exceptions := c.exceptions[id := row],
          slots := if approve then Excepted(c.slots, id, row) else c.slots), Done)
  }

  // ----- Swaps -------------------------------------------------------------------------------

  /** The table with a row for the day, made from the schedule in force when there was none. */
  function Ensured(c: Calendar, date: Instant): (slots: SlotTable)
    ensures ActiveOrPending(c.schedules).Some? ==> UtcDayStart(date) in slots
  {
    UtcDayStartIsFloor(date);
    var day, s := UtcDayStart(date), ActiveOrPending(c.schedules);
    if day in c.slots || s.None? then c.slots
    else c.slots[day := ScheduleSlot(s.value, c.schedules[s.value], day)]
  }

  /** Two rows with their custodians exchanged. */
  function Exchanged(slots: SlotTable, a: int, b: int): SlotTable
    requires a in slots && b in slots
  {
    map k: int | k in slots ::
      if k == a then slots[a].(custodian := slots[b].custodian, source := FromSwap)
      else if k == b then slots[b].(custodian := slots[a].custodian, source := FromSwap)
      else slots[k]
  }

  function SwapApplied(c: Calendar, originalDate: Instant, proposedDate: Instant): SlotTable {
    var both := Ensured(c.(slots := Ensured(c, originalDate)), proposedDate);
    var a, b := UtcDayStart(originalDate), UtcDayStart(proposedDate);
    if a in both && b in both then Exchanged(both, a, b) else both
  }

  function SwapAnswered(c: Calendar, id: nat, responder: User, answer: SwapStatus): (Calendar, Outcome) {
    if id >= |c.swaps| then (c, NotFound)
    else if responder.id == c.swaps[id].requester then (c, Refused("swap_not_allowed"))
    else if !responder.IsParent() then (c, Refused("swap_not_allowed"))
    else
      var row := c.swaps[id];
      (c.(swaps := c.swaps[id := row.(status := answer)],
          slots := if answer == SwapAccepted then SwapApplied(c, row.originalDate, row.proposedDate)
                   else c.slots), Done)
  }

  // ----- Handover edits and whole runs -------------------------------------------------------

  function HandoverEdited(c: Calendar, user: User, k: int, h: Handover): (Calendar, Outcome) {
    if !user.IsParent() then (c, Refused("slot_not_allowed"))
    else if ActiveOrPending(c.schedules).Some? then (c, Refused("schedule_locked"))
    else if k !in c.slots then (c, NotFound)
    else (c.(slots := c.slots[k := c.slots[k].(handover := h)]), Done)
  }

  function Step(c: Calendar, a: Action): (Calendar, Outcome) {
    match a
    case ProposeSchedule(_, _, _, _, _, _, _, _) => Proposed(c, a)
    case RespondToSchedule(id, responder, approve) => ScheduleAnswered(c, id, responder, approve)
    case CreateException(_, _, _, _) => ExceptionCreated(c, a)
    case RespondToException(id, responder, approve) => ExceptionAnswered(c, id, responder, approve)
    case CreateSwap(requester, original, proposed) =>
      (c.(swaps := c.swaps + [SwapRequest(original, proposed, SwapPending, requester.id)]), Done)
    case RespondToSwap(id, responder, answer) => SwapAnswered(c, id, responder, answer)
    case EditHandover(user, k, h) => HandoverEdited(c, user, k, h)
  }

  function Run(c: Calendar, actions: seq<Action>): Calendar
    decreases |actions|
  {
    if actions == [] then c else Run(Step(c, actions[0]).0, actions[1..])
  }

  const EMPTY := Calendar([], [], [], map[])
}
