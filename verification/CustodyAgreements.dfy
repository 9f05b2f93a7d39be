/**
  The overridden days of the calendar as the outcome of what the parents agreed on: approved
  exceptions and accepted swaps, in the order in which they were made.
 */
module CustodyAgreements {
  import opened JsDate
  import opened DateUtils
  import opened Options
  import opened Pattern
  import opened Custody
  import opened CustodyRuns
  import opened CustodyDays

  /** Days given to one parent, or two days exchanged that showed these custodians. */
  datatype Agreement =
    | Given(days: set<int>, custodian: Custodian)
    | Swapped(first: int, second: int, shownFirst: Custodian, shownSecond: Custodian)

  function Next(c: Calendar, a: Action): Calendar {
    Step(c, a).0
  }

  /** The custodians of the overridden days. */
  function Overrides(slots: SlotTable): map<int, Custodian> {
    map k: int | k in slots && IsOverride(slots[k]) :: slots[k].custodian
  }

  /** The agreement that an action makes, if it makes one. */
  function Made(c: Calendar, a: Action): Option<Agreement> {
    if Step(c, a).1 != Done then None
    else
      match a
      case RespondToException(id, _, true) =>
        Some(Given(ExceptionDays(c.exceptions[id]), c.exceptions[id].custodian))
      case RespondToSwap(id, _, SwapAccepted) =>
        var both := BothEnsured(c, c.swaps[id].originalDate, c.swaps[id].proposedDate);
        var first, second := UtcDayStart(c.swaps[id].originalDate), UtcDayStart(c.swaps[id].proposedDate);
        if first in both && second in both
        then Some(Swapped(first, second, both[first].custodian, both[second].custodian))
        else None
      case _ => None
  }

  function Log(c: Calendar, actions: seq<Action>): seq<Agreement>
    decreases |actions|
  {
    if actions == [] then []
    else
      var made := Made(c, actions[0]);
      (if made.Some? then [made.value] else []) + Log(Next(c, actions[0]), actions[1..])
  }

  /** The custodian a day has in the ledger, or the one it showed when it is not there. */
  function InLedger(ledger: map<int, Custodian>, k: int, shown: Custodian): Custodian {
    if k in ledger then ledger[k] else shown
  }

  function Applied(ledger: map<int, Custodian>, g: Agreement): map<int, Custodian> {
    match g
    case Given(days, custodian) =>
      map k: int | k in ledger.Keys + days :: if k in days then custodian else ledger[k]
    case Swapped(first, second, shownFirst, shownSecond) =>
      ledger[first := InLedger(ledger, second, shownSecond)][second := InLedger(ledger, first, shownFirst)]
  }

  function Replay(ledger: map<int, Custodian>, log: seq<Agreement>): map<int, Custodian>
    decreases |log|
  {
    if log == [] then ledger else Replay(Applied(ledger, log[0]), log[1..])
  }

  predicate Touches(g: Agreement, k: int) {
    match g
    case Given(days, _) => k in days
    case Swapped(first, second, _, _) => k == first || k == second
  }

  // ----- One step ----------------------------------------------------------------------------

  lemma ExceptionIsLogged(slots: SlotTable, id: nat, e: CustodyException)
    ensures Overrides(Excepted(slots, id, e)) == Applied(Overrides(slots), Given(ExceptionDays(e), e.custodian))
  {
    hide ExceptionDays;
    var after := Overrides(Excepted(slots, id, e));
    var logged := Applied(Overrides(slots), Given(ExceptionDays(e), e.custodian));
    forall k
      ensures k in after <==> k in logged
      ensures k in after ==> after[k] == logged[k]
    {
    }
  }

  lemma SwapIsLogged(c: Calendar, originalDate: Instant, proposedDate: Instant)
    ensures var both, after := BothEnsured(c, originalDate, proposedDate), SwapApplied(c, originalDate, proposedDate);
            var first, second := UtcDayStart(originalDate), UtcDayStart(proposedDate);
            if first in both && second in both
            then Overrides(after) == Applied(Overrides(c.slots),
                                             Swapped(first, second, both[first].custodian, both[second].custodian))
            else after == c.slots
  {
    hide UtcDayStart, GetCustodianForDate, LatestWith;
  }

  lemma GenerationIsNotLogged(slots: SlotTable, id: nat, s: Schedule)
    ensures Overrides(Generated(slots, id, s)) == Overrides(slots)
  {
    hide Horizon, GetCustodianForDate, UtcDayStart;
  }

  lemma ScheduleStepIsNotLogged(c: Calendar, a: Action)
    requires !a.RespondToException? && !a.RespondToSwap?
    ensures Overrides(Next(c, a).slots) == Overrides(c.slots)
  {
    hide UtcDayStart, ResolveWeekPattern, LatestWith, Generated, Supersede, Overrides, ActiveOrPending;
    match a
    case RespondToSchedule(id, responder, _) =>
      if id < |c.schedules| {
        GenerationIsNotLogged(c.slots, id, c.schedules[id].(status := Active, approvedBy := Some(responder.id)));
      }
    case EditHandover(_, k, h) =>
      EditIsNotLogged(c.slots, k, h);
    case _ =>
  }

  lemma EditIsNotLogged(slots: SlotTable, k: int, h: Handover)
    ensures k in slots ==> Overrides(slots[k := slots[k].(handover := h)]) == Overrides(slots)
  {
  }

  lemma StepFollowsAgreement(c: Calendar, a: Action)
    ensures var made := Made(c, a);
            Overrides(Next(c, a).slots)
            == if made.Some? then Applied(Overrides(c.slots), made.value) else Overrides(c.slots)
  {
    hide UtcDayStart, Excepted, SwapApplied, BothEnsured, Overrides, Applied, LatestWith, ExceptionDays;
    hide Proposed, ScheduleAnswered, ExceptionCreated, HandoverEdited;
    match a
    case RespondToException(id, _, _) =>
      if id < |c.exceptions| {
        var row := c.exceptions[id].(status := ExceptionAccepted);
        ExceptionIsLogged(c.slots, id, row);
        SameDays(c.exceptions[id], row);
      }
    case RespondToSwap(id, _, _) =>
      if id < |c.swaps| {
        SwapIsLogged(c, c.swaps[id].originalDate, c.swaps[id].proposedDate);
      }
    case _ =>
      ScheduleStepIsNotLogged(c, a);
  }

  lemma SameDays(e: CustodyException, f: CustodyException)
    requires e.fromDate == f.fromDate && e.toDate == f.toDate
    ensures ExceptionDays(e) == ExceptionDays(f)
  {
  }

  // ----- Whole runs --------------------------------------------------------------------------

  /**
    After any run the overridden days, and the custodian of each, are those that the agreements of
    the run leave behind when they are replayed in order on the overridden days at its start.
   */
  lemma {:induction false} OverridesFollowAgreements(c: Calendar, actions: seq<Action>)
    ensures Overrides(Run(c, actions).slots) == Replay(Overrides(c.slots), Log(c, actions))
    decreases |actions|
  {
    hide Step, Overrides, Made, Applied;
    if actions != [] {
      var next := Next(c, actions[0]);
      StepFollowsAgreement(c, actions[0]);
      OverridesFollowAgreements(next, actions[1..]);
      var made, rest := Made(c, actions[0]), Log(next, actions[1..]);
      if made.Some? {
        assert Log(c, actions) == [made.value] + rest;
        assert Log(c, actions)[1..] == rest;
      } else {
        assert Log(c, actions) == rest;
      }
    }
  }

  /**
    The step by which another parent gives the day away: approval of a pending exception over it, whose
    custodian it then shows, or acceptance of a swap of it, after which it shows the custodian of the
    other day.
   */
  predicate MovesByAgreement(c: Calendar, a: Action, k: int, custodian: Custodian) {
    || (&& a.RespondToException? && a.approve && a.exceptionId < |c.exceptions|
        && c.exceptions[a.exceptionId].status == ExceptionPending
        && a.responder.IsParent() && a.responder.id != c.exceptions[a.exceptionId].requester
        && Day(c.exceptions[a.exceptionId].fromDate) <= Day(k) <= Day(c.exceptions[a.exceptionId].toDate)
        && custodian == c.exceptions[a.exceptionId].custodian)
    || (&& a.RespondToSwap? && a.answer == SwapAccepted && a.swapId < |c.swaps|
        && a.responder.IsParent() && a.responder.id != c.swaps[a.swapId].requester
        && var row := c.swaps[a.swapId];
           var both := BothEnsured(c, row.originalDate, row.proposedDate);
           || (Day(k) == Day(row.originalDate) && ShownOn(both, UtcDayStart(row.proposedDate), custodian))
           || (Day(k) == Day(row.proposedDate) && ShownOn(both, UtcDayStart(row.originalDate), custodian)))
  }

  predicate ShownOn(slots: SlotTable, k: int, custodian: Custodian) {
    k in slots && slots[k].custodian == custodian
  }

  lemma StepMovesByAgreement(c: Calendar, a: Action, k: int)
    requires k in Overrides(c.slots) && k in Overrides(Next(c, a).slots)
    requires Overrides(Next(c, a).slots)[k] != Overrides(c.slots)[k]
    ensures MovesByAgreement(c, a, k, Overrides(Next(c, a).slots)[k])
  {
    hide UtcDayStart, BothEnsured, Overrides, SwapApplied, Excepted, ExceptionDays;
    StepFollowsAgreement(c, a);
    assert Made(c, a).Some?;
    assert Touches(Made(c, a).value, k);
    if a.RespondToException? {
      ExceptionDaysExact(c.exceptions[a.exceptionId], k);
    } else {
      var row := c.swaps[a.swapId];
      UtcDayStartIsFloor(row.originalDate);
      UtcDayStartIsFloor(row.proposedDate);
      SwapShowsTheOther(c, row.originalDate, row.proposedDate, k);
    }
  }

  lemma SwapShowsTheOther(c: Calendar, originalDate: Instant, proposedDate: Instant, k: int)
    requires var both := BothEnsured(c, originalDate, proposedDate);
             UtcDayStart(originalDate) in both && UtcDayStart(proposedDate) in both
    requires k in Overrides(SwapApplied(c, originalDate, proposedDate))
    ensures var both, after := BothEnsured(c, originalDate, proposedDate), SwapApplied(c, originalDate, proposedDate);
            && (k == UtcDayStart(originalDate) ==> Overrides(after)[k] == both[UtcDayStart(proposedDate)].custodian)
            && (k == UtcDayStart(proposedDate) ==> Overrides(after)[k] == both[UtcDayStart(originalDate)].custodian)
  {
    hide UtcDayStart, GetCustodianForDate, LatestWith, ScheduleSlot;
  }

  /** The last agreement over the day, after which it keeps the custodian to the end of the run. */
  predicate DecidedAt(c: Calendar, actions: seq<Action>, i: int, k: int, custodian: Custodian) {
    0 <= i < |actions| && MovesByAgreement(Run(c, actions[..i]), actions[i], k, custodian)
  }

  /**
    An overridden day stays overridden, and when it shows another custodian after a run than before,
    then some step of the run was an agreement of the other parent that gave it that custodian.
   */
  lemma {:induction false} OverrideMovesByAgreement(c: Calendar, actions: seq<Action>, k: int)
    requires Overridden(c.slots, k)
    ensures var after := Run(c, actions).slots;
            && Overridden(after, k)
            && (after[k].custodian != c.slots[k].custodian ==>
                  exists i :: DecidedAt(c, actions, i, k, after[k].custodian))
    decreases |actions|
  {
    hide Step, MovesByAgreement;
    if actions != [] {
      var next, rest := Next(c, actions[0]), actions[1..];
      StepKeepsOverrides(c, actions[0]);
      OverrideMovesByAgreement(next, rest, k);
      var custodian := Run(c, actions).slots[k].custodian;
      if next.slots[k].custodian != custodian {
        var i :| DecidedAt(next, rest, i, k, custodian);
        assert actions[..i + 1][1..] == rest[..i];
        assert DecidedAt(c, actions, i + 1, k, custodian);
      } else if c.slots[k].custodian != custodian {
        StepMovesByAgreement(c, actions[0], k);
        assert DecidedAt(c, actions, 0, k, custodian);
      }
    }
  }

  // ----- Two days that only swap with each other ---------------------------------------------

  /** The agreement touches neither day, or exchanges the two with each other. */
  predicate OnlyBetween(g: Agreement, a: int, b: int) {
    (Touches(g, a) || Touches(g, b)) ==> IsExchange(g, a, b)
  }

  predicate IsExchange(g: Agreement, a: int, b: int) {
    g.Swapped? && ((g.first == a && g.second == b) || (g.first == b && g.second == a))
  }

  function Exchanges(log: seq<Agreement>, a: int, b: int): nat {
    if log == [] then 0 else (if IsExchange(log[0], a, b) then 1 else 0) + Exchanges(log[1..], a, b)
  }

  lemma {:induction false} ReplayParity(ledger: map<int, Custodian>, log: seq<Agreement>, a: int, b: int)
    requires a in ledger && b in ledger
    requires forall i | 0 <= i < |log| :: OnlyBetween(log[i], a, b)
    ensures var after := Replay(ledger, log);
            a in after && b in after
            && (if Exchanges(log, a, b) % 2 == 0 then after[a] == ledger[a] && after[b] == ledger[b]
                else after[a] == ledger[b] && after[b] == ledger[a])
    decreases |log|
  {
    if log != [] {
      assert OnlyBetween(log[0], a, b);
      ReplayParity(Applied(ledger, log[0]), log[1..], a, b);
    }
  }

  /**
    Two overridden days that no other agreement touches show each other's custodians after a run if the
    swaps between them were accepted an odd number of times, and their own again if an even number.
   */
  lemma ExchangedIfOdd(c: Calendar, actions: seq<Action>, a: int, b: int)
    requires Overridden(c.slots, a) && Overridden(c.slots, b)
    requires forall i | 0 <= i < |Log(c, actions)| :: OnlyBetween(Log(c, actions)[i], a, b)
    ensures var after := Run(c, actions).slots;
            && a in after && b in after
            && (if Exchanges(Log(c, actions), a, b) % 2 == 0
                then after[a].custodian == c.slots[a].custodian && after[b].custodian == c.slots[b].custodian
                else after[a].custodian == c.slots[b].custodian && after[b].custodian == c.slots[a].custodian)
  {
    hide Run, Log, Replay, Exchanges, OnlyBetween;
    OverridesFollowAgreements(c, actions);
    ReplayParity(Overrides(c.slots), Log(c, actions), a, b);
    var after := Run(c, actions).slots;
    assert a in Overrides(after) && b in Overrides(after);
  }
}
