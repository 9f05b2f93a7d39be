/** How many days each parent has: swaps conserve them, and preset schedules share them evenly. */
module CustodyDays {
  import opened DateUtils
  import opened Pattern
  import opened Custody
  import opened CustodyRuns

  function DatesOf(slots: SlotTable, parent: Custodian): set<int> {
    set k | k in slots && slots[k].custodian == parent
  }

  /** Both days of the swap have a row: the table that the exchange works on. */
  function BothEnsured(c: Calendar, originalDate: Instant, proposedDate: Instant): SlotTable {
    Ensured(c.(slots := Ensured(c, originalDate)), proposedDate)
  }

  lemma ExchangeConserves(slots: SlotTable, a: int, b: int, parent: Custodian)
    requires a in slots && b in slots
    ensures |DatesOf(Exchanged(slots, a, b), parent)| == |DatesOf(slots, parent)|
  {
    var before, after := DatesOf(slots, parent), DatesOf(Exchanged(slots, a, b), parent);
    if slots[a].custodian == slots[b].custodian {
      assert after == before;
    } else if slots[a].custodian == parent {
      ExchangeMoves(slots, a, b, parent);
    } else {
      ExchangeMoves(slots, b, a, parent);
      assert Exchanged(slots, a, b) == Exchanged(slots, b, a);
    }
  }

  lemma ExchangeMoves(slots: SlotTable, a: int, b: int, parent: Custodian)
    requires a in slots && b in slots
    requires slots[a].custodian == parent != slots[b].custodian
    ensures DatesOf(Exchanged(slots, a, b), parent) == DatesOf(slots, parent) - {a} + {b}
    ensures |DatesOf(Exchanged(slots, a, b), parent)| == |DatesOf(slots, parent)|
  {
    var before, after := DatesOf(slots, parent), DatesOf(Exchanged(slots, a, b), parent);
    forall k
      ensures k in after <==> k in before - {a} + {b}
    {
    }
    assert a in before && b !in before;
  }

  /**
    An accepted swap either finds both days and exchanges their custodians, or changes nothing. The
    days of each parent over the table with both rows are the same before and after, and every other
    row is untouched. Swapping a day with itself moves no custodian.
   */
  lemma SwapConserves(c: Calendar, originalDate: Instant, proposedDate: Instant, parent: Custodian)
    ensures var both := BothEnsured(c, originalDate, proposedDate);
            var after := SwapApplied(c, originalDate, proposedDate);
            var a, b := UtcDayStart(originalDate), UtcDayStart(proposedDate);
            && |DatesOf(after, parent)| == |DatesOf(both, parent)|
            && after.Keys == both.Keys
            && (forall k | k in c.slots && k != a && k != b :: after[k] == c.slots[k])
            && (if a in both && b in both
                then after[a].custodian == both[b].custodian && after[b].custodian == both[a].custodian
                     && after[a].source == FromSwap && after[b].source == FromSwap
                else after == c.slots)
  {
    hide UtcDayStart, GetCustodianForDate, DatesOf, LatestWith, ScheduleSlot;
    var both := BothEnsured(c, originalDate, proposedDate);
    var a, b := UtcDayStart(originalDate), UtcDayStart(proposedDate);
    if a in both && b in both {
      ExchangeConserves(both, a, b, parent);
    }
  }

  /** Accepting the same swap a second time gives every day back its custodian. */
  lemma SwapTwiceRestores(c: Calendar, originalDate: Instant, proposedDate: Instant)
    ensures var both := BothEnsured(c, originalDate, proposedDate);
            var once := SwapApplied(c, originalDate, proposedDate);
            var twice := SwapApplied(c.(slots := once), originalDate, proposedDate);
            twice.Keys == both.Keys && forall k | k in both :: twice[k].custodian == both[k].custodian
  {
    hide UtcDayStart, GetCustodianForDate, LatestWith, ScheduleSlot;
  }

  /** How many of the n days from day number d the table gives to the parent. */
  function RowsWith(slots: SlotTable, parent: Custodian, d: int, n: nat): nat
    decreases n
  {
    if n == 0 then 0
    else (if Midnight(d) in slots && slots[Midnight(d)].custodian == parent then 1 else 0)
         + RowsWith(slots, parent, d + 1, n - 1)
  }

  predicate PlainDay(c: Calendar, i: nat, d: int)
    requires i < |c.schedules|
  {
    Midnight(d) in Horizon(c.schedules[i]) && !Overridden(c.slots, Midnight(d))
  }

  lemma {:induction false} PlainRowsFollowPlan(c: Calendar, i: nat, parent: Custodian, d: int, n: nat)
    requires Inv(c) && i < |c.schedules| && c.schedules[i].status == Active
    requires forall e | d <= e < d + n :: PlainDay(c, i, e)
    ensures RowsWith(c.slots, parent, d, n) == DaysWith(c.schedules[i].plan, parent, d, n)
    decreases n
  {
    hide Horizon, GetCustodianForDate, CustodianOnDay, ProtocolOk, PlansOk, Aligned;
    if n > 0 {
      var k := Midnight(d);
      assert PlainDay(c, i, d);
      HorizonIsAligned(c.schedules[i], k);
      assert Covers(c.slots, i, c.schedules[i]);
      assert RowAgrees(c.schedules, k, c.slots[k]);
      CustodianMeetsRule(c.schedules[i].plan, k);
      PlainRowsFollowPlan(c, i, parent, d + 1, n - 1);
    }
  }

  /**
    In every reachable calendar with an active preset schedule, over any run of days of its horizon
    without an agreed override, the rows of the two parents differ by at most seven days, and are equal
    in number over whole fortnights.
   */
  lemma CalendarIsFair(actions: seq<Action>, i: nat, d: int, n: nat)
    requires i < |Run(EMPTY, actions).schedules|
    requires Run(EMPTY, actions).schedules[i].status == Active
    requires Run(EMPTY, actions).schedules[i].plan.patternType != CustomWeek
    requires forall e | d <= e < d + n :: PlainDay(Run(EMPTY, actions), i, e)
    ensures var slots := Run(EMPTY, actions).slots;
            var a, b := RowsWith(slots, ParentA, d, n), RowsWith(slots, ParentB, d, n);
            -7 <= a - b <= 7 && a + b == n && (n % 14 == 0 ==> a == b)
  {
    hide Run, PlainDay, RowsWith, DaysWith, ProtocolOk, CacheAgrees, ActiveCovered, Aligned, IsPreset;
    var c := Run(EMPTY, actions);
    EmptyInv();
    RunKeepsInv(EMPTY, actions);
    assert PlanOk(c.schedules[i].plan);
    PlainRowsFollowPlan(c, i, ParentA, d, n);
    PlainRowsFollowPlan(c, i, ParentB, d, n);
    BalanceIsLead(c.schedules[i].plan, d, n);
    PresetsAreFair(c.schedules[i].plan, d, n);
  }
}
