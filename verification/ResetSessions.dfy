/**
  Which sessions survive a password reset, and how many sessions a user can have, when logins run
  beside each other and beside resets.
 */
module ResetSessions {
  import opened ResetTokens
  import opened ResetLinks

  // ----- How many sessions -------------------------------------------------------------------

  /** The user's sessions with a number below n. */
  function Earlier(s: Store, user: nat, n: nat): set<nat> {
    set i | i in s.sessions && i < n && s.sessions[i].user == user
  }

  /** The user's sessions with number n or higher. */
  function Later(s: Store, user: nat, n: nat): set<nat> {
    set i | i in s.sessions && n <= i && s.sessions[i].user == user
  }

  /** Of the sessions that a login found, at most four will be left when it has evicted its surplus. */
  ghost predicate LoginOk(s: Store, l: Login) {
    && (l.stage == Listed ==>
          l.listedAt <= s.nextSession && |Earlier(s, l.user, l.listedAt) - l.surplus| < MAX_SESSIONS_PER_USER)
    && (l.stage == Evicted ==>
          l.listedAt <= s.nextSession && |Earlier(s, l.user, l.listedAt)| < MAX_SESSIONS_PER_USER)
  }

  ghost predicate LoginsOk(s: Store) {
    && (forall i: nat | i in s.sessions :: i < s.nextSession)
    && (forall l | 0 <= l < |s.logins| :: LoginOk(s, s.logins[l]))
  }

  lemma InitialLogins(s: Store)
    requires Initial(s)
    ensures LoginsOk(s)
  {
  }

  lemma EarlierShrinks(s: Store, a: Action, user: nat, n: nat)
    requires n <= s.nextSession
    ensures Earlier(Step(s, a), user, n) <= Earlier(s, user, n) && s.nextSession <= Step(s, a).nextSession
  {
    hide SessionsOf, Surplus;
  }

  lemma LoginStaysOk(s: Store, a: Action, l: Login)
    requires LoginOk(s, l)
    ensures LoginOk(Step(s, a), l)
  {
    hide Step, Earlier;
    if l.stage == Listed || l.stage == Evicted {
      EarlierShrinks(s, a, l.user, l.listedAt);
      var before, after := Earlier(s, l.user, l.listedAt), Earlier(Step(s, a), l.user, l.listedAt);
      Sets.SubsetIsSmaller(after, before);
      Sets.SubsetIsSmaller(after - l.surplus, before - l.surplus);
    }
  }

  lemma ListedLoginIsOk(s: Store, l: nat)
    requires LoginIsAt(s, l, Checked)
    requires forall i: nat | i in s.sessions :: i < s.nextSession
    ensures LoginOk(SessionsListed(s, l), SessionsListed(s, l).logins[l])
  {
    hide Surplus;
    var user := s.logins[l].user;
    SurplusLeavesFour(SessionsOf(s, user));
    forall i: nat
      ensures i in Earlier(s, user, s.nextSession) <==> i in SessionsOf(s, user)
    {
    }
    assert Earlier(SessionsListed(s, l), user, s.nextSession) == SessionsOf(s, user);
  }

  lemma EvictedLoginIsOk(s: Store, l: nat)
    requires LoginIsAt(s, l, Listed) && LoginOk(s, s.logins[l])
    ensures LoginOk(SurplusEvicted(s, l), SurplusEvicted(s, l).logins[l])
  {
    var login := s.logins[l];
    var before := Earlier(s, login.user, login.listedAt);
    var after := Earlier(SurplusEvicted(s, l), login.user, login.listedAt);
    forall i: nat
      ensures i in after <==> i in before - login.surplus
    {
    }
    assert after == before - login.surplus;
  }

  lemma MovedLoginIsOk(s: Store, a: Action, l: nat)
    requires LoginsOk(s) && l < |Step(s, a).logins|
    requires l >= |s.logins| || Step(s, a).logins[l] != s.logins[l]
    ensures LoginOk(Step(s, a), Step(s, a).logins[l])
  {
    hide Surplus, Earlier, SessionsOf;
    match a
    case ListSessions(_) =>
      ListedLoginIsOk(s, l);
    case EvictSurplus(_) =>
      EvictedLoginIsOk(s, l);
    case _ =>
  }

  lemma StepKeepsLogins(s: Store, a: Action)
    requires LoginsOk(s)
    ensures LoginsOk(Step(s, a))
  {
    hide Step, LoginOk;
    var s' := Step(s, a);
    forall l | 0 <= l < |s'.logins|
      ensures LoginOk(s', s'.logins[l])
    {
      if l < |s.logins| && s'.logins[l] == s.logins[l] {
        LoginStaysOk(s, a, s.logins[l]);
      } else {
        MovedLoginIsOk(s, a, l);
      }
    }
    NumbersStayBelow(s, a);
  }

  lemma NumbersStayBelow(s: Store, a: Action)
    requires forall i: nat | i in s.sessions :: i < s.nextSession
    ensures forall i: nat | i in Step(s, a).sessions :: i < Step(s, a).nextSession
  {
    hide Surplus, SessionsOf;
  }

  lemma {:induction false} RunKeepsLogins(s: Store, actions: seq<Action>)
    requires LoginsOk(s)
    ensures LoginsOk(Run(s, actions))
    decreases |actions|
  {
    hide LoginsOk, Step;
    if actions != [] {
      StepKeepsLogins(s, actions[0]);
      RunKeepsLogins(Step(s, actions[0]), actions[1..]);
    }
  }

  lemma InsertAddsOne(s: Store, l: nat, now: nat, ttlDays: nat, n: nat)
    requires LoginIsAt(s, l, Evicted)
    ensures var user := s.logins[l].user;
            SessionsOf(Step(s, InsertSession(l, now, ttlDays)), user)
            == Earlier(s, user, n) + Later(s, user, n) + {s.nextSession}
  {
    var user := s.logins[l].user;
    forall i: nat
      ensures i in SessionsOf(SessionInserted(s, l, now, ttlDays), user)
              <==> i in Earlier(s, user, n) + Later(s, user, n) + {s.nextSession}
    {
    }
    assert SessionsOf(SessionInserted(s, l, now, ttlDays), user)
        == Earlier(s, user, n) + Later(s, user, n) + {s.nextSession};
  }

  lemma InsertCounts(s: Store, l: nat, now: nat, ttlDays: nat)
    requires LoginIsAt(s, l, Evicted)
    requires forall i: nat | i in s.sessions :: i < s.nextSession
    ensures var s', user := Step(s, InsertSession(l, now, ttlDays)), s.logins[l].user;
            && |SessionsOf(s', user)| == |SessionsOf(s, user)| + 1
            && s'.logins == s.logins[l := s.logins[l].(stage := Opened)]
            && forall i: nat | i in s'.sessions :: i < s'.nextSession
  {
    var user := s.logins[l].user;
    InsertAddsOne(s, l, now, ttlDays, s.nextSession);
    assert Later(s, user, s.nextSession) == {};
    assert Earlier(s, user, s.nextSession) == SessionsOf(s, user);
  }

  lemma EarlierAndLater(s: Store, user: nat, n: nat)
    ensures SessionsOf(s, user) == Earlier(s, user, n) + Later(s, user, n)
    ensures Earlier(s, user, n) !! Later(s, user, n)
  {
    forall i: nat
      ensures i in SessionsOf(s, user) <==> i in Earlier(s, user, n) + Later(s, user, n)
    {
    }
  }

  lemma EvictedKeptFour(s: Store, l: nat, now: nat, ttlDays: nat)
    requires LoginsOk(s) && LoginIsAt(s, l, Evicted)
    ensures var user, n := s.logins[l].user, s.logins[l].listedAt;
            && |SessionsOf(Step(s, InsertSession(l, now, ttlDays)), user)|
               == |Earlier(s, user, n)| + |Later(s, user, n)| + 1
            && |Earlier(s, user, n)| < MAX_SESSIONS_PER_USER
  {
    assert LoginOk(s, s.logins[l]);
    hide Step, SessionsOf, Earlier, Later;
    InsertCounts(s, l, now, ttlDays);
    EarlierAndLater(s, s.logins[l].user, s.logins[l].listedAt);
  }

  /**
    Under every interleaving, right after a login has inserted its session its user has that one, at
    most four of those it found when it listed, and all that other logins inserted since.
   */
  lemma SessionsAfterInsert(start: Store, actions: seq<Action>, l: nat, now: nat, ttlDays: nat)
    requires Initial(start) && LoginIsAt(Run(start, actions), l, Evicted)
    ensures var s := Run(start, actions);
            var user, n := s.logins[l].user, s.logins[l].listedAt;
            && |SessionsOf(Step(s, InsertSession(l, now, ttlDays)), user)|
               == |Earlier(s, user, n)| + |Later(s, user, n)| + 1
            && |Earlier(s, user, n)| < MAX_SESSIONS_PER_USER
  {
    hide Run, Initial, LoginsOk, Step, SessionsOf, Earlier, Later;
    InitialLogins(start);
    RunKeepsLogins(start, actions);
    EvictedKeptFour(Run(start, actions), l, now, ttlDays);
  }

  // ----- When the cap is kept ----------------------------------------------------------------

  /** The action inserts a session of the user. */
  predicate Inserts(s: Store, a: Action, user: nat) {
    a.InsertSession? && LoginIsAt(s, a.login, Evicted) && s.logins[a.login].user == user
  }

  /** The insert that the code does not guard against: the user has five sessions already. */
  predicate FindsFive(s: Store, a: Action, user: nat) {
    Inserts(s, a, user) && |SessionsOf(s, user)| == MAX_SESSIONS_PER_USER
  }

  lemma OnlyInsertAdds(s: Store, a: Action, user: nat)
    ensures Inserts(s, a, user) || SessionsOf(Step(s, a), user) <= SessionsOf(s, user)
  {
    hide Surplus;
  }

  /** A step keeps the cap if and only if it is not an insert that finds five sessions. */
  lemma StepKeepsCapIff(s: Store, a: Action, user: nat)
    requires LoginsOk(s) && |SessionsOf(s, user)| <= MAX_SESSIONS_PER_USER
    ensures |SessionsOf(Step(s, a), user)| <= MAX_SESSIONS_PER_USER <==> !FindsFive(s, a, user)
  {
    hide Step, SessionsOf, LoginOk;
    OnlyInsertAdds(s, a, user);
    if Inserts(s, a, user) {
      InsertCounts(s, a.login, a.now, a.ttlDays);
    } else {
      Sets.SubsetIsSmaller(SessionsOf(Step(s, a), user), SessionsOf(s, user));
    }
  }

  /** The action inserts a session although another one was inserted for the user since it listed. */
  predicate Overlaps(s: Store, a: Action, user: nat) {
    Inserts(s, a, user) && Later(s, user, s.logins[a.login].listedAt) != {}
  }

  /** Only an overlapping login can find five. */
  lemma FindingFiveOverlaps(s: Store, a: Action, user: nat)
    requires LoginsOk(s) && FindsFive(s, a, user)
    ensures Overlaps(s, a, user)
  {
    hide LoginOk, SessionsOf, Step, Later, Earlier;
    InsertCounts(s, a.login, a.now, a.ttlDays);
    EvictedKeptFour(s, a.login, a.now, a.ttlDays);
  }

  function Capped(user: nat): Store -> bool {
    s => |SessionsOf(s, user)| <= MAX_SESSIONS_PER_USER
  }

  function FindsFiveFor(user: nat): (Store, Action) -> bool {
    (s, a) => FindsFive(s, a, user)
  }

  /**
    From at most five sessions, the user has at most five at every moment of a run if and only if no
    insert of the run finds five.
   */
  lemma CapThroughoutIff(s: Store, actions: seq<Action>, user: nat)
    requires LoginsOk(s) && |SessionsOf(s, user)| <= MAX_SESSIONS_PER_USER
    ensures Runs.Throughout(Run, Capped(user), s, actions) <==> Runs.NeverBad(Run, FindsFiveFor(user), s, actions)
  {
    hide LoginsOk, Step, SessionsOf, FindsFive;
    forall t, a | LoginsOk(t)
      ensures LoginsOk(Step(t, a))
      ensures Capped(user)(t) ==> (Capped(user)(Step(t, a)) <==> !FindsFiveFor(user)(t, a))
    {
      StepKeepsLogins(t, a);
      if Capped(user)(t) {
        StepKeepsCapIff(t, a, user);
      }
    }
    ResetRunsBySteps();
    Runs.ThroughoutIff(Run, Step, t => LoginsOk(t), Capped(user), FindsFiveFor(user), s, actions);
  }

  /** The same from any initial store, which is where the logins begin. */
  lemma FiveSessionsIff(start: Store, actions: seq<Action>, user: nat)
    requires Initial(start) && |SessionsOf(start, user)| <= MAX_SESSIONS_PER_USER
    ensures Runs.Throughout(Run, Capped(user), start, actions)
            <==> Runs.NeverBad(Run, FindsFiveFor(user), start, actions)
  {
    InitialLogins(start);
    CapThroughoutIff(start, actions, user);
  }

  predicate NeverOverlaps(s: Store, actions: seq<Action>, user: nat)
    decreases |actions|
  {
    actions == [] || (!Overlaps(s, actions[0], user) && NeverOverlaps(Step(s, actions[0]), actions[1..], user))
  }

  lemma {:induction false} WithoutOverlapNeverFive(s: Store, actions: seq<Action>, user: nat)
    requires LoginsOk(s) && NeverOverlaps(s, actions, user)
    ensures Runs.NeverBad(Run, FindsFiveFor(user), s, actions)
    decreases |actions|
  {
    hide Step, LoginsOk, Overlaps, FindsFive;
    ResetRunsBySteps();
    Runs.NeverBadStep(Run, Step, FindsFiveFor(user), s, actions);
    if actions != [] {
      StepKeepsLogins(s, actions[0]);
      WithoutOverlapNeverFive(Step(s, actions[0]), actions[1..], user);
      if FindsFive(s, actions[0], user) {
        FindingFiveOverlaps(s, actions[0], user);
      }
    }
  }

  /** While no two logins of a user overlap, the user has at most five sessions at every moment. */
  lemma AtMostFiveSessions(start: Store, actions: seq<Action>, user: nat)
    requires Initial(start) && |SessionsOf(start, user)| <= MAX_SESSIONS_PER_USER
    requires NeverOverlaps(start, actions, user)
    ensures Runs.Throughout(Run, Capped(user), start, actions)
  {
    hide LoginsOk, SessionsOf, NeverOverlaps, Initial;
    InitialLogins(start);
    WithoutOverlapNeverFive(start, actions, user);
    FiveSessionsIff(start, actions, user);
  }

  /** Two logins that list before either inserts. */
  function TwoLogins(user: nat, hash: string, now: nat, ttlDays: nat): seq<Action> {
    [CheckPassword(user, hash), CheckPassword(user, hash), ListSessions(0), ListSessions(1),
     EvictSurplus(0), EvictSurplus(1), InsertSession(0, now, ttlDays), InsertSession(1, now, ttlDays)]
  }

  function LoginAt(user: nat, hash: string, stage: LoginStage, n: nat): Login {
    Login(user, hash, stage, {}, if stage == Checked then 0 else n)
  }

  lemma BothEvict(s: Store, user: nat, hash: string, now: nat, ttlDays: nat)
    requires s.logins == [] && user in s.passwords && s.passwords[user] == hash && |SessionsOf(s, user)| <= 4
    ensures var both := LoginAt(user, hash, Evicted, s.nextSession);
            Run(s, TwoLogins(user, hash, now, ttlDays)[..6]) == s.(logins := [both, both])
  {
    var n := s.nextSession;
    var checked, listed := LoginAt(user, hash, Checked, n), LoginAt(user, hash, Listed, n);
    var evicted := LoginAt(user, hash, Evicted, n);
    var s1, s2 := s.(logins := [checked]), s.(logins := [checked, checked]);
    var s3, s4 := s.(logins := [listed, checked]), s.(logins := [listed, listed]);
    var s5, s6 := s.(logins := [evicted, listed]), s.(logins := [evicted, evicted]);
    hide Step, SessionsOf, Run;
    SameSessions(s, user);
    RightPasswordIsChecked(s, user, hash);
    RightPasswordIsChecked(s1, user, hash);
    ListingFindsNoSurplus(s2, 0, user, hash);
    ListingFindsNoSurplus(s3, 1, user, hash);
    NothingToEvict(s4, 0);
    NothingToEvict(s5, 1);
    assert Step(s, CheckPassword(user, hash)) == s1 && Step(s1, CheckPassword(user, hash)) == s2;
    assert Step(s2, ListSessions(0)) == s3 && Step(s3, ListSessions(1)) == s4;
    assert Step(s4, EvictSurplus(0)) == s5 && Step(s5, EvictSurplus(1)) == s6;
    ResetRunsBySteps();
    Runs.RunVisits(Run, Step, TwoLogins(user, hash, now, ttlDays)[..6], [s, s1, s2, s3, s4, s5, s6]);
  }

  lemma RightPasswordIsChecked(s: Store, user: nat, hash: string)
    requires user in s.passwords && s.passwords[user] == hash
    ensures Step(s, CheckPassword(user, hash)) == s.(logins := s.logins + [Login(user, hash, Checked, {}, 0)])
  {
  }

  lemma NothingToEvict(s: Store, l: nat)
    requires LoginIsAt(s, l, Listed) && s.logins[l].surplus == {}
    ensures Step(s, EvictSurplus(l)) == s.(logins := s.logins[l := s.logins[l].(stage := Evicted)])
  {
    assert s.sessions - {} == s.sessions;
  }

  /** From four sessions two overlapping logins make six. */
  lemma SixSessionsAreReachable(start: Store, user: nat, now: nat, ttlDays: nat)
    requires Initial(start) && user in start.passwords && |SessionsOf(start, user)| == 4
    ensures |SessionsOf(Run(start, TwoLogins(user, start.passwords[user], now, ttlDays)), user)| == 6
  {
    hide Step, SessionsOf, Run;
    var hash := start.passwords[user];
    var actions := TwoLogins(user, hash, now, ttlDays);
    BothEvict(start, user, hash, now, ttlDays);
    var s6 := Run(start, actions[..6]);
    SameSessions(start, user);
    InsertCounts(s6, 0, now, ttlDays);
    InsertCounts(Step(s6, InsertSession(0, now, ttlDays)), 1, now, ttlDays);
    ResetRunsBySteps();
    Runs.RunConcat(Run, Step, start, actions[..6], actions[6..]);
    assert actions[..6] + actions[6..] == actions;
    TwoSteps(s6, actions[6..]);
  }

  lemma TwoSteps(s: Store, actions: seq<Action>)
    requires |actions| == 2
    ensures Run(s, actions) == Step(Step(s, actions[0]), actions[1])
  {
    hide Step;
    ResetRunsBySteps();
    Runs.RunVisits(Run, Step, actions, [s, Step(s, actions[0]), Step(Step(s, actions[0]), actions[1])]);
  }

  lemma SameSessions(s: Store, user: nat)
    ensures forall s': Store | s'.sessions == s.sessions :: SessionsOf(s', user) == SessionsOf(s, user)
  {
  }

  lemma ListingFindsNoSurplus(s: Store, l: nat, user: nat, hash: string)
    requires l < |s.logins| && s.logins[l] == Login(user, hash, Checked, {}, 0) && |SessionsOf(s, user)| <= 4
    ensures Step(s, ListSessions(l)) == s.(logins := s.logins[l := Login(user, hash, Listed, {}, s.nextSession)])
  {
    hide Surplus;
    FourHaveNoSurplus(SessionsOf(s, user));
  }

  lemma FourHaveNoSurplus(ids: set<nat>)
    requires |ids| <= 4
    ensures Surplus(ids) == {}
  {
    forall i: nat | i in ids
      ensures |Newer(ids, i)| < 4
    {
      Sets.SubsetIsSmaller(Newer(ids, i), ids - {i});
    }
  }

  // ----- Sessions of an outdated password ----------------------------------------------------

  /** The session was opened with a password that is no longer the user's. */
  predicate StaleSession(s: Store, i: nat, user: nat)
    requires user in s.passwords
  {
    i in s.sessions && s.sessions[i].user == user && s.sessions[i].checkedWith != s.passwords[user]
  }

  /** The login has compared the password with a hash that is no longer the user's, and goes on. */
  predicate StaleLogin(s: Store, l: int, user: nat)
    requires user in s.passwords
  {
    && 0 <= l < |s.logins| && s.logins[l].stage != Opened
    && s.logins[l].user == user && s.logins[l].checkedWith != s.passwords[user]
  }

  predicate NothingStale(s: Store, user: nat)
    requires user in s.passwords
  {
    && (forall i: nat | i in s.sessions :: !StaleSession(s, i, user))
    && (forall l | 0 <= l < |s.logins| :: !StaleLogin(s, l, user))
  }

  /** The run makes no claim for the user. */
  predicate NoNewClaim(s: Store, s': Store, user: nat) {
    forall i | |s.claims| <= i < |s'.claims| :: s'.claims[i].user != user
  }

  lemma StepKeepsPassword(s: Store, a: Action, user: nat)
    requires user in s.passwords && NoNewClaim(s, Step(s, a), user)
    ensures user in Step(s, a).passwords && Step(s, a).passwords[user] == s.passwords[user]
  {
    hide SessionsOf, Surplus;
    if a.ClaimToken? && Claimable(s, a.token, a.now) {
      assert Step(s, a).claims[|s.claims|].user == s.tokens[a.token].user;
    }
  }

  lemma StepBringsNothingStale(s: Store, a: Action, user: nat)
    requires user in s.passwords && NothingStale(s, user) && NoNewClaim(s, Step(s, a), user)
    ensures user in Step(s, a).passwords && NothingStale(Step(s, a), user)
  {
    hide SessionsOf, Surplus, Claimable;
    StepKeepsPassword(s, a, user);
    var s' := Step(s, a);
    forall i: nat | i in s'.sessions
      ensures !StaleSession(s', i, user)
    {
      if i in s.sessions && s'.sessions[i] == s.sessions[i] {
        assert !StaleSession(s, i, user);
      } else {
        assert !StaleLogin(s, a.login, user);
      }
    }
    forall l | 0 <= l < |s'.logins|
      ensures !StaleLogin(s', l, user)
    {
      if l < |s.logins| {
        assert !StaleLogin(s, l, user);
      }
    }
  }

  lemma {:induction false} NothingStaleAppears(s: Store, actions: seq<Action>, user: nat)
    requires user in s.passwords && NothingStale(s, user) && NoNewClaim(s, Run(s, actions), user)
    ensures user in Run(s, actions).passwords && NothingStale(Run(s, actions), user)
    decreases |actions|
  {
    hide Step, NothingStale;
    if actions != [] {
      var next := Step(s, actions[0]);
      StepGrows(s, actions[0]);
      RunGrows(next, actions[1..]);
      assert NoNewClaim(s, next, user) by {
        forall i | |s.claims| <= i < |next.claims|
          ensures next.claims[i].user != user
        {
          assert Run(s, actions).claims[i] == next.claims[i];
        }
      }
      StepBringsNothingStale(s, actions[0], user);
      NothingStaleAppears(next, actions[1..], user);
    }
  }

  /** The run, without a further claim for the user, ends with a session of an outdated password. */
  predicate GoesStale(s: Store, actions: seq<Action>, user: nat) {
    var s' := Run(s, actions);
    && NoNewClaim(s, s', user) && user in s'.passwords
    && exists i: nat | i in s'.sessions :: StaleSession(s', i, user)
  }

  /** A login that goes on from where it is. */
  function Finish(l: nat, now: nat, ttlDays: nat): seq<Action> {
    [ListSessions(l), EvictSurplus(l), InsertSession(l, now, ttlDays)]
  }

  lemma StaleLoginGoesStale(s: Store, l: nat, user: nat)
    requires user in s.passwords && StaleLogin(s, l, user)
    ensures GoesStale(s, Finish(l, 0, 30), user)
  {
    hide Surplus, SessionsOf;
    var s1 := Step(s, ListSessions(l));
    var s2 := Step(s1, EvictSurplus(l));
    var s3 := Step(s2, InsertSession(l, 0, 30));
    ThreeSteps(s, Finish(l, 0, 30));
    assert s2.nextSession in s3.sessions && StaleSession(s3, s2.nextSession, user);
  }

  /**
    When a confirmation has deleted the sessions of its user, the user has none. From then on, and as
    long as the password stays, a session of an outdated password can appear if and only if some login
    that had compared an outdated password was still under way at the deletion.
   */
  lemma StaleSessionsIff(s: Store, c: nat)
    requires c < |s.confirmations| && !s.confirmations[c].finished && s.confirmations[c].user in s.passwords
    ensures var deleted, user := Step(s, DeleteSessions(c)), s.confirmations[c].user;
            && SessionsOf(deleted, user) == {}
            && ((exists actions :: GoesStale(deleted, actions, user))
                <==> exists l: nat | l < |s.logins| :: StaleLogin(s, l, user))
  {
    hide Run;
    var deleted, user := Step(s, DeleteSessions(c)), s.confirmations[c].user;
    if l: nat :| l < |s.logins| && StaleLogin(s, l, user) {
      assert StaleLogin(deleted, l, user);
      StaleLoginGoesStale(deleted, l, user);
    } else {
      forall actions: seq<Action>
        ensures !GoesStale(deleted, actions, user)
      {
        if NoNewClaim(deleted, Run(deleted, actions), user) {
          NoneLeftStale(s, deleted, user);
          NothingStaleAppears(deleted, actions, user);
        }
      }
    }
  }

  lemma NoneLeftStale(s: Store, deleted: Store, user: nat)
    requires user in s.passwords && deleted.passwords == s.passwords && deleted.logins == s.logins
    requires SessionsOf(deleted, user) == {}
    requires forall l: nat | l < |s.logins| :: !StaleLogin(s, l, user)
    ensures NothingStale(deleted, user)
  {
    forall i: nat | i in deleted.sessions
      ensures !StaleSession(deleted, i, user)
    {
      assert i !in SessionsOf(deleted, user);
    }
    forall l | 0 <= l < |deleted.logins|
      ensures !StaleLogin(deleted, l, user)
    {
      assert !StaleLogin(s, l, user);
    }
  }
}
