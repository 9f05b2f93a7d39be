/**
  Password-reset links of src/services/authService.js and the sessions of src/services/session.js
  under concurrency. A request runs as three separate database steps (create its token, delete the
  user's other unused tokens, and after the mail possibly delete its own); a confirmation as two (the
  claim transaction, then the deletion of sessions); a login as four (compare the password, list the
  sessions, delete the surplus, insert the new one). Any number of them interleave.

  A token is identified by the number of the request that created it, in creation order; its hash is
  unique and never drawn again. Requests for a parent and for a child run the same steps.
 */
module ResetTokens {
  import Runs
  import Sets

  datatype Token = Token(user: nat, expiresAt: nat, used: bool)

  datatype Stage = Created | Swept | Mailed | MailFailed

  datatype Request = Request(user: nat, stage: Stage)

  /** A confirmation whose claim succeeded; `seen` are the user's sessions at that moment. */
  datatype Confirmation = Confirmation(user: nat, seen: set<nat>, finished: bool)

  /** Log entry of a successful claim. */
  datatype Claim = Claim(token: nat, user: nat, passwordHash: string)

  /** A session, and the stored hash that its login had compared the password with. */
  datatype Session = Session(user: nat, checkedWith: string, expiresAt: nat)

  datatype LoginStage = Checked | Listed | Evicted | Opened

  /**
    A login whose password was right. The surplus sessions are those it listed for deletion, when the
    next new session was to have number `listedAt`.
   */
  datatype Login = Login(user: nat, checkedWith: string, stage: LoginStage, surplus: set<nat>, listedAt: nat)

  datatype Store = Store(requests: seq<Request>, tokens: map<nat, Token>, confirmations: seq<Confirmation>,
                         logins: seq<Login>, sessions: map<nat, Session>, nextSession: nat,
                         passwords: map<nat, string>, claims: seq<Claim>)

  datatype Action =
    | CreateToken(user: nat, now: nat)
    | DeleteOthers(request: nat)
    | MailResult(request: nat, sent: bool)
    | ClaimToken(token: nat, passwordHash: string, now: nat)
    | DeleteSessions(confirmation: nat)
    | CheckPassword(user: nat, passwordHash: string)
    | ListSessions(login: nat)
    | EvictSurplus(login: nat)
    | InsertSession(login: nat, now: nat, ttlDays: nat)
    | DeleteSession(session: nat)
    | PurgeExpired(now: nat)

  const TOKEN_TTL_MS: nat := 60 * 60 * 1000
  const MAX_SESSIONS_PER_USER: nat := 5
  const DAY_MS: nat := 24 * 60 * 60 * 1000

  function Begun(s: Store, user: nat, now: nat): Store {
    s.(requests := s.requests + [Request(user, Created)],
       tokens := s.tokens[|s.requests| := Token(user, now + TOKEN_TTL_MS, false)])
  }

  function Others(tokens: map<nat, Token>, user: nat, kept: nat): set<nat> {
    set t | t in tokens && tokens[t].user == user && !tokens[t].used && t != kept
  }

  function OthersDeleted(s: Store, r: nat): Store {
    if r < |s.requests| && s.requests[r].stage == Created then
      s.(requests := s.requests[r := s.requests[r].(stage := Swept)],
         tokens := s.tokens - Others(s.tokens, s.requests[r].user, r))
    else s
  }

  function MailDone(s: Store, r: nat, sent: bool): Store {
    if r < |s.requests| && s.requests[r].stage == Swept then
      if sent then s.(requests := s.requests[r := s.requests[r].(stage := Mailed)])
      else s.(requests := s.requests[r := s.requests[r].(stage := MailFailed)], tokens := s.tokens - {r})
    else s
  }

  predicate Claimable(s: Store, t: nat, now: nat) {
    t in s.tokens && !s.tokens[t].used && s.tokens[t].expiresAt > now
  }

  function SessionsOf(s: Store, user: nat): set<nat> {
    set i | i in s.sessions && s.sessions[i].user == user
  }

  function Claimed(s: Store, t: nat, passwordHash: string, now: nat): Store {
    if Claimable(s, t, now) then
      var user := s.tokens[t].user;
      s.(tokens := s.tokens[t := s.tokens[t].(used := true)],
         passwords := s.passwords[user := passwordHash],
         confirmations := s.confirmations + [Confirmation(user, SessionsOf(s, user), false)],
         claims := s.claims + [Claim(t, user, passwordHash)])
    else s
  }

  function SessionsDeleted(s: Store, c: nat): Store {
    if c < |s.confirmations| && !s.confirmations[c].finished then
      s.(confirmations := s.confirmations[c := s.confirmations[c].(finished := true)],
         sessions := s.sessions - SessionsOf(s, s.confirmations[c].user))
    else s
  }

  /** The password is compared with the hash stored at that moment. */
  function PasswordChecked(s: Store, user: nat, passwordHash: string): Store {
    if user in s.passwords && s.passwords[user] == passwordHash
    then s.(logins := s.logins + [Login(user, passwordHash, Checked, {}, 0)])
    else s
  }

  function Newer(ids: set<nat>, i: nat): set<nat> {
    set j | j in ids && i < j
  }

  /** All but the four newest sessions. */
  function Surplus(ids: set<nat>): set<nat> {
    set i | i in ids && |Newer(ids, i)| >= MAX_SESSIONS_PER_USER - 1
  }

  predicate LoginIsAt(s: Store, l: nat, stage: LoginStage) {
    l < |s.logins| && s.logins[l].stage == stage
  }

  function SessionsListed(s: Store, l: nat): Store {
    if LoginIsAt(s, l, Checked) then
      var surplus := Surplus(SessionsOf(s, s.logins[l].user));
      s.(logins := s.logins[l := s.logins[l].(stage := Listed, surplus := surplus, listedAt := s.nextSession)])
    else s
  }

  function SurplusEvicted(s: Store, l: nat): Store {
    if LoginIsAt(s, l, Listed) then
      s.(logins := s.logins[l := s.logins[l].(stage := Evicted)], sessions := s.sessions - s.logins[l].surplus)
    else s
  }

  function SessionInserted(s: Store, l: nat, now: nat, ttlDays: nat): Store {
    if LoginIsAt(s, l, Evicted) then
      var session := Session(s.logins[l].user, s.logins[l].checkedWith, now + ttlDays * DAY_MS);
      s.(logins := s.logins[l := s.logins[l].(stage := Opened)],
         sessions := s.sessions[s.nextSession := session],
         nextSession := s.nextSession + 1)
    else s
  }

  /** Without the sessions that have expired. */
  function Purged(sessions: map<nat, Session>, now: nat): map<nat, Session> {
    map i | i in sessions && sessions[i].expiresAt >= now :: sessions[i]
  }

  function Step(s: Store, a: Action): Store {
    match a
    case CreateToken(user, now) => Begun(s, user, now)
    case DeleteOthers(r) => OthersDeleted(s, r)
    case MailResult(r, sent) => MailDone(s, r, sent)
    case ClaimToken(t, passwordHash, now) => Claimed(s, t, passwordHash, now)
    case DeleteSessions(c) => SessionsDeleted(s, c)
    case CheckPassword(user, passwordHash) => PasswordChecked(s, user, passwordHash)
    case ListSessions(l) => SessionsListed(s, l)
    case EvictSurplus(l) => SurplusEvicted(s, l)
    case InsertSession(l, now, ttlDays) => SessionInserted(s, l, now, ttlDays)
    case DeleteSession(i) => s.(sessions := s.sessions - {i})
    case PurgeExpired(now) => s.(sessions := Purged(s.sessions, now))
  }

  function Run(s: Store, actions: seq<Action>): Store
    decreases |actions|
  {
    if actions == [] then s else Run(Step(s, actions[0]), actions[1..])
  }

  /** No token, request, confirmation, login or claim yet; any users with passwords and sessions. */
  ghost predicate Initial(s: Store) {
    && s.requests == [] && s.tokens == map[] && s.confirmations == [] && s.logins == [] && s.claims == []
    && forall i: nat | i in s.sessions :: i < s.nextSession
  }

  // ----- The statements as methods on the tables ---------------------------------------------

  class ResetService {
    var requests: seq<Request>
    var tokens: map<nat, Token>
    var confirmations: seq<Confirmation>
    var logins: seq<Login>
    var sessions: map<nat, Session>
    var nextSession: nat
    var passwords: map<nat, string>
    ghost var claims: seq<Claim>

    ghost function State(): Store
      reads this
    {
      Store(requests, tokens, confirmations, logins, sessions, nextSession, passwords, claims)
    }

    constructor (passwords: map<nat, string>)
      ensures Initial(State()) && this.passwords == passwords
    {
      requests, tokens, confirmations, logins, sessions, nextSession := [], map[], [], [], map[], 0;
      this.passwords, claims := passwords, [];
    }

    method CreateResetToken(user: nat, now: nat) returns (created: nat)
      modifies this`requests, this`tokens
      ensures State() == Step(old(State()), CreateToken(user, now))
      ensures created == |old(requests)|
    {
      created := |requests|;
      tokens := tokens[created := Token(user, now + TOKEN_TTL_MS, false)];
      requests := requests + [Request(user, Created)];
    }

    /** The bulk delete, row by row. */
    method DeleteOtherTokens(created: nat)
      requires created < |requests| && requests[created].stage == Created
      modifies this`requests, this`tokens
      ensures State() == Step(old(State()), DeleteOthers(created))
    {
      var user := requests[created].user;
      var unvisited := tokens.Keys;
      while unvisited != {}
        invariant requests == old(requests) && unvisited <= tokens.Keys <= old(tokens).Keys
        invariant forall t | t in tokens :: tokens[t] == old(tokens)[t]
        invariant forall t | t in old(tokens) && t !in unvisited ::
                    t in tokens <==> t !in Others(old(tokens), user, created)
        decreases |unvisited|
      {
        var t :| t in unvisited;
        unvisited := unvisited - {t};
        if tokens[t].user == user && !tokens[t].used && t != created {
          tokens := tokens - {t};
        }
      }
      requests := requests[created := requests[created].(stage := Swept)];
    }

    method FinishMail(created: nat, sent: bool)
      requires created < |requests| && requests[created].stage == Swept
      modifies this`requests, this`tokens
      ensures State() == Step(old(State()), MailResult(created, sent))
    {
      if sent {
        requests := requests[created := requests[created].(stage := Mailed)];
      } else {
        if created in tokens {
          tokens := tokens - {created};
        }
        requests := requests[created := requests[created].(stage := MailFailed)];
      }
    }

    /** The claim transaction: mark the token used, then set the password of its user. */
    method ConfirmClaim(token: nat, passwordHash: string, now: nat) returns (confirmation: int)
      modifies this`tokens, this`passwords, this`confirmations, this`claims
      ensures State() == Step(old(State()), ClaimToken(token, passwordHash, now))
      ensures confirmation == if Claimable(old(State()), token, now) then |old(confirmations)| else -1
    {
      var count := 0;
      if token in tokens && !tokens[token].used && tokens[token].expiresAt > now {
        tokens := tokens[token := tokens[token].(used := true)];
        count := 1;
      }
      if count == 0 {
        return -1;
      }
      var userId := tokens[token].user;
      passwords := passwords[userId := passwordHash];
      confirmation := |confirmations|;
      var seen := set i | i in sessions && sessions[i].user == userId;
      confirmations := confirmations + [Confirmation(userId, seen, false)];
      claims := claims + [Claim(token, userId, passwordHash)];
    }

    /** The session with the lowest number, which is the oldest. */
    static method Oldest(ids: set<nat>) returns (oldest: nat)
      requires ids != {}
      ensures oldest in ids && forall i: nat | i in ids :: oldest <= i
    {
      oldest :| oldest in ids;
      var rest := ids - {oldest};
      while rest != {}
        invariant oldest in ids && rest <= ids
        invariant forall i: nat | i in ids && i !in rest :: oldest <= i
        decreases |rest|
      {
        var i: nat :| i in rest;
        rest := rest - {i};
        if i < oldest {
          oldest := i;
        }
      }
    }

    /** The n oldest of the sessions. */
    static method OldestOf(existing: set<nat>, n: nat) returns (evicted: set<nat>)
      requires n <= |existing|
      ensures evicted <= existing && |evicted| == n
      ensures forall e: nat, k: nat | e in evicted && k in existing - evicted :: e < k
    {
      evicted := {};
      for i := 0 to n
        invariant evicted <= existing && |evicted| == i
        invariant forall e: nat, k: nat | e in evicted && k in existing - evicted :: e < k
      {
        var left := existing - evicted;
        assert |left| == |existing| - i;
        var oldest := Oldest(left);
        forall e: nat, k: nat | e in evicted + {oldest} && k in existing - (evicted + {oldest})
          ensures e < k
        {
          assert k in existing - evicted && k in left;
        }
        evicted := evicted + {oldest};
      }
    }

    method ComparePassword(user: nat, passwordHash: string) returns (login: int)
      modifies this`logins
      ensures State() == Step(old(State()), CheckPassword(user, passwordHash))
      ensures login == if user in passwords && passwords[user] == passwordHash then |old(logins)| else -1
    {
      if user !in passwords || passwords[user] != passwordHash {
        return -1;
      }
      login := |logins|;
      logins := logins + [Login(user, passwordHash, Checked, {}, 0)];
    }

    /** The sessions to delete so that at most four are left: the oldest, when there are five or more. */
    method ListSurplus(login: nat)
      requires login < |logins| && logins[login].stage == Checked
      modifies this`logins
      ensures State() == Step(old(State()), ListSessions(login))
    {
      var existing := set i | i in sessions && sessions[i].user == logins[login].user;
      assert existing == SessionsOf(State(), logins[login].user);
      var surplus := {};
      if |existing| >= MAX_SESSIONS_PER_USER {
        surplus := OldestOf(existing, |existing| - MAX_SESSIONS_PER_USER + 1);
      }
      SurplusIsOldest(existing, surplus);
      logins := logins[login := logins[login].(stage := Listed, surplus := surplus, listedAt := nextSession)];
    }

    method DeleteSurplus(login: nat)
      requires login < |logins| && logins[login].stage == Listed
      modifies this`logins, this`sessions
      ensures State() == Step(old(State()), EvictSurplus(login))
    {
      sessions := map i | i in sessions && i !in logins[login].surplus :: sessions[i];
      logins := logins[login := logins[login].(stage := Evicted)];
    }

    method InsertNewSession(login: nat, now: nat, ttlDays: nat) returns (session: nat)
      requires login < |logins| && logins[login].stage == Evicted
      modifies this`logins, this`sessions, this`nextSession
      ensures State() == Step(old(State()), InsertSession(login, now, ttlDays))
      ensures session == old(nextSession)
    {
      session := nextSession;
      var expiresAt := now + ttlDays * DAY_MS;
      sessions := sessions[session := Session(logins[login].user, logins[login].checkedWith, expiresAt)];
      logins := logins[login := logins[login].(stage := Opened)];
      nextSession := nextSession + 1;
    }

    /** A whole login that nothing interrupts: afterwards the user has at most five sessions. */
    method CreateSessionForUser(login: nat, now: nat, ttlDays: nat) returns (session: nat)
      requires login < |logins| && logins[login].stage == Checked
      requires forall i: nat | i in sessions :: i < nextSession
      modifies this`logins, this`sessions, this`nextSession
      ensures State() == Run(old(State()),
                             [ListSessions(login), EvictSurplus(login), InsertSession(login, now, ttlDays)])
      ensures session in sessions && sessions[session].user == old(logins)[login].user
      ensures |SessionsOf(State(), old(logins)[login].user)| <= MAX_SESSIONS_PER_USER
    {
      ghost var start := State();
      ghost var actions := [ListSessions(login), EvictSurplus(login), InsertSession(login, now, ttlDays)];
      ListSurplus(login);
      ghost var listed := State();
      DeleteSurplus(login);
      ghost var evicted := State();
      session := InsertNewSession(login, now, ttlDays);
      hide Step, SessionsOf;
      ThreeSteps(start, actions);
      CapHolds(start, login, now, ttlDays);
    }

    method DeleteSessionRow(session: nat)
      modifies this`sessions
      ensures State() == Step(old(State()), DeleteSession(session))
    {
      sessions := map i | i in sessions && i != session :: sessions[i];
    }

    method PurgeExpiredSessions(now: nat)
      modifies this`sessions
      ensures State() == Step(old(State()), PurgeExpired(now))
    {
      var unvisited := sessions.Keys;
      while unvisited != {}
        invariant unvisited <= sessions.Keys <= old(sessions).Keys
        invariant forall i | i in sessions :: sessions[i] == old(sessions)[i]
        invariant forall i | i in old(sessions) && i !in unvisited ::
                    i in sessions <==> old(sessions)[i].expiresAt >= now
        decreases |unvisited|
      {
        var i :| i in unvisited;
        unvisited := unvisited - {i};
        if sessions[i].expiresAt < now {
          sessions := sessions - {i};
        }
      }
    }

    method DeleteAllSessionsForUser(confirmation: nat)
      requires confirmation < |confirmations| && !confirmations[confirmation].finished
      modifies this`sessions, this`confirmations
      ensures State() == Step(old(State()), DeleteSessions(confirmation))
    {
      var userId := confirmations[confirmation].user;
      sessions := map i | i in sessions && sessions[i].user != userId :: sessions[i];
      confirmations := confirmations[confirmation := confirmations[confirmation].(finished := true)];
    }
  }

  // ----- Surplus sessions --------------------------------------------------------------------

  /** The surplus are the oldest sessions, as many as are above four. */
  lemma SurplusIsOldest(ids: set<nat>, oldest: set<nat>)
    requires oldest <= ids
    requires |oldest| == if |ids| >= MAX_SESSIONS_PER_USER then |ids| - MAX_SESSIONS_PER_USER + 1 else 0
    requires forall e: nat, k: nat | e in oldest && k in ids - oldest :: e < k
    ensures oldest == Surplus(ids)
  {
    var kept := ids - oldest;
    assert |kept| == |ids| - |oldest|;
    forall i: nat | i in ids
      ensures i in oldest <==> |Newer(ids, i)| >= MAX_SESSIONS_PER_USER - 1
    {
      if i in oldest {
        Sets.SubsetIsSmaller(kept, Newer(ids, i));
      } else {
        Sets.SubsetIsSmaller(Newer(ids, i), kept - {i});
      }
    }
  }

  lemma {:induction false} LeastOf(ids: set<nat>) returns (least: nat)
    requires ids != {}
    ensures least in ids && forall i: nat | i in ids :: least <= i
    decreases |ids|
  {
    var some: nat :| some in ids;
    least := some;
    var rest := ids - {some};
    if rest != {} {
      least := LeastOf(rest);
      least := if some < least then some else least;
    }
    forall i: nat | i in ids
      ensures least <= i
    {
      assert i == some || i in rest;
    }
  }

  lemma SurplusLeavesFour(ids: set<nat>)
    ensures |ids - Surplus(ids)| <= MAX_SESSIONS_PER_USER - 1
  {
    var kept := ids - Surplus(ids);
    if kept != {} {
      var least := LeastOf(kept);
      Sets.SubsetIsSmaller(kept - {least}, Newer(ids, least));
    }
  }

  lemma ThreeSteps(s: Store, actions: seq<Action>)
    requires |actions| == 3
    ensures Run(s, actions) == Step(Step(Step(s, actions[0]), actions[1]), actions[2])
  {
    hide Step;
    var s1 := Step(s, actions[0]);
    var s2 := Step(s1, actions[1]);
    ResetRunsBySteps();
    Runs.RunVisits(Run, Step, actions, [s, s1, s2, Step(s2, actions[2])]);
  }

  lemma ResetRunsBySteps()
    ensures Runs.RunsBySteps(Run, Step)
  {
    hide Step;
  }

  lemma CapHolds(s: Store, l: nat, now: nat, ttlDays: nat)
    requires LoginIsAt(s, l, Checked)
    requires forall i: nat | i in s.sessions :: i < s.nextSession
    ensures var s' := Step(Step(Step(s, ListSessions(l)), EvictSurplus(l)), InsertSession(l, now, ttlDays));
            |SessionsOf(s', s.logins[l].user)| <= MAX_SESSIONS_PER_USER
  {
    hide Surplus;
    var user := s.logins[l].user;
    var own := SessionsOf(s, user);
    SurplusLeavesFour(own);
    var s' := Step(Step(Step(s, ListSessions(l)), EvictSurplus(l)), InsertSession(l, now, ttlDays));
    assert SessionsOf(s', user) == own - Surplus(own) + {s.nextSession};
  }

  // ----- The invariant -----------------------------------------------------------------------

  ghost predicate OwnersAgree(s: Store) {
    forall t | t in s.tokens :: t < |s.requests| && s.tokens[t].user == s.requests[t].user
  }

  predicate Unused(s: Store, t: nat) {
    t in s.tokens && !s.tokens[t].used
  }

  /** Of two unused tokens of one user, the request of the later one has not yet deleted the others. */
  ghost predicate LaterIsYoung(s: Store) {
    forall t: nat, u: nat | t < u && Unused(s, t) && Unused(s, u) && s.tokens[t].user == s.tokens[u].user ::
      u < |s.requests| && s.requests[u].stage == Created
  }

  /** A claimed token is used up, and no two claims took the same token. */
  ghost predicate ClaimsOnce(s: Store) {
    && (forall i | 0 <= i < |s.claims| :: s.claims[i].token < |s.requests| && !Unused(s, s.claims[i].token))
    && (forall i, j | 0 <= i < j < |s.claims| :: s.claims[i].token != s.claims[j].token)
  }

  /** The sessions that a confirmation saw are the user's, and are gone once it has finished. */
  ghost predicate SeenOk(s: Store, c: Confirmation) {
    && (forall i: nat | i in c.seen :: i < s.nextSession)
    && (forall i: nat | i in c.seen && i in s.sessions :: s.sessions[i].user == c.user && !c.finished)
  }

  ghost predicate SessionsOk(s: Store) {
    && (forall i: nat | i in s.sessions :: i < s.nextSession)
    && (forall c | 0 <= c < |s.confirmations| :: SeenOk(s, s.confirmations[c]))
  }

  ghost predicate Inv(s: Store) {
    OwnersAgree(s) && LaterIsYoung(s) && ClaimsOnce(s) && SessionsOk(s)
  }

  /** Tokens only disappear or get used, and no request leaves its first stage. */
  ghost predicate Shrinks(s: Store, s': Store) {
    && |s'.requests| == |s.requests|
    && (forall r | 0 <= r < |s.requests| ::
          && s'.requests[r].user == s.requests[r].user
          && (s.requests[r].stage == Created ==> s'.requests[r].stage == Created))
    && (forall t | t in s'.tokens :: t in s.tokens && s'.tokens[t].user == s.tokens[t].user
                                     && (Unused(s', t) ==> Unused(s, t)))
  }

  lemma ShrinkingKeepsTokens(s: Store, s': Store)
    requires OwnersAgree(s) && LaterIsYoung(s) && Shrinks(s, s')
    ensures OwnersAgree(s') && LaterIsYoung(s')
  {
  }

  lemma CreateKeepsTokens(s: Store, user: nat, now: nat)
    requires OwnersAgree(s) && LaterIsYoung(s)
    ensures OwnersAgree(Begun(s, user, now)) && LaterIsYoung(Begun(s, user, now))
  {
  }

  lemma DeleteKeepsTokens(s: Store, r: nat)
    requires OwnersAgree(s) && LaterIsYoung(s)
    ensures OwnersAgree(OthersDeleted(s, r)) && LaterIsYoung(OthersDeleted(s, r))
  {
  }

  lemma StepKeepsTokens(s: Store, a: Action)
    requires OwnersAgree(s) && LaterIsYoung(s)
    ensures OwnersAgree(Step(s, a)) && LaterIsYoung(Step(s, a))
  {
    hide OwnersAgree, LaterIsYoung, Begun, OthersDeleted;
    match a
    case CreateToken(user, now) =>
      CreateKeepsTokens(s, user, now);
    case DeleteOthers(r) =>
      DeleteKeepsTokens(s, r);
    case _ =>
      ShrinkingKeepsTokens(s, Step(s, a));
  }

  lemma StepKeepsClaims(s: Store, a: Action)
    requires OwnersAgree(s) && ClaimsOnce(s)
    ensures ClaimsOnce(Step(s, a))
  {
    var s' := Step(s, a);
    forall i | 0 <= i < |s'.claims|
      ensures s'.claims[i].token < |s'.requests| && !Unused(s', s'.claims[i].token)
    {
      if i < |s.claims| {
        assert !Unused(s, s.claims[i].token);
      }
    }
  }

  lemma StepKeepsSessions(s: Store, a: Action)
    requires SessionsOk(s)
    ensures SessionsOk(Step(s, a))
  {
    var s' := Step(s, a);
    forall c | 0 <= c < |s'.confirmations|
      ensures SeenOk(s', s'.confirmations[c])
    {
      if c < |s.confirmations| {
        assert SeenOk(s, s.confirmations[c]);
      }
    }
  }

  lemma InitialInv(s: Store)
    requires Initial(s)
    ensures Inv(s)
  {
  }

  lemma {:induction false} RunKeepsInv(s: Store, actions: seq<Action>)
    requires Inv(s)
    ensures Inv(Run(s, actions))
    decreases |actions|
  {
    hide OwnersAgree, LaterIsYoung, ClaimsOnce, SessionsOk, Step;
    if actions != [] {
      StepKeepsTokens(s, actions[0]);
      StepKeepsClaims(s, actions[0]);
      StepKeepsSessions(s, actions[0]);
      RunKeepsInv(Step(s, actions[0]), actions[1..]);
    }
  }

  // ----- Theorems about all interleavings ----------------------------------------------------

  /** Whenever no request of the user sits between creating and deleting, the user has at most one live link. */
  lemma AtMostOneLiveLink(start: Store, actions: seq<Action>, user: nat, t: nat, u: nat)
    requires Initial(start)
    requires forall r | 0 <= r < |Run(start, actions).requests| ::
               Run(start, actions).requests[r].user == user ==> Run(start, actions).requests[r].stage != Created
    requires Unused(Run(start, actions), t) && Run(start, actions).tokens[t].user == user
    requires Unused(Run(start, actions), u) && Run(start, actions).tokens[u].user == user
    ensures t == u
  {
    hide Run, ClaimsOnce, SessionsOk;
    InitialInv(start);
    RunKeepsInv(start, actions);
  }

  /** No token is claimed twice, and one that was claimed is refused from then on. */
  lemma ClaimedAtMostOnce(start: Store, actions: seq<Action>)
    requires Initial(start)
    ensures var s := Run(start, actions);
            && (forall i, j | 0 <= i < j < |s.claims| :: s.claims[i].token != s.claims[j].token)
            && (forall i, passwordHash, now | 0 <= i < |s.claims| ::
                  Step(s, ClaimToken(s.claims[i].token, passwordHash, now)) == s)
  {
    hide Run, OwnersAgree, LaterIsYoung, SessionsOk;
    InitialInv(start);
    RunKeepsInv(start, actions);
    var s := Run(start, actions);
    forall i, passwordHash, now | 0 <= i < |s.claims|
      ensures Step(s, ClaimToken(s.claims[i].token, passwordHash, now)) == s
    {
      assert !Unused(s, s.claims[i].token);
    }
  }

  /** The passwords that the claims of a log leave behind, one after the other. */
  function Replay(passwords: map<nat, string>, claims: seq<Claim>): map<nat, string> {
    if claims == [] then passwords
    else
      var last := claims[|claims| - 1];
      Replay(passwords, claims[..|claims| - 1])[last.user := last.passwordHash]
  }

  /** Every user's stored hash is the one of the latest successful claim for that user, or the original one. */
  lemma {:induction false} PasswordsFollowClaims(start: Store, passwords: map<nat, string>, actions: seq<Action>)
    requires start.passwords == Replay(passwords, start.claims)
    ensures Run(start, actions).passwords == Replay(passwords, Run(start, actions).claims)
    decreases |actions|
  {
    hide Step, Replay;
    if actions != [] {
      OneStepFollowsClaims(start, passwords, actions[0]);
      PasswordsFollowClaims(Step(start, actions[0]), passwords, actions[1..]);
    }
  }

  lemma OneStepFollowsClaims(s: Store, passwords: map<nat, string>, a: Action)
    requires s.passwords == Replay(passwords, s.claims)
    ensures Step(s, a).passwords == Replay(passwords, Step(s, a).claims)
  {
    if a.ClaimToken? {
      ClaimFollows(s, passwords, a.token, a.passwordHash, a.now);
    } else {
      hide Step, Replay;
      OthersLeaveClaims(s, a);
    }
  }

  lemma ClaimFollows(s: Store, passwords: map<nat, string>, t: nat, passwordHash: string, now: nat)
    requires s.passwords == Replay(passwords, s.claims)
    ensures Claimed(s, t, passwordHash, now).passwords == Replay(passwords, Claimed(s, t, passwordHash, now).claims)
  {
    hide SessionsOf, Claimable;
    var claims := Claimed(s, t, passwordHash, now).claims;
    if claims != s.claims {
      assert claims[..|claims| - 1] == s.claims;
    }
  }

  lemma OthersLeaveClaims(s: Store, a: Action)
    ensures a.ClaimToken? || (Step(s, a).passwords == s.passwords && Step(s, a).claims == s.claims)
  {
  }

  /** Once a confirmation has finished, no session that existed at its claim is left, nor ever returns. */
  lemma OldSessionsAreGone(start: Store, actions: seq<Action>, c: nat)
    requires Initial(start)
    requires c < |Run(start, actions).confirmations| && Run(start, actions).confirmations[c].finished
    ensures Run(start, actions).confirmations[c].seen !! Run(start, actions).sessions.Keys
  {
    hide Run, OwnersAgree, LaterIsYoung, ClaimsOnce;
    InitialInv(start);
    RunKeepsInv(start, actions);
    assert SeenOk(Run(start, actions), Run(start, actions).confirmations[c]);
  }
}
