/**
  What each step of a reset and of a login does to the rows, in plain numbers and row by row.
 */
module ResetAnswers {
  import opened ResetTokens

  /** A link lasts 3,600,000 milliseconds, and is the only token that a request adds. */
  lemma RequestAddsToken(s: Store, user: nat, now: nat)
    ensures var s', r := Step(s, CreateToken(user, now)), |s.requests|;
            && s' == s.(requests := s.requests + [Request(user, Created)], tokens := s'.tokens)
            && s'.tokens.Keys == s.tokens.Keys + {r} && s'.tokens[r] == Token(user, now + 3_600_000, false)
            && forall t | t in s.tokens && t != r :: s'.tokens[t] == s.tokens[t]
  {
  }

  /** The sweep of a request deletes the user's other unused tokens, and keeps used ones and those of others. */
  lemma SweepKeeps(s: Store, r: nat)
    requires r < |s.requests| && s.requests[r].stage == Created
    ensures var s', user := Step(s, DeleteOthers(r)), s.requests[r].user;
            && s' == s.(requests := s'.requests, tokens := s'.tokens)
            && s'.requests == s.requests[r := Request(user, Swept)]
            && forall t :: t in s'.tokens <==>
                 t in s.tokens && (t == r || s.tokens[t].used || s.tokens[t].user != user)
    ensures forall t | t in Step(s, DeleteOthers(r)).tokens :: Step(s, DeleteOthers(r)).tokens[t] == s.tokens[t]
  {
  }

  /** A mail that fails deletes its own token only; one that is sent deletes none. */
  lemma MailKeeps(s: Store, r: nat, sent: bool)
    requires r < |s.requests| && s.requests[r].stage == Swept
    ensures var s' := Step(s, MailResult(r, sent));
            && s' == s.(requests := s'.requests, tokens := s'.tokens)
            && s'.requests == s.requests[r := Request(s.requests[r].user, if sent then Mailed else MailFailed)]
            && (forall t :: t in s'.tokens <==> t in s.tokens && (sent || t != r))
            && forall t | t in s'.tokens :: s'.tokens[t] == s.tokens[t]
  {
  }

  /** A claim takes an unused token before it expires, and sets the password of its user and no other. */
  lemma ClaimTakesIff(s: Store, t: nat, passwordHash: string, now: nat)
    ensures var s' := Step(s, ClaimToken(t, passwordHash, now));
            if t in s.tokens && !s.tokens[t].used && now < s.tokens[t].expiresAt then
              var user := s.tokens[t].user;
              && s' == s.(tokens := s'.tokens, passwords := s'.passwords,
                          confirmations := s'.confirmations, claims := s'.claims)
              && s'.tokens.Keys == s.tokens.Keys && s'.tokens[t] == s.tokens[t].(used := true)
              && (forall u | u in s.tokens && u != t :: s'.tokens[u] == s.tokens[u])
              && s'.passwords.Keys == s.passwords.Keys + {user} && s'.passwords[user] == passwordHash
              && (forall u | u in s.passwords && u != user :: s'.passwords[u] == s.passwords[u])
              && s'.claims == s.claims + [Claim(t, user, passwordHash)]
              && |s'.confirmations| == |s.confirmations| + 1 && s'.confirmations[..|s.confirmations|] == s.confirmations
              && var c := s'.confirmations[|s.confirmations|];
              && c.user == user && !c.finished
              && forall i: nat :: i in c.seen <==> i in s.sessions && s.sessions[i].user == user
            else s' == s
  {
  }

  /** The confirmation deletes all sessions of its user, once, and none of others. */
  lemma ConfirmationDeletes(s: Store, c: nat)
    requires c < |s.confirmations| && !s.confirmations[c].finished
    ensures var s' := Step(s, DeleteSessions(c));
            && s' == s.(confirmations := s.confirmations[c := s.confirmations[c].(finished := true)],
                        sessions := s'.sessions)
            && (forall i :: i in s'.sessions <==> i in s.sessions && s.sessions[i].user != s.confirmations[c].user)
            && forall i | i in s'.sessions :: s'.sessions[i] == s.sessions[i]
  {
  }

  /** A login goes on exactly when the password fits the hash stored at that moment. */
  lemma LoginBeginsIff(s: Store, user: nat, passwordHash: string)
    ensures var s' := Step(s, CheckPassword(user, passwordHash));
            if user in s.passwords && s.passwords[user] == passwordHash
            then s' == s.(logins := s'.logins) && |s'.logins| == |s.logins| + 1 && s'.logins[..|s.logins|] == s.logins
                 && s'.logins[|s.logins|].user == user && s'.logins[|s.logins|].checkedWith == passwordHash
                 && s'.logins[|s.logins|].stage == Checked
            else s' == s
  {
  }

  /** It lists all but the four newest sessions of the user, and none of fewer than five. */
  lemma LoginLists(s: Store, l: nat)
    requires LoginIsAt(s, l, Checked)
    ensures var s', own := Step(s, ListSessions(l)), SessionsOf(s, s.logins[l].user);
            var surplus := s'.logins[l].surplus;
            && s' == s.(logins := s.logins[l := s'.logins[l]]) && s'.logins[l].stage == Listed
            && s'.logins[l].listedAt == s.nextSession
            && s'.logins[l].user == s.logins[l].user && s'.logins[l].checkedWith == s.logins[l].checkedWith
            && surplus <= own
            && |own - surplus| == (if |own| < 5 then |own| else 4)
            && forall e: nat, k: nat | e in surplus && k in own - surplus :: e < k
  {
    var own := SessionsOf(s, s.logins[l].user);
    var oldest := OldestExist(own, if |own| < 5 then 0 else |own| - 4);
    hide SessionsOf, Surplus;
    SurplusIsOldest(own, oldest);
    assert |own - oldest| == |own| - |oldest|;
  }

  lemma {:induction false} OldestExist(ids: set<nat>, n: nat) returns (oldest: set<nat>)
    requires n <= |ids|
    ensures oldest <= ids && |oldest| == n
    ensures forall e: nat, k: nat | e in oldest && k in ids - oldest :: e < k
    decreases n
  {
    if n == 0 {
      oldest := {};
    } else {
      var least := LeastOf(ids);
      var rest := OldestExist(ids - {least}, n - 1);
      oldest := rest + {least};
      forall e: nat, k: nat | e in oldest && k in ids - oldest
        ensures e < k
      {
        assert k in ids - {least} - rest;
      }
    }
  }

  /** The listed sessions go, whatever else has happened, and a new one comes that lasts whole days. */
  lemma LoginEvicts(s: Store, l: nat)
    requires LoginIsAt(s, l, Listed)
    ensures var s' := Step(s, EvictSurplus(l));
            && s' == s.(logins := s.logins[l := s.logins[l].(stage := Evicted)], sessions := s'.sessions)
            && (forall i :: i in s'.sessions <==> i in s.sessions && i !in s.logins[l].surplus)
            && forall i | i in s'.sessions :: s'.sessions[i] == s.sessions[i]
  {
  }

  lemma LoginInserts(s: Store, l: nat, now: nat, ttlDays: nat)
    requires LoginIsAt(s, l, Evicted)
    ensures var s', n := Step(s, InsertSession(l, now, ttlDays)), s.nextSession;
            && s' == s.(logins := s.logins[l := s.logins[l].(stage := Opened)],
                        sessions := s'.sessions, nextSession := n + 1)
            && s'.sessions.Keys == s.sessions.Keys + {n} && s'.sessions[n].user == s.logins[l].user
            && s'.sessions[n].checkedWith == s.logins[l].checkedWith
            && s'.sessions[n].expiresAt == now + ttlDays * 86_400_000
            && forall i | i in s.sessions && i != n :: s'.sessions[i] == s.sessions[i]
  {
  }

  /** A session outlives every purge up to the moment it expires, and none after it; logout ends just the one. */
  lemma SessionsEnd(s: Store, i: nat, j: nat, now: nat)
    requires i in s.sessions
    ensures i in Step(s, PurgeExpired(now)).sessions <==> now <= s.sessions[i].expiresAt
    ensures i in Step(s, DeleteSession(j)).sessions <==> i != j
    ensures forall a | a in {PurgeExpired(now), DeleteSession(j)} ::
              var s' := Step(s, a);
              s' == s.(sessions := s'.sessions) && s'.sessions.Keys <= s.sessions.Keys
              && forall k | k in s'.sessions :: s'.sessions[k] == s.sessions[k]
  {
  }
}
