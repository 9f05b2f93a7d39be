/**
  Which reset links survive the interleaving with other requests, and what a surviving link is good
  for.
 */
module ResetLinks {
  import opened ResetTokens

  // ----- Which links survive -----------------------------------------------------------------

  /** The action ends link r: another request of the user deletes it, its own mail fails, or it is claimed. */
  predicate Ends(s: Store, a: Action, r: nat)
    requires Unused(s, r)
  {
    match a
    case DeleteOthers(q) =>
      q != r && q < |s.requests| && s.requests[q].stage == Created && s.requests[q].user == s.tokens[r].user
    case MailResult(q, sent) => q == r && r < |s.requests| && s.requests[r].stage == Swept && !sent
    case ClaimToken(t, _, now) => t == r && s.tokens[r].expiresAt > now
    case _ => false
  }

  lemma EndsExactly(s: Store, a: Action, r: nat)
    requires Inv(s) && Unused(s, r)
    ensures Unused(Step(s, a), r) <==> !Ends(s, a, r)
  {
    hide LaterIsYoung, ClaimsOnce, SessionsOk;
  }

  lemma StepKeepsInv(s: Store, a: Action)
    requires Inv(s)
    ensures Inv(Step(s, a))
  {
    hide OwnersAgree, LaterIsYoung, ClaimsOnce, SessionsOk, Step;
    StepKeepsTokens(s, a);
    StepKeepsClaims(s, a);
    StepKeepsSessions(s, a);
  }

  ghost predicate EndsDuring(s: Store, actions: seq<Action>, r: nat)
    requires Inv(s) && Unused(s, r)
    decreases |actions|
  {
    if actions == [] then false
    else if Ends(s, actions[0], r) then true
    else
      StepKeepsInv(s, actions[0]);
      EndsExactly(s, actions[0], r);
      EndsDuring(Step(s, actions[0]), actions[1..], r)
  }

  lemma {:induction false} EndedForever(s: Store, actions: seq<Action>, r: nat)
    requires r < |s.requests| && !Unused(s, r)
    ensures !Unused(Run(s, actions), r)
    decreases |actions|
  {
    if actions != [] {
      EndedForever(Step(s, actions[0]), actions[1..], r);
    }
  }

  /** A live link is still live after a run exactly when no action of the run ended it. */
  lemma {:induction false} LinkLivesIff(s: Store, actions: seq<Action>, r: nat)
    requires Inv(s) && Unused(s, r)
    ensures Unused(Run(s, actions), r) <==> !EndsDuring(s, actions, r)
    decreases |actions|
  {
    hide LaterIsYoung, ClaimsOnce, SessionsOk, Step;
    if actions != [] {
      var next := Step(s, actions[0]);
      StepKeepsInv(s, actions[0]);
      EndsExactly(s, actions[0], r);
      if Ends(s, actions[0], r) {
        RequestsGrow(s, actions[0]);
        EndedForever(next, actions[1..], r);
      } else {
        LinkLivesIff(next, actions[1..], r);
      }
    }
  }

  lemma RequestsGrow(s: Store, a: Action)
    ensures |s.requests| <= |Step(s, a).requests|
  {
  }

  // ----- What a run never takes back ---------------------------------------------------------

  /** Requests keep their user, a failed mail stays failed, and the log of claims only grows. */
  ghost predicate Grows(s: Store, s': Store) {
    && |s.requests| <= |s'.requests| && |s.claims| <= |s'.claims|
    && (forall r | 0 <= r < |s.requests| ::
          && s'.requests[r].user == s.requests[r].user
          && (s.requests[r].stage == MailFailed ==> s'.requests[r].stage == MailFailed))
    && (forall i | 0 <= i < |s.claims| :: s'.claims[i] == s.claims[i])
  }

  lemma StepGrows(s: Store, a: Action)
    ensures Grows(s, Step(s, a))
  {
  }

  lemma {:induction false} RunGrows(s: Store, actions: seq<Action>)
    ensures Grows(s, Run(s, actions))
    decreases |actions|
  {
    hide Step;
    if actions != [] {
      StepGrows(s, actions[0]);
      RunGrows(Step(s, actions[0]), actions[1..]);
    }
  }

  /** A token keeps its user and the moment it expires for as long as it exists. */
  lemma {:induction false} ExpiryNeverChanges(s: Store, actions: seq<Action>, t: nat)
    requires t < |s.requests| && t in Run(s, actions).tokens
    ensures t in s.tokens
    ensures Run(s, actions).tokens[t].user == s.tokens[t].user
    ensures Run(s, actions).tokens[t].expiresAt == s.tokens[t].expiresAt
    decreases |actions|
  {
    hide Step;
    if actions != [] {
      StepKeepsExpiry(s, actions[0], t);
      ExpiryNeverChanges(Step(s, actions[0]), actions[1..], t);
    }
  }

  lemma StepKeepsExpiry(s: Store, a: Action, t: nat)
    requires t < |s.requests|
    ensures t < |Step(s, a).requests|
    ensures t in Step(s, a).tokens ==>
              && t in s.tokens && Step(s, a).tokens[t].user == s.tokens[t].user
              && Step(s, a).tokens[t].expiresAt == s.tokens[t].expiresAt
  {
  }

  // ----- Requests that work ------------------------------------------------------------------

  predicate NewestOf(s: Store, user: nat, r: nat) {
    forall q | r < q < |s.requests| :: s.requests[q].user != user
  }

  /** Nothing in the run ends the link of the request that begins it. */
  ghost predicate Undisturbed(s: Store, user: nat, now: nat, actions: seq<Action>)
    requires Inv(s)
  {
    StepKeepsInv(s, CreateToken(user, now));
    !EndsDuring(Begun(s, user, now), actions, |s.requests|)
  }

  /**
    A request whose link nothing ends, whatever else happens around its three steps, leaves it as the
    only live link of the user once it has deleted the others and no newer request was made. The link
    is good for an hour from its creation, and claiming it sets the password.
   */
  lemma UndisturbedRequestWorks(s: Store, user: nat, now: nat, actions: seq<Action>, passwordHash: string, at: nat)
    requires Inv(s) && Undisturbed(s, user, now, actions)
    requires NewestOf(Run(Begun(s, user, now), actions), user, |s.requests|)
    requires |s.requests| < |Run(Begun(s, user, now), actions).requests|
    requires Run(Begun(s, user, now), actions).requests[|s.requests|].stage != Created
    ensures var f, r := Run(Begun(s, user, now), actions), |s.requests|;
            && (Claimable(f, r, at) <==> at < now + TOKEN_TTL_MS)
            && (forall t: nat | Unused(f, t) && f.tokens[t].user == user :: t == r)
            && (at < now + TOKEN_TTL_MS ==>
                  && user in Step(f, ClaimToken(r, passwordHash, at)).passwords
                  && Step(f, ClaimToken(r, passwordHash, at)).passwords[user] == passwordHash)
  {
    hide Run, ClaimsOnce, SessionsOk, EndsDuring;
    var begun, r := Begun(s, user, now), |s.requests|;
    StepKeepsInv(s, CreateToken(user, now));
    LinkLivesIff(begun, actions, r);
    RunKeepsInv(begun, actions);
    ExpiryNeverChanges(begun, actions, r);
  }

  /** No other request of the user sits between creating its token and deleting the others. */
  predicate NoneBetween(s: Store, user: nat, r: nat) {
    forall q | 0 <= q < |s.requests| && q != r && s.requests[q].user == user :: s.requests[q].stage != Created
  }

  predicate NeverClaimed(s: Store, r: nat) {
    forall i | 0 <= i < |s.claims| :: s.claims[i].token != r
  }

  /** All requests of the user have done their deletion; r is the newest, unclaimed, its mail not failed. */
  predicate AllSettled(s: Store, user: nat, r: nat) {
    && r < |s.requests| && s.requests[r].user == user && s.requests[r].stage != MailFailed
    && NewestOf(s, user, r) && NeverClaimed(s, r)
    && forall q | 0 <= q < |s.requests| && s.requests[q].user == user :: s.requests[q].stage != Created
  }

  lemma StepEndsOrSettles(s: Store, a: Action, user: nat, r: nat, f: Store)
    requires Inv(s) && Unused(s, r) && r < |s.requests| && s.requests[r].user == user
    requires Grows(Step(s, a), f) && AllSettled(f, user, r)
    ensures Ends(s, a, r) ==> !NoneBetween(s, user, r)
    ensures !Ends(s, a, r) ==> (NoneBetween(Step(s, a), user, r) <==> NoneBetween(s, user, r))
  {
    hide LaterIsYoung, ClaimsOnce, SessionsOk, Inv;
    assert s.tokens[r].user == user by { OwnerIsRequester(s, r); }
    EndingIsRecorded(s, a, r);
    var next := Step(s, a);
    match a
    case CreateToken(other, now) =>
      assert other != user by {
        assert next.requests[|s.requests|].user == other;
        assert f.requests[|s.requests|].user == other;
      }
      SameBetween(s, next, user, r);
    case DeleteOthers(q) =>
      if q < |s.requests| && s.requests[q].stage == Created && (q == r || s.requests[q].user != user) {
        SameBetween(s, next, user, r);
      } else if q < |s.requests| && s.requests[q].stage == Created {
        assert Ends(s, a, r);
      }
    case MailResult(q, sent) =>
      SameBetween(s, next, user, r);
    case ClaimToken(t, _, _) =>
    case _ =>
  }

  /** A failed mail and a claim leave a trace. */
  lemma EndingIsRecorded(s: Store, a: Action, r: nat)
    requires Unused(s, r) && r < |s.requests|
    ensures a.MailResult? && Ends(s, a, r) ==> r < |Step(s, a).requests| && Step(s, a).requests[r].stage == MailFailed
    ensures a.ClaimToken? && Ends(s, a, r) ==>
              exists i | 0 <= i < |Step(s, a).claims| :: Step(s, a).claims[i].token == r
  {
    if a.ClaimToken? && Ends(s, a, r) {
      assert Step(s, a).claims[|s.claims|].token == r;
    }
  }

  lemma SameBetween(s: Store, s': Store, user: nat, r: nat)
    requires |s.requests| <= |s'.requests|
    requires forall q | |s.requests| <= q < |s'.requests| :: s'.requests[q].user != user
    requires forall q | 0 <= q < |s.requests| && q != r ::
               s'.requests[q].user == s.requests[q].user
               && (s.requests[q].user == user ==> (s'.requests[q].stage == Created <==> s.requests[q].stage == Created))
    ensures NoneBetween(s', user, r) <==> NoneBetween(s, user, r)
  {
    forall q | 0 <= q < |s.requests| && q != r && s.requests[q].user == user
      ensures s'.requests[q].user == user && (s'.requests[q].stage == Created <==> s.requests[q].stage == Created)
    {
    }
  }

  lemma OwnerIsRequester(s: Store, r: nat)
    requires Inv(s) && Unused(s, r)
    ensures r < |s.requests| && s.tokens[r].user == s.requests[r].user
  {
  }

  lemma {:induction false} SurvivalWasDecided(s: Store, actions: seq<Action>, user: nat, r: nat)
    requires Inv(s) && Unused(s, r) && r < |s.requests| && s.requests[r].user == user
    requires AllSettled(Run(s, actions), user, r)
    ensures Unused(Run(s, actions), r) <==> NoneBetween(s, user, r)
    decreases |actions|
  {
    hide Inv, Step, AllSettled, NoneBetween, Grows, Ends;
    if actions == [] {
      SettledMeansNoneBetween(s, user, r);
    } else {
      var next := Step(s, actions[0]);
      RunGrows(next, actions[1..]);
      StepEndsOrSettles(s, actions[0], user, r, Run(s, actions));
      EndsExactly(s, actions[0], r);
      StepKeepsInv(s, actions[0]);
      RequestStays(s, actions[0], r);
      if Ends(s, actions[0], r) {
        EndedForever(next, actions[1..], r);
      } else {
        SurvivalWasDecided(next, actions[1..], user, r);
      }
    }
  }

  lemma RequestStays(s: Store, a: Action, r: nat)
    requires r < |s.requests|
    ensures r < |Step(s, a).requests| && Step(s, a).requests[r].user == s.requests[r].user
  {
  }

  lemma SettledMeansNoneBetween(s: Store, user: nat, r: nat)
    requires AllSettled(s, user, r)
    ensures NoneBetween(s, user, r)
  {
  }

  /**
    Whether a request that ends well leaves a live link was decided when it created its token. Let it
    be the newest request of the user, its mail not failed and its token never claimed, and let all
    requests of the user have done their deletion. Then the link lives if and only if, at its creation,
    no other request of the user was between creating and deleting.
   */
  lemma CreationDecides(s: Store, user: nat, now: nat, actions: seq<Action>)
    requires Inv(s) && AllSettled(Run(Begun(s, user, now), actions), user, |s.requests|)
    ensures Unused(Run(Begun(s, user, now), actions), |s.requests|)
            <==> forall q | 0 <= q < |s.requests| && s.requests[q].user == user :: s.requests[q].stage != Created
  {
    hide Run, AllSettled;
    var begun := Begun(s, user, now);
    StepKeepsInv(s, CreateToken(user, now));
    SurvivalWasDecided(begun, actions, user, |s.requests|);
    assert forall q | 0 <= q < |s.requests| :: begun.requests[q] == s.requests[q];
  }

  /** Two overlapping requests: each deletes the other's token, both mails go out, and neither link works. */
  function Crossing(user: nat): seq<Action> {
    [CreateToken(user, 0), CreateToken(user, 1), DeleteOthers(0), DeleteOthers(1),
     MailResult(0, true), MailResult(1, true)]
  }

  lemma CrossingLeavesNoLink(start: Store, user: nat)
    requires Initial(start)
    ensures var s := Run(start, Crossing(user));
            s.requests == [Request(user, Mailed), Request(user, Mailed)] && s.tokens == map[]
  {
    var first, second := Token(user, TOKEN_TTL_MS, false), Token(user, 1 + TOKEN_TTL_MS, false);
    var s1 := start.(requests := [Request(user, Created)], tokens := map[0 := first]);
    var s2 := start.(requests := [Request(user, Created), Request(user, Created)],
                     tokens := map[0 := first, 1 := second]);
    var s3 := start.(requests := [Request(user, Swept), Request(user, Created)], tokens := map[0 := first]);
    var s4 := start.(requests := [Request(user, Swept), Request(user, Swept)]);
    var s5 := start.(requests := [Request(user, Mailed), Request(user, Swept)]);
    var s6 := start.(requests := [Request(user, Mailed), Request(user, Mailed)]);
    FirstDeletes(s2, user, first, second);
    SecondDeletes(s3, user, first);
    hide Others, OthersDeleted;
    assert Step(start, CreateToken(user, 0)) == s1;
    assert Step(s1, CreateToken(user, 1)) == s2;
    assert Step(s4, MailResult(0, true)) == s5;
    assert Step(s5, MailResult(1, true)) == s6;
    ResetRunsBySteps();
    hide Step, Begun, MailDone;
    Runs.RunVisits(Run, Step, Crossing(user), [start, s1, s2, s3, s4, s5, s6]);
  }

  lemma FirstDeletes(s: Store, user: nat, first: Token, second: Token)
    requires s.requests == [Request(user, Created), Request(user, Created)] && s.tokens == map[0 := first, 1 := second]
    requires first.user == user && second.user == user && !first.used && !second.used
    ensures OthersDeleted(s, 0)
            == s.(requests := [Request(user, Swept), Request(user, Created)], tokens := map[0 := first])
  {
    assert Others(s.tokens, user, 0) == {1};
    assert s.tokens - {1} == map[0 := first];
  }

  lemma SecondDeletes(s: Store, user: nat, first: Token)
    requires s.requests == [Request(user, Swept), Request(user, Created)] && s.tokens == map[0 := first]
    requires first.user == user && !first.used
    ensures OthersDeleted(s, 1) == s.(requests := [Request(user, Swept), Request(user, Swept)], tokens := map[])
  {
    assert Others(s.tokens, user, 1) == {0};
  }
}
