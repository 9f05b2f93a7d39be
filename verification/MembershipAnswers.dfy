/**
  What each membership request gets: exactly when it is taken and what is then stored; and over all
  runs, that addresses are unique, that only an invitation addressed to a user moves that user to
  another workspace, and that it does so once.
 */
module MembershipAnswers {
  import opened Options
  import opened Membership
  import Runs

  predicate IsNewEmail(s: Store, email: string) {
    forall u | 0 <= u < |s.users| :: s.users[u].email != email
  }

  lemma NewEmail(s: Store, email: string)
    ensures IsNewEmail(s, email) <==> !EmailInUse(s, email)
  {
  }

  // ----- Registration and joining ------------------------------------------------------------

  /** A registration needs the consents to terms, data processing and child data, and a new address. */
  lemma RegistrationIsTakenIff(s: Store, a: Action)
    requires a.Register?
    ensures var outcome, agreed := Step(s, a).1, {Terms, DataProcessing, ChildData} <= a.consents;
            && (outcome == Done <==> agreed && IsNewEmail(s, a.email))
            && (outcome == Refused("required_consents_missing") <==> !agreed)
            && (outcome != Done && agreed ==> outcome == Refused("email_in_use"))
            && (outcome != Done ==> Next(s, a) == s)
  {
  }

  /** It founds a workspace with the user as its parentA, and saves each of the six consents as given. */
  lemma RegistrationIsStored(s: Store, a: Action)
    requires a.Register? && Step(s, a).1 == Done
    ensures var s', u, w := Next(s, a), |s.users|, |s.codeExpiry|;
            && s'.users == s.users + [s'.users[u]] && s'.codeExpiry == s.codeExpiry + [a.expiry]
            && s'.users[u].workspace == w && s'.users[u].role == ParentA && s'.users[u].email == a.email
            && s'.users[u].passwordHash == a.passwordHash && s'.users[u].active && s'.users[u].profile == None
            && s' == s.(users := s'.users, codeExpiry := s'.codeExpiry, rows := s'.rows)
            && (forall r :: r in s'.rows <==>
                  r in s.rows
                  || (r.owner == u && r.kind.ConsentRow? && r.kind.id == 0
                      && (r.kind.granted <==> r.kind.consent in a.consents)))
  {
    hide EmailInUse;
    var s' := Next(s, a);
    forall r: Row |
        && r.owner == |s.users| && r.kind.ConsentRow? && r.kind.id == 0
        && (r.kind.granted <==> r.kind.consent in a.consents)
      ensures r in ConsentRows(|s.users|, a.consents)
    {
      assert r == Row(|s.users|, ConsentRow(r.kind.consent, r.kind.consent in a.consents, 0));
    }
  }

  /** A parent joins with a new address a workspace without an active parentB, on a code that has not expired. */
  lemma JoinIsTakenIff(s: Store, a: Action)
    requires a.JoinAsParent?
    ensures var outcome, w := Step(s, a).1, a.workspace;
            && (outcome == Done <==>
                  && IsNewEmail(s, a.email) && w < |s.codeExpiry| && MembersAs(s, w, ParentB) == {}
                  && a.now <= s.codeExpiry[w])
            && (outcome == Refused("email_in_use") <==> !IsNewEmail(s, a.email))
            && (outcome != Done ==> Next(s, a) == s)
            && (outcome == Done ==>
                  Next(s, a) == s.(users := s.users + [User(w, ParentB, a.email, a.passwordHash, true, None)]))
  {
    var w := a.workspace;
    if WorkspaceHasParentB(s, w) {
      var u: nat :| u < |s.users| && s.users[u].active && s.users[u].workspace == w && s.users[u].role == ParentB;
      assert u in MembersAs(s, w, ParentB);
    }
  }

  /** A child joins with a new address the workspace of its profile, unless the profile has an account. */
  lemma ChildJoinIsTakenIff(s: Store, a: Action)
    requires a.JoinAsChild?
    ensures var outcome, w := Step(s, a).1, a.workspace;
            && (outcome == Done <==>
                  && IsNewEmail(s, a.email) && w < |s.codeExpiry| && a.profile.Some?
                  && a.profile.value < |s.children| && s.children[a.profile.value] == ChildProfile(w, true)
                  && forall u | 0 <= u < |s.users| :: s.users[u].profile != a.profile)
            && (outcome == Refused("email_in_use") <==> !IsNewEmail(s, a.email))
            && (outcome != Done ==> Next(s, a) == s)
            && (outcome == Done ==>
                  Next(s, a) == s.(users := s.users + [User(w, Child, a.email, a.passwordHash, true, a.profile)]))
  {
  }

  // ----- Invitations -------------------------------------------------------------------------

  /** An active parent invites any address but the own one in another case, from a workspace that exists. */
  lemma InviteIsSentIff(s: Store, a: Action)
    requires a.SendInvite?
    ensures var outcome := Step(s, a).1;
            && (outcome == Done <==>
                  && a.inviter < |s.users| && s.users[a.inviter].active
                  && (s.users[a.inviter].role == ParentA || s.users[a.inviter].role == ParentB)
                  && Lower(a.email) != Lower(s.users[a.inviter].email)
                  && s.users[a.inviter].workspace < |s.codeExpiry|)
            && (outcome != Done ==> Next(s, a) == s)
  {
    hide Lower;
  }

  /** The invitation is pending, in lower case and of the inviter, and an expired code is renewed. */
  lemma InviteIsStored(s: Store, a: Action)
    requires a.SendInvite? && Step(s, a).1 == Done
    ensures var s', w := Next(s, a), s.users[a.inviter].workspace;
            && s' == s.(invites := s'.invites, codeExpiry := s'.codeExpiry)
            && s'.invites == s.invites + [Invite(Lower(a.email), a.inviter, Pending, a.expiresAt)]
            && |s'.codeExpiry| == |s.codeExpiry|
            && s'.codeExpiry[w] == (if s.codeExpiry[w] < a.now then a.newExpiry else s.codeExpiry[w])
            && forall v | 0 <= v < |s.codeExpiry| && v != w :: s'.codeExpiry[v] == s.codeExpiry[v]
  {
    hide Lower;
  }

  /** The two addresses agree when each character of one is that of the other, but for the case of A to Z. */
  predicate SameAddress(a: string, b: string) {
    |a| == |b| && forall i | 0 <= i < |a| :: SameLetter(a[i], b[i])
  }

  predicate SameLetter(c: char, d: char) {
    || c == d
    || ('A' <= c <= 'Z' && d as int == c as int + 32)
    || ('A' <= d <= 'Z' && c as int == d as int + 32)
  }

  lemma LowerIgnoresCase(a: string, b: string)
    ensures Lower(a) == Lower(b) <==> SameAddress(a, b)
  {
    if Lower(a) == Lower(b) {
      forall i | 0 <= i < |a|
        ensures SameLetter(a[i], b[i])
      {
        assert Lower(a)[i] == Lower(b)[i];
      }
    }
  }

  /** The invitation is one that this user can accept at that moment. */
  predicate CanAccept(s: Store, user: nat, i: nat, now: nat) {
    && user < |s.users| && s.users[user].active
    && i < |s.invites| && s.invites[i].status == Pending && now <= s.invites[i].expiresAt
    && s.invites[i].inviter < |s.users|
    && SameAddress(s.users[user].email, s.invites[i].email)
    && |Members(s, s.users[user].workspace)| <= 1
    && |Members(s, s.users[s.invites[i].inviter].workspace)| < 2
  }

  /** A refusal changes no user, and of the invitations at most expires the one that was too old. */
  lemma InviteIsAcceptedIff(s: Store, user: nat, i: nat, now: nat)
    ensures var (s', outcome) := Step(s, AcceptInvite(user, i, now));
            && (outcome == Done <==> CanAccept(s, user, i, now))
            && (outcome != Done ==>
                  s' == if outcome == Refused("invite_expired")
                        then s.(invites := s.invites[i := s.invites[i].(status := Expired)]) else s)
            && (outcome == Refused("invite_expired") <==>
                  && user < |s.users| && s.users[user].active
                  && i < |s.invites| && s.invites[i].status == Pending && s.invites[i].expiresAt < now)
  {
    hide Members, Lower;
    if user < |s.users| && i < |s.invites| {
      LowerIgnoresCase(s.users[user].email, s.invites[i].email);
    }
  }

  /** The user becomes parentB of the inviter's workspace, the invitation is accepted, and nothing else changes. */
  lemma AcceptanceIsStored(s: Store, user: nat, i: nat, now: nat)
    requires CanAccept(s, user, i, now)
    ensures var s' := Next(s, AcceptInvite(user, i, now));
            && s' == s.(users := s'.users, invites := s'.invites)
            && |s'.users| == |s.users| && |s'.invites| == |s.invites|
            && s'.users[user].workspace == s.users[s.invites[i].inviter].workspace && s'.users[user].role == ParentB
            && s'.users[user].(workspace := s.users[user].workspace, role := s.users[user].role) == s.users[user]
            && (forall u | 0 <= u < |s.users| && u != user :: s'.users[u] == s.users[u])
            && s'.invites[i] == s.invites[i].(status := Accepted)
            && forall j | 0 <= j < |s.invites| && j != i :: s'.invites[j] == s.invites[j]
  {
    hide Members, Lower;
    InviteIsAcceptedIff(s, user, i, now);
  }

  // ----- Deletion and rows -------------------------------------------------------------------

  /** An active user deletes the account with the right password, if the placeholder address is free. */
  lemma DeletionIsTakenIff(s: Store, a: Action)
    requires a.DeleteAccount?
    ensures var (s', outcome) := Step(s, a);
            && (outcome == Done <==>
                  && a.user < |s.users| && s.users[a.user].active && s.users[a.user].passwordHash == a.passwordHash
                  && forall u | 0 <= u < |s.users| && u != a.user :: s.users[u].email != a.placeholder)
            && (outcome != Done ==> s' == s)
  {
  }

  lemma DeletionIsStored(s: Store, a: Action)
    requires a.DeleteAccount? && Step(s, a).1 == Done
    ensures var s', u := Next(s, a), a.user;
            && s' == s.(users := s'.users, invites := s'.invites, rows := s'.rows)
            && s'.users == s.users[u := s.users[u].(active := false, email := a.placeholder, passwordHash := a.newHash)]
            && (forall r :: r in s'.rows <==> r in s.rows && r.owner != u)
            && |s'.invites| == |s.invites|
            && forall i | 0 <= i < |s.invites| ::
                 s'.invites[i] == if s.invites[i].inviter == u && s.invites[i].status == Pending
                                  then s.invites[i].(status := Expired) else s.invites[i]
  {
  }

  /** A child of the workspace is deleted, and its account, if it has one, is closed and leaves the profile. */
  lemma ChildDeletionIsStored(s: Store, w: nat, child: nat, placeholder: string)
    ensures var (s', outcome) := Step(s, DeleteChild(w, child, placeholder));
            && (outcome == Refused("child_not_found") <==>
                  !(child < |s.children| && s.children[child] == ChildProfile(w, true)))
            && (outcome != Done ==> s' == s)
            && (outcome == Done ==>
                  && s' == s.(users := s'.users, children := s.children[child := ChildProfile(w, false)])
                  && |s'.users| == |s.users|
                  && forall u | 0 <= u < |s.users| ::
                       s'.users[u] == if s.users[u].profile == Some(child)
                                      then s.users[u].(active := false, email := placeholder, profile := None)
                                      else s.users[u])
  {
    hide IsFreeFor;
  }

  /** An open account changes a consent, but cannot withhold a required one. */
  lemma ConsentIsStoredIff(s: Store, user: nat, consent: Consent, granted: bool, id: nat)
    ensures var (s', outcome) := Step(s, UpdateConsent(user, consent, granted, id));
            && (outcome == Done <==>
                  && user < |s.users| && s.users[user].active
                  && (granted || consent == EmailNotifications || consent == Marketing || consent == Analytics))
            && s' == (if outcome == Done then s.(rows := s.rows + {Row(user, ConsentRow(consent, granted, id))}) else s)
  {
  }

  /** A parent replaces the own tags of a message, and no other row. */
  lemma TagsAreStoredIff(s: Store, user: nat, message: nat, tags: set<string>)
    ensures var (s', outcome) := Step(s, SetTags(user, message, tags));
            && (outcome == Done <==> user < |s.users| && s.users[user].active && s.users[user].role != Child)
            && s' == s.(rows := s'.rows)
            && (outcome != Done ==> s' == s)
            && (outcome == Done ==> forall r :: r in s'.rows <==>
                  if r.owner == user && r.kind.MessageTag? && r.kind.message == message then r.kind.tag in tags
                  else r in s.rows)
  {
    if Step(s, SetTags(user, message, tags)).1 == Done {
      forall r: Row | r.owner == user && r.kind.MessageTag? && r.kind.message == message && r.kind.tag in tags
        ensures r in set tag | tag in tags :: Row(user, MessageTag(message, tag))
      {
        assert r == Row(user, MessageTag(message, r.kind.tag));
      }
    }
  }

  /** The creator may open the thread: anyone the family's, only a parent another. */
  predicate MayOpen(s: Store, creator: nat, channel: Channel) {
    creator < |s.users| && s.users[creator].active && (channel == Family || s.users[creator].role != Child)
  }

  predicate Exists(s: Store, w: nat, channel: Channel) {
    && channel != Topic
    && exists t | 0 <= t < |s.threads| :: s.threads[t].workspace == w && s.threads[t].channel == channel
  }

  /**
    A channel that is there is returned as it is. Otherwise the thread is added, with the keys that were
    given, which must be for the active parents, one each; the schedule channel ignores keys.
   */
  lemma ThreadIsStoredIff(s: Store, creator: nat, channel: Channel, keys: seq<nat>)
    ensures var (s', outcome) := Step(s, CreateThread(creator, channel, keys));
            && (outcome != Done ==> s' == s)
            && (!MayOpen(s, creator, channel) ==> outcome != Done)
            && (MayOpen(s, creator, channel) ==>
                  var w, t := s.users[creator].workspace, |s.threads|;
                  if Exists(s, w, channel) then outcome == Done && s' == s
                  else
                    var ignored := keys == [] || channel == ScheduleChange;
                    && (outcome == Done <==> ignored || KeysFit(s, w, keys))
                    && (outcome == Done ==>
                          && s' == s.(threads := s.threads + [Thread(w, channel)], rows := s'.rows)
                          && forall r :: r in s'.rows <==>
                               r in s.rows || (!ignored && r.kind == ThreadKey(t) && r.owner in Parents(s, w))))
  {
    hide Parents;
    var s' := Next(s, CreateThread(creator, channel, keys));
    if MayOpen(s, creator, channel) {
      var w := s.users[creator].workspace;
      assert HasChannel(s, w, channel) && channel != Topic <==> Exists(s, w, channel) by {
        if t :| 0 <= t < |s.threads| && s.threads[t].workspace == w && s.threads[t].channel == channel {
          assert s.threads[t] == Thread(w, channel);
        }
      }
      hide HasChannel;
      forall r: Row
        ensures r in (set u | u in keys :: Row(u, ThreadKey(|s.threads|))) <==>
                r.kind == ThreadKey(|s.threads|) && r.owner in keys
      {
        assert r == Row(r.owner, r.kind);
      }
    }
  }

  /** An active parent syncs a missing key of the family thread to a child of the same workspace. */
  lemma KeyIsSyncedIff(s: Store, parent: nat, thread: nat, target: nat)
    ensures var (s', outcome) := Step(s, SyncThreadKey(parent, thread, target));
            && (outcome == Done <==>
                  && parent < |s.users| && s.users[parent].active && s.users[parent].role != Child
                  && thread < |s.threads| && s.threads[thread] == Thread(s.users[parent].workspace, Family)
                  && target < |s.users| && s.users[target].role == Child
                  && s.users[target].workspace == s.users[parent].workspace
                  && Row(target, ThreadKey(thread)) !in s.rows)
            && s' == (if outcome == Done then s.(rows := s.rows + {Row(target, ThreadKey(thread))}) else s)
  {
  }

  /** A child is added to, and a code renewed in, a workspace that exists, and nothing else changes. */
  lemma WorkspaceStepsAreStored(s: Store, w: nat, expiry: nat)
    ensures var (s', outcome) := Step(s, AddChild(w));
            && (outcome == Done <==> w < |s.codeExpiry|)
            && s' == if outcome == Done then s.(children := s.children + [ChildProfile(w, true)]) else s
    ensures var (s', outcome) := Step(s, RefreshCode(w, expiry));
            && (outcome == Done <==> w < |s.codeExpiry|)
            && s' == if outcome == Done then s.(codeExpiry := s.codeExpiry[w := expiry]) else s
  {
  }

  // ----- Over all runs -----------------------------------------------------------------------

  ghost predicate EmailsUnique(s: Store) {
    forall u, v | 0 <= u < v < |s.users| :: s.users[u].email != s.users[v].email
  }

  lemma StepKeepsEmails(s: Store, a: Action)
    requires EmailsUnique(s) && ProfilesOk(s)
    ensures EmailsUnique(Next(s, a))
  {
    if IsRowAction(a) {
      RowActionsLeaveUsers(s, a);
    } else if a.DeleteChild? {
      ChildDeletionKeepsEmails(s, a.workspace, a.child, a.placeholder);
    } else {
      hide Members, HasAccount, WorkspaceHasParentB, Lower, ConsentRows, RowsOf, InvitesExpired, ChildDeleted;
    }
  }

  lemma ChildDeletionKeepsEmails(s: Store, w: nat, child: nat, placeholder: string)
    requires EmailsUnique(s) && ProfilesOk(s)
    ensures EmailsUnique(ChildDeleted(s, w, child, placeholder).0)
  {
    var s' := ChildDeleted(s, w, child, placeholder).0;
    forall u, v | 0 <= u < v < |s'.users|
      ensures s'.users[u].email != s'.users[v].email
    {
      assert s.users[u].email != s.users[v].email;
      if s' != s {
        assert s.users[u].profile == Some(child) ==> IsFreeFor(s, placeholder, u);
        assert s.users[v].profile == Some(child) ==> IsFreeFor(s, placeholder, v);
      }
    }
  }

  lemma {:induction false} RunKeepsEmails(s: Store, actions: seq<Action>)
    requires EmailsUnique(s) && ProfilesOk(s)
    ensures EmailsUnique(Run(s, actions))
    decreases |actions|
  {
    hide EmailsUnique, ProfilesOk, Next;
    if actions != [] {
      StepKeepsEmails(s, actions[0]);
      StepKeepsProfiles(s, actions[0]);
      RunKeepsEmails(Next(s, actions[0]), actions[1..]);
    }
  }

  /** In every reachable store no two accounts, open or closed, have the same address. */
  lemma EmailsAreUnique(actions: seq<Action>, u: nat, v: nat)
    requires u < |Run(EMPTY, actions).users| && v < |Run(EMPTY, actions).users| && u != v
    ensures Run(EMPTY, actions).users[u].email != Run(EMPTY, actions).users[v].email
  {
    hide Run;
    RunKeepsEmails(EMPTY, actions);
  }

  /** The step moves the user there: it accepts an invitation to the user's address by a user who is there. */
  predicate MovesByInvitation(s: Store, a: Action, user: nat, w: nat) {
    && a.AcceptInvite? && a.user == user && CanAccept(s, user, a.invite, a.now)
    && s.users[s.invites[a.invite].inviter].workspace == w
  }

  lemma StepMovesByInvitation(s: Store, a: Action, user: nat)
    requires user < |s.users|
    ensures user < |Next(s, a).users|
    ensures Next(s, a).users[user].workspace != s.users[user].workspace ==>
              MovesByInvitation(s, a, user, Next(s, a).users[user].workspace)
  {
    hide SameAddress, Lower, Members, CanAccept, Step;
    if a.AcceptInvite? {
      AcceptanceMoves(s, a.user, a.invite, a.now, user);
    } else if MovesUsers(a) {
      DeletionsMoveNobody(s, a, user);
    } else {
      OthersOnlyAddUsers(s, a);
    }
  }

  lemma AcceptanceMoves(s: Store, user: nat, i: nat, now: nat, other: nat)
    requires other < |s.users|
    ensures var s' := Next(s, AcceptInvite(user, i, now));
            && other < |s'.users|
            && (s'.users[other].workspace != s.users[other].workspace ==>
                  && other == user && CanAccept(s, user, i, now)
                  && s'.users[other].workspace == s.users[s.invites[i].inviter].workspace)
  {
    InviteIsAcceptedIff(s, user, i, now);
    if CanAccept(s, user, i, now) {
      AcceptanceIsStored(s, user, i, now);
    }
    hide Step, CanAccept;
  }

  lemma DeletionsMoveNobody(s: Store, a: Action, user: nat)
    requires (a.DeleteAccount? || a.DeleteChild?) && user < |s.users|
    ensures user < |Next(s, a).users| && Next(s, a).users[user].workspace == s.users[user].workspace
  {
    hide InvitesExpired, RowsOf, IsFreeFor;
  }

  predicate MovedAt(s: Store, actions: seq<Action>, i: int, user: nat, w: nat) {
    0 <= i < |actions| && MovesByInvitation(Run(s, actions[..i]), actions[i], user, w)
  }

  /**
    A user who ends a run in another workspace than at its start accepted, in some step of it, a pending
    invitation to the user's own address, sent by a user of that workspace.
   */
  lemma {:induction false} MovesAreInvited(s: Store, actions: seq<Action>, user: nat)
    requires user < |s.users|
    ensures user < |Run(s, actions).users|
    ensures var w := Run(s, actions).users[user].workspace;
            w != s.users[user].workspace ==> exists i :: MovedAt(s, actions, i, user, w)
    decreases |actions|
  {
    hide Next, MovesByInvitation;
    if actions != [] {
      var next, rest := Next(s, actions[0]), actions[1..];
      StepMovesByInvitation(s, actions[0], user);
      MovesAreInvited(next, rest, user);
      var w := Run(s, actions).users[user].workspace;
      if next.users[user].workspace != w {
        var i :| MovedAt(next, rest, i, user, w);
        assert actions[..i + 1][1..] == rest[..i];
        assert MovedAt(s, actions, i + 1, user, w);
      } else if s.users[user].workspace != w {
        assert MovedAt(s, actions, 0, user, w);
      }
    }
  }

  predicate IsSpent(s: Store, i: nat) {
    i < |s.invites| && s.invites[i].status != Pending
  }

  lemma StepKeepsSpent(s: Store, a: Action, i: nat)
    requires IsSpent(s, i)
    ensures IsSpent(Next(s, a), i)
    ensures a.AcceptInvite? && a.invite == i ==> Step(s, a).1 != Done
  {
    if IsRowAction(a) {
      RowActionsLeaveUsers(s, a);
    } else {
      hide Members, EmailInUse, HasAccount, WorkspaceHasParentB, Lower, ConsentRows, RowsOf, IsFreeFor;
      hide AccountOfChildClosed;
    }
  }

  lemma {:induction false} SpentForever(s: Store, actions: seq<Action>, i: nat)
    requires IsSpent(s, i)
    ensures IsSpent(Run(s, actions), i)
    decreases |actions|
  {
    hide Next, IsSpent;
    if actions != [] {
      StepKeepsSpent(s, actions[0], i);
      SpentForever(Next(s, actions[0]), actions[1..], i);
    }
  }

  /** No invitation is accepted twice, so none moves two users. */
  lemma InvitationsMoveOnce(s: Store, a: Action, between: seq<Action>, b: Action)
    requires a.AcceptInvite? && Step(s, a).1 == Done
    requires b.AcceptInvite? && Step(Run(Next(s, a), between), b).1 == Done
    ensures a.invite != b.invite
  {
    AcceptanceSpends(s, a.user, a.invite, a.now);
    SpentForever(Next(s, a), between, a.invite);
    StepKeepsSpent(Run(Next(s, a), between), b, a.invite);
  }

  lemma AcceptanceSpends(s: Store, user: nat, i: nat, now: nat)
    requires Step(s, AcceptInvite(user, i, now)).1 == Done
    ensures IsSpent(Next(s, AcceptInvite(user, i, now)), i)
  {
    hide Members, Lower;
  }
}
