/**
  What can still reach an account that its user deleted: exactly which claims, logins and keys, and a
  run from an empty system for each way in.
 */
module ClosedAccounts {
  import opened Options
  import opened Accounts
  import Members = Membership
  import Access = ResetTokens
  import Runs

  // ----- Runs of one part --------------------------------------------------------------------

  function OfMembers(actions: seq<Members.Action>): (r: seq<Action>)
    ensures |r| == |actions|
  {
    seq(|actions|, i requires 0 <= i < |actions| => Member(actions[i]))
  }

  function OfAccess(actions: seq<Access.Action>): (r: seq<Action>)
    ensures |r| == |actions|
  {
    seq(|actions|, i requires 0 <= i < |actions| => Reach(actions[i]))
  }

  lemma {:induction false} MembersAlone(s: Store, actions: seq<Members.Action>)
    ensures Run(s, OfMembers(actions)).members == Members.Run(s.members, actions)
    decreases |actions|
  {
    hide Members.Step;
    if actions != [] {
      var next := Step(s, Member(actions[0]));
      assert next.members == Members.Next(s.members, actions[0]);
      assert OfMembers(actions)[1..] == OfMembers(actions[1..]);
      MembersAlone(next, actions[1..]);
    }
  }

  lemma {:induction false} AccessAlone(s: Store, actions: seq<Access.Action>)
    requires forall i | 0 <= i < |actions| :: !actions[i].CreateToken?
    ensures Run(s, OfAccess(actions)).access == Access.Run(s.access, actions)
    decreases |actions|
  {
    hide Access.Step, WithPasswords;
    if actions != [] {
      var next := Step(s, Reach(actions[0]));
      assert next.access == Access.Step(s.access, actions[0]);
      assert OfAccess(actions)[1..] == OfAccess(actions[1..]);
      AccessAlone(next, actions[1..]);
    }
  }

  // ----- Claims ------------------------------------------------------------------------------

  /** A claim for the user at that moment would succeed. */
  predicate LiveToken(s: Access.Store, t: nat, user: nat, at: nat) {
    Access.Claimable(s, t, at) && s.tokens[t].user == user
  }

  /** The tokens of a closed account only disappear or get used. */
  predicate TokensFade(s: Store, s': Store, user: nat) {
    forall t | t in s'.access.tokens && s'.access.tokens[t].user == user ::
      && t in s.access.tokens && s.access.tokens[t].user == user
      && s.access.tokens[t].expiresAt == s'.access.tokens[t].expiresAt
      && (s.access.tokens[t].used ==> s'.access.tokens[t].used)
  }

  lemma AccessStepFades(s: Access.Store, a: Access.Action, user: nat)
    requires a.CreateToken? ==> a.user != user
    ensures forall t | t in Access.Step(s, a).tokens && Access.Step(s, a).tokens[t].user == user ::
              && t in s.tokens && s.tokens[t].user == user
              && s.tokens[t].expiresAt == Access.Step(s, a).tokens[t].expiresAt
              && (s.tokens[t].used ==> Access.Step(s, a).tokens[t].used)
  {
    hide Access.SessionsOf, Access.Surplus;
  }

  lemma {:induction false} TokensOfClosedFade(s: Store, actions: seq<Action>, user: nat)
    requires Closed(s, user)
    ensures TokensFade(s, Run(s, actions), user)
    decreases |actions|
  {
    hide Step, StaysClosed;
    if actions != [] {
      var next := Step(s, actions[0]);
      StepFades(s, actions[0], user);
      StepKeepsClosed(s, actions[0], user);
      assert Closed(next, user) by { StillClosed(s, next, user); }
      TokensOfClosedFade(next, actions[1..], user);
    }
  }

  lemma StillClosed(s: Store, s': Store, user: nat)
    requires Closed(s, user) && StaysClosed(s, s', user)
    ensures Closed(s', user)
  {
  }

  lemma StepFades(s: Store, a: Action, user: nat)
    requires Closed(s, user)
    ensures TokensFade(s, Step(s, a), user)
  {
    match a
    case Member(member) =>
      hide Members.Step;
    case Reach(reach) =>
      hide Access.Step;
      if !reach.CreateToken? || Members.IsActive(s.members, reach.user) {
        AccessStepFades(s.access, reach, user);
      }
  }

  /** After some run, a claim for the user at that moment works. */
  predicate ComesToClaim(s: Store, actions: seq<Action>, user: nat, at: nat) {
    exists t: nat | t in Run(s, actions).access.tokens :: LiveToken(Run(s, actions).access, t, user, at)
  }

  /**
    Some run after the deletion leads to a claim for the closed account at a given moment if and only
    if one of its tokens was unused at the deletion and expires only after that moment.
   */
  lemma ClaimReachesClosedIff(s: Store, a: Members.Action, at: nat)
    requires a.DeleteAccount? && Members.Step(s.members, a).1 == Members.Done
    ensures (exists actions :: ComesToClaim(MemberStep(s, a), actions, a.user, at))
            <==> exists t: nat | t in s.access.tokens :: LiveToken(s.access, t, a.user, at)
  {
    DeletionLeavesBare(s, a);
    var deleted, user := MemberStep(s, a), a.user;
    assert deleted.access.tokens == s.access.tokens;
    hide MemberStep, Members.Step;
    if actions :| ComesToClaim(deleted, actions, user, at) {
      TokensOfClosedFade(deleted, actions, user);
      var t: nat :| t in Run(deleted, actions).access.tokens && LiveToken(Run(deleted, actions).access, t, user, at);
      assert LiveToken(s.access, t, user, at);
    } else {
      assert Run(deleted, []) == deleted;
      assert !ComesToClaim(deleted, [], user, at);
      forall t: nat | t in s.access.tokens
        ensures !LiveToken(s.access, t, user, at)
      {
        assert t in deleted.access.tokens && !LiveToken(deleted.access, t, user, at);
      }
    }
  }

  /** Such a claim sets the password of the closed account, which stays closed. */
  lemma ClaimSetsClosedPassword(s: Store, t: nat, user: nat, hash: string, at: nat)
    requires Closed(s, user) && LiveToken(s.access, t, user, at)
    ensures var s' := Step(s, Reach(Access.ClaimToken(t, hash, at)));
            Closed(s', user) && s'.members.users[user].passwordHash == hash && s'.access.passwords[user] == hash
  {
    hide Access.SessionsOf;
  }

  // ----- Logins ------------------------------------------------------------------------------

  /** The run claims nothing before the deletion, and nobody guesses the random password of the account. */
  predicate Honest(actions: seq<Action>, user: nat, deletedAt: nat, random: string) {
    forall i | 0 <= i < |actions| :: IsHonest(actions[i], user, deletedAt, random)
  }

  predicate IsHonest(a: Action, user: nat, deletedAt: nat, random: string) {
    a.Reach? ==>
      && (a.reach.ClaimToken? ==> deletedAt <= a.reach.now)
      && (a.reach.CheckPassword? ==> a.reach.user != user || a.reach.passwordHash != random)
  }

  predicate UnderWay(s: Access.Store, l: int, user: nat) {
    0 <= l < |s.logins| && s.logins[l].user == user && s.logins[l].stage != Access.Opened
  }

  /** No way in: no session, no login under way, no live token, and the random password. */
  ghost predicate Shut(s: Access.Store, user: nat, deletedAt: nat, random: string) {
    && (forall i: nat | i in s.sessions :: s.sessions[i].user != user)
    && (forall l | 0 <= l < |s.logins| :: !UnderWay(s, l, user))
    && (forall t | t in s.tokens :: !LiveToken(s, t, user, deletedAt))
    && user in s.passwords && s.passwords[user] == random
  }

  lemma AccessStepKeepsShut(s: Access.Store, a: Access.Action, user: nat, deletedAt: nat, random: string)
    requires Shut(s, user, deletedAt, random) && IsHonest(Reach(a), user, deletedAt, random)
    requires a.CreateToken? ==> a.user != user
    ensures Shut(Access.Step(s, a), user, deletedAt, random)
  {
    hide Access.Surplus;
    var s' := Access.Step(s, a);
    if a.ClaimToken? && a.token in s.tokens {
      assert !LiveToken(s, a.token, user, deletedAt);
    }
    if a.InsertSession? && Access.LoginIsAt(s, a.login, Access.Evicted) {
      assert !UnderWay(s, a.login, user);
    }
    forall l | 0 <= l < |s'.logins|
      ensures !UnderWay(s', l, user)
    {
      if l < |s.logins| {
        assert !UnderWay(s, l, user);
      }
    }
    forall t | t in s'.tokens
      ensures !LiveToken(s', t, user, deletedAt)
    {
      if t in s.tokens {
        assert !LiveToken(s, t, user, deletedAt);
      }
    }
  }

  lemma StepKeepsShut(s: Store, a: Action, user: nat, deletedAt: nat, random: string)
    requires Coupled(s) && Closed(s, user) && Shut(s.access, user, deletedAt, random)
    requires IsHonest(a, user, deletedAt, random)
    ensures Shut(Step(s, a).access, user, deletedAt, random)
  {
    match a
    case Member(member) =>
      MembersKeepClosed(s.members, member, user);
      MemberLeavesAccess(s, member);
      hide Members.Step, MemberStep;
      forall l | 0 <= l < |s.access.logins|
        ensures !UnderWay(Step(s, a).access, l, user)
      {
        assert !UnderWay(s.access, l, user);
      }
      forall t | t in s.access.tokens
        ensures !LiveToken(Step(s, a).access, t, user, deletedAt)
      {
        assert !LiveToken(s.access, t, user, deletedAt);
      }
    case Reach(reach) =>
      if !reach.CreateToken? || Members.IsActive(s.members, reach.user) {
        AccessStepKeepsShut(s.access, reach, user, deletedAt, random);
      }
      hide Access.Step;
  }

  lemma MemberLeavesAccess(s: Store, a: Members.Action)
    ensures var after := MemberStep(s, a).access;
            && after.logins == s.access.logins && after.tokens == s.access.tokens
            && after.passwords == Passwords(Members.Next(s.members, a))
            && (forall i | i in after.sessions :: i in s.access.sessions && after.sessions[i] == s.access.sessions[i])
  {
    hide Members.Step, Access.SessionsOf;
  }

  lemma {:induction false} ShutStaysShut(s: Store, actions: seq<Action>, user: nat, deletedAt: nat, random: string)
    requires Coupled(s) && Closed(s, user) && Shut(s.access, user, deletedAt, random)
    requires Honest(actions, user, deletedAt, random)
    ensures Shut(Run(s, actions).access, user, deletedAt, random)
    decreases |actions|
  {
    hide Step, Shut, IsHonest, Coupled, Closed;
    if actions != [] {
      var next := Step(s, actions[0]);
      StepKeepsShut(s, actions[0], user, deletedAt, random);
      StepKeepsCoupled(s, actions[0]);
      StepKeepsClosed(s, actions[0], user);
      StillClosed(s, next, user);
      ShutStaysShut(next, actions[1..], user, deletedAt, random);
    }
  }

  function LogInFrom(l: nat): seq<Access.Action> {
    [Access.ListSessions(l), Access.EvictSurplus(l), Access.InsertSession(l, 0, 30)]
  }

  lemma LoginGoesOn(s: Access.Store, l: nat, user: nat)
    requires UnderWay(s, l, user)
    ensures s.nextSession in Access.SessionsOf(Access.Run(s, LogInFrom(l)), user)
  {
    hide Access.Surplus, Access.Run;
    Access.ThreeSteps(s, LogInFrom(l));
  }

  /** The link sets a password, and a login with that password goes through. */
  function ResetAndLogIn(t: nat, user: nat, hash: string, at: nat, l: nat): seq<Access.Action> {
    [Access.ClaimToken(t, hash, at), Access.CheckPassword(user, hash)] + LogInFrom(l)
  }

  lemma LinkLogsIn(s: Access.Store, t: nat, user: nat, hash: string, at: nat)
    requires LiveToken(s, t, user, at)
    ensures Access.SessionsOf(Access.Run(s, ResetAndLogIn(t, user, hash, at, |s.logins|)), user) != {}
  {
    hide Access.Run;
    var l := |s.logins|;
    var s1 := Access.Step(s, Access.ClaimToken(t, hash, at));
    var s2 := Access.Step(s1, Access.CheckPassword(user, hash));
    assert UnderWay(s2, l, user);
    Access.ResetRunsBySteps();
    hide Access.Step, Access.SessionsOf;
    var first := [Access.ClaimToken(t, hash, at), Access.CheckPassword(user, hash)];
    Runs.RunVisits(Access.Run, Access.Step, first, [s, s1, s2]);
    Runs.RunConcat(Access.Run, Access.Step, s, first, LogInFrom(l));
    LoginGoesOn(s2, l, user);
  }

  /** An honest run that ends with a session of the user. */
  predicate HonestlyLogsIn(s: Store, actions: seq<Action>, user: nat, deletedAt: nat, random: string) {
    Honest(actions, user, deletedAt, random) && Access.SessionsOf(Run(s, actions).access, user) != {}
  }

  /** Some way in was left open at the deletion. */
  predicate WayIn(s: Store, user: nat, deletedAt: nat) {
    || (exists l | 0 <= l < |s.access.logins| :: UnderWay(s.access, l, user))
    || (exists t: nat | t in s.access.tokens :: LiveToken(s.access, t, user, deletedAt))
  }

  /**
    Unless the random password is guessed, some run after the deletion ends with a session of the
    closed account if and only if, at the deletion, a login of the user was under way or one of the
    user's reset tokens was unused and not yet expired.
   */
  lemma LoginReachesClosedIff(s: Store, a: Members.Action, deletedAt: nat)
    requires Coupled(s) && a.DeleteAccount? && Members.Step(s.members, a).1 == Members.Done
    ensures (exists actions :: HonestlyLogsIn(MemberStep(s, a), actions, a.user, deletedAt, a.newHash))
            <==> WayIn(s, a.user, deletedAt)
  {
    var deleted, user := MemberStep(s, a), a.user;
    DeletionIsShutOrOpen(s, a, deletedAt);
    hide MemberStep, Members.Step, Access.SessionsOf, HonestlyLogsIn, Run, Shut, UnderWay, LiveToken, Closed, Coupled;
    if l :| 0 <= l < |s.access.logins| && UnderWay(s.access, l, user) {
      LoginWalksIn(deleted, l, user, deletedAt, a.newHash);
    } else if t: nat :| t in s.access.tokens && LiveToken(s.access, t, user, deletedAt) {
      LinkWalksIn(deleted, t, user, deletedAt, a.newHash);
    } else {
      forall actions
        ensures !HonestlyLogsIn(deleted, actions, user, deletedAt, a.newHash)
      {
        NobodyWalksIn(deleted, actions, user, deletedAt, a.newHash);
      }
    }
  }

  lemma LoginWalksIn(s: Store, l: nat, user: nat, deletedAt: nat, random: string)
    requires UnderWay(s.access, l, user)
    ensures HonestlyLogsIn(s, OfAccess(LogInFrom(l)), user, deletedAt, random)
  {
    hide Run, Access.Run;
    AccessAlone(s, LogInFrom(l));
    LoginGoesOn(s.access, l, user);
  }

  lemma LinkWalksIn(s: Store, t: nat, user: nat, deletedAt: nat, random: string)
    requires LiveToken(s.access, t, user, deletedAt)
    ensures HonestlyLogsIn(s, OfAccess(ResetAndLogIn(t, user, random + "!", deletedAt, |s.access.logins|)),
                           user, deletedAt, random)
  {
    hide Run, Access.Run, Access.SessionsOf, LiveToken;
    AccessAlone(s, ResetAndLogIn(t, user, random + "!", deletedAt, |s.access.logins|));
    LinkLogsIn(s.access, t, user, random + "!", deletedAt);
    assert |random + "!"| == |random| + 1;
  }

  lemma NobodyWalksIn(s: Store, actions: seq<Action>, user: nat, deletedAt: nat, random: string)
    requires Coupled(s) && Closed(s, user) && Shut(s.access, user, deletedAt, random)
    ensures !HonestlyLogsIn(s, actions, user, deletedAt, random)
  {
    hide Run, Shut, Coupled, Closed, Honest;
    if Honest(actions, user, deletedAt, random) {
      ShutStaysShut(s, actions, user, deletedAt, random);
      ShutHasNoSession(Run(s, actions).access, user, deletedAt, random);
    }
  }

  lemma ShutHasNoSession(s: Access.Store, user: nat, deletedAt: nat, random: string)
    requires Shut(s, user, deletedAt, random)
    ensures Access.SessionsOf(s, user) == {}
  {
  }

  lemma DeletionIsShutOrOpen(s: Store, a: Members.Action, deletedAt: nat)
    requires Coupled(s) && a.DeleteAccount? && Members.Step(s.members, a).1 == Members.Done
    ensures var deleted := MemberStep(s, a);
            && deleted.access.logins == s.access.logins && deleted.access.tokens == s.access.tokens
            && Coupled(deleted) && Closed(deleted, a.user)
            && (!WayIn(s, a.user, deletedAt) ==> Shut(deleted.access, a.user, deletedAt, a.newHash))
  {
    DeletionLeavesBare(s, a);
    StepKeepsCoupled(s, Member(a));
    var deleted := MemberStep(s, a);
    assert forall i | i in deleted.access.sessions ::
        deleted.access.sessions[i].user == a.user ==> i in Access.SessionsOf(deleted.access, a.user);
    assert deleted.members.users[a.user].passwordHash == a.newHash;
    hide Members.InvitesExpired;
    if !WayIn(s, a.user, deletedAt) {
      forall l | 0 <= l < |s.access.logins|
        ensures !UnderWay(deleted.access, l, a.user)
      {
        assert !UnderWay(s.access, l, a.user);
      }
      forall t: nat | t in s.access.tokens
        ensures !LiveToken(deleted.access, t, a.user, deletedAt)
      {
        assert !LiveToken(s.access, t, a.user, deletedAt);
      }
    }
  }

  // ----- Keys --------------------------------------------------------------------------------

  lemma {:induction false} EmailsAreShort(users: seq<Members.User>) returns (n: nat)
    ensures forall u | 0 <= u < |users| :: |users[u].email| < n
    decreases |users|
  {
    if users == [] {
      n := 0;
    } else {
      var last := |users| - 1;
      var m := EmailsAreShort(users[..last]);
      n := if m > |users[last].email| then m else |users[last].email| + 1;
      forall u | 0 <= u < |users|
        ensures |users[u].email| < n
      {
        if u < last {
          assert users[..last][u] == users[u];
        }
      }
    }
  }

  /** An active parent of the workspace is there, or can join. */
  lemma ParentCanCome(m: Members.Store, w: nat) returns (actions: seq<Members.Action>, parent: nat)
    requires w < |m.codeExpiry|
    ensures var m' := Members.Run(m, actions);
            && Members.IsActive(m', parent) && Members.IsParent(m'.users[parent]) && m'.users[parent].workspace == w
            && m'.threads == m.threads && m'.rows == m.rows && m.users <= m'.users
  {
    if p: nat :| p in Members.Parents(m, w) {
      actions, parent := [], p;
    } else {
      var n := EmailsAreShort(m.users);
      var email := seq(n, _ => 'a');
      var join := Members.JoinAsParent(w, email, "", 0);
      ParentBIsParent(m, w);
      assert !Members.EmailInUse(m, email);
      assert Members.Step(m, join).1 == Members.Done;
      actions, parent := [join], |m.users|;
      assert Members.Run(m, actions) == Members.Next(m, join);
    }
  }

  lemma ParentBIsParent(m: Members.Store, w: nat)
    ensures Members.WorkspaceHasParentB(m, w) ==> exists p: nat :: p in Members.Parents(m, w)
  {
    if u :| 0 <= u < |m.users| && m.users[u].active && m.users[u].workspace == w && m.users[u].role == Members.ParentB {
      assert u in Members.Parents(m, w);
    }
  }

  /** The family thread of the workspace is there, or the parent opens it. */
  lemma FamilyThreadCanCome(m: Members.Store, parent: nat) returns (actions: seq<Members.Action>, thread: nat)
    requires Members.IsActive(m, parent) && Members.IsParent(m.users[parent])
    ensures var m' := Members.Run(m, actions);
            && thread < |m'.threads| && m'.threads[thread] == Members.Thread(m.users[parent].workspace, Members.Family)
            && m'.rows == m.rows && m'.users == m.users
  {
    var family := Members.Thread(m.users[parent].workspace, Members.Family);
    if t: nat :| t < |m.threads| && m.threads[t] == family {
      actions, thread := [], t;
    } else {
      var open := Members.CreateThread(parent, Members.Family, []);
      NoKeysNoRows(m, parent);
      actions, thread := [open], |m.threads|;
      assert Members.Run(m, actions) == Members.Next(m, open);
    }
  }

  lemma NoKeysNoRows(m: Members.Store, parent: nat)
    requires Members.IsActive(m, parent)
    requires forall t: nat | t < |m.threads| ::
               m.threads[t] != Members.Thread(m.users[parent].workspace, Members.Family)
    ensures Members.Next(m, Members.CreateThread(parent, Members.Family, [])) ==
            m.(threads := m.threads + [Members.Thread(m.users[parent].workspace, Members.Family)])
  {
    RowsOfKeys([], |m.threads|);
  }

  lemma RowsOfKeys(keys: seq<nat>, thread: nat)
    ensures keys == [] ==> (set u | u in keys :: Members.Row(u, Members.ThreadKey(thread))) == {}
  {
  }

  lemma KeyCanCome(m: Members.Store, user: nat) returns (actions: seq<Members.Action>)
    requires user < |m.users| && m.users[user].role == Members.Child && m.users[user].workspace < |m.codeExpiry|
    requires Members.RowsOf(m.rows, user) == {}
    ensures Members.RowsOf(Members.Run(m, actions).rows, user) != {}
  {
    hide Members.Run, Members.Parents;
    var joining, parent := ParentCanCome(m, m.users[user].workspace);
    var m1 := Members.Run(m, joining);
    var opening, thread := FamilyThreadCanCome(m1, parent);
    var m2 := Members.Run(m1, opening);
    var sync := Members.SyncThreadKey(parent, thread, user);
    var row := Members.Row(user, Members.ThreadKey(thread));
    assert row !in m2.rows by {
      assert row in m.rows ==> row in Members.RowsOf(m.rows, user);
    }
    assert m1.users[user] == m.users[user];
    var m3 := Members.Next(m2, sync);
    assert row in Members.RowsOf(m3.rows, user);
    Members.MembershipRunsBySteps();
    hide Members.Next, Members.RowsOf;
    Runs.RunVisits(Members.Run, Members.Next, [sync], [m2, m3]);
    Runs.RunConcat(Members.Run, Members.Next, m, joining, opening);
    Runs.RunConcat(Members.Run, Members.Next, m, joining + opening, [sync]);
    actions := joining + opening + [sync];
  }

  lemma {:induction false} NoKeyForOthers(s: Store, actions: seq<Action>, user: nat)
    requires Closed(s, user) && s.members.users[user].role != Members.Child
    requires Members.RowsOf(s.members.rows, user) == {}
    ensures Members.RowsOf(Run(s, actions).members.rows, user) == {}
    decreases |actions|
  {
    hide Step, Members.RowsOf;
    if actions != [] {
      var next := Step(s, actions[0]);
      StepKeepsClosed(s, actions[0], user);
      StepBringsNoKey(s, actions[0], user);
      NoKeyForOthers(next, actions[1..], user);
    }
  }

  lemma StepBringsNoKey(s: Store, a: Action, user: nat)
    requires Closed(s, user) && s.members.users[user].role != Members.Child
    requires Members.RowsOf(s.members.rows, user) == {}
    ensures Members.RowsOf(Step(s, a).members.rows, user) == {}
  {
    match a
    case Member(member) =>
      MemberStepLeavesRows(s.members, member, user);
      NobodyElseIsSynced(s.members, member, user);
      hide Members.Step, Members.RowsOf;
    case Reach(reach) =>
      hide Access.Step, Members.RowsOf;
  }

  lemma NobodyElseIsSynced(m: Members.Store, a: Members.Action, user: nat)
    requires user < |m.users| && m.users[user].role != Members.Child
    ensures !(a.SyncThreadKey? && a.target == user && Members.Step(m, a).1 == Members.Done)
  {
  }

  predicate BringsRow(s: Store, actions: seq<Action>, user: nat) {
    Members.RowsOf(Run(s, actions).members.rows, user) != {}
  }

  /**
    Some run after the deletion gives the closed account a row, which is a key, if and only if it is
    the account of a child.
   */
  lemma KeyReachesClosedIff(s: Store, a: Members.Action)
    requires Members.Inv(s.members) && a.DeleteAccount? && Members.Step(s.members, a).1 == Members.Done
    ensures (exists actions :: BringsRow(MemberStep(s, a), actions, a.user))
            <==> s.members.users[a.user].role == Members.Child
  {
    var deleted, user := MemberStep(s, a), a.user;
    DeletionLeavesBare(s, a);
    DeletionKeepsPlace(s, a);
    hide MemberStep, Members.Step, Members.Inv;
    if s.members.users[user].role == Members.Child {
      var actions := KeyCanCome(deleted.members, user);
      MembersAlone(deleted, actions);
      assert BringsRow(deleted, OfMembers(actions), user);
    } else {
      forall actions
        ensures !BringsRow(deleted, actions, user)
      {
        NoKeyForOthers(deleted, actions, user);
      }
    }
  }

  lemma DeletionKeepsPlace(s: Store, a: Members.Action)
    requires Members.Inv(s.members) && a.DeleteAccount? && Members.Step(s.members, a).1 == Members.Done
    ensures var m := MemberStep(s, a).members;
            && m.users[a.user].role == s.members.users[a.user].role
            && m.users[a.user].workspace < |m.codeExpiry|
  {
    hide Members.InvitesExpired, Members.RowsOf, Members.SeatsOk;
  }

  // ----- From an empty system ----------------------------------------------------------------

  /** A child deletes its account, and a parent syncs the key of the family thread to it. */
  function KeyAfterDeletion(a: string, b: string, gone: string): seq<Members.Action> {
    [Members.Register(a, "", Members.REQUIRED_CONSENTS, 10), Members.AddChild(0),
     Members.JoinAsChild(0, b, "", Some(0)), Members.DeleteAccount(1, "", "?", gone),
     Members.CreateThread(0, Members.Family, []), Members.SyncThreadKey(0, 0, 1)]
  }

  /** The workspace of the parent and of the child, before the child deletes its account. */
  function Family(a: string, b: string): Members.Store {
    Members.Store([Members.User(0, Members.ParentA, a, "", true, None),
                   Members.User(0, Members.Child, b, "", true, Some(0))],
                  [10], [], [Members.ChildProfile(0, true)], [], {} + Members.ConsentRows(0, Members.REQUIRED_CONSENTS))
  }

  lemma FamilyIsReachable(a: string, b: string, gone: string)
    requires a != b
    ensures Members.Run(Members.EMPTY, KeyAfterDeletion(a, b, gone)[..3]) == Family(a, b)
  {
    hide Members.ConsentRows;
    var actions := KeyAfterDeletion(a, b, gone)[..3];
    var m2 := Family(a, b).(users := [Members.User(0, Members.ParentA, a, "", true, None)]);
    var m1 := m2.(children := []);
    assert Members.Next(Members.EMPTY, actions[0]) == m1;
    assert Members.Next(m1, actions[1]) == m2;
    assert Members.Next(m2, actions[2]) == Family(a, b);
    Members.MembershipRunsBySteps();
    hide Members.Next, Members.Run, Family;
    Runs.RunVisits(Members.Run, Members.Next, actions, [Members.EMPTY, m1, m2, Family(a, b)]);
  }

  lemma ChildLeaves(a: string, b: string, gone: string)
    requires a != gone
    ensures var m := Family(a, b);
            Members.Next(m, Members.DeleteAccount(1, "", "?", gone)) ==
            m.(users := [m.users[0], m.users[1].(active := false, email := gone, passwordHash := "?")])
  {
    ParentsConsentsStay({} + Members.ConsentRows(0, Members.REQUIRED_CONSENTS));
    hide Members.ConsentRows, Members.RowsOf;
  }

  lemma ClosedAccountGetsKey(a: string, b: string, gone: string)
    requires a != b && a != gone
    ensures var s := Run(EMPTY, OfMembers(KeyAfterDeletion(a, b, gone)));
            Closed(s, 1) && Members.Row(1, Members.ThreadKey(0)) in s.members.rows
  {
    var actions := KeyAfterDeletion(a, b, gone);
    FamilyIsReachable(a, b, gone);
    ChildLeaves(a, b, gone);
    ParentsConsentsStay({} + Members.ConsentRows(0, Members.REQUIRED_CONSENTS));
    var m3 := Family(a, b);
    var m4 := Members.Next(m3, actions[3]);
    hide Members.Next, Run, Members.Run, Members.ConsentRows;
    NoKeysNoRows(m4, 0);
    var m5 := Members.Next(m4, actions[4]);
    SyncReachesClosed(m5);
    Members.MembershipRunsBySteps();
    MembersAlone(EMPTY, actions);
    Runs.RunVisits(Members.Run, Members.Next, actions[3..], [m3, m4, m5, Members.Next(m5, actions[5])]);
    Runs.RunConcat(Members.Run, Members.Next, Members.EMPTY, actions[..3], actions[3..]);
    assert actions[..3] + actions[3..] == actions;
  }

  lemma ParentsConsentsStay(granted: set<Members.Row>)
    requires granted == {} + Members.ConsentRows(0, Members.REQUIRED_CONSENTS)
    ensures granted - Members.RowsOf(granted, 1) == granted
    ensures Members.Row(1, Members.ThreadKey(0)) !in granted
  {
  }

  lemma SyncReachesClosed(m: Members.Store)
    requires |m.users| == 2 && |m.threads| == 1 && m.threads[0] == Members.Thread(0, Members.Family)
    requires m.users[0].active && m.users[0].role == Members.ParentA && m.users[0].workspace == 0
    requires m.users[1].role == Members.Child && m.users[1].workspace == 0
    requires Members.Row(1, Members.ThreadKey(0)) !in m.rows
    ensures Members.Next(m, Members.SyncThreadKey(0, 0, 1))
            == m.(rows := m.rows + {Members.Row(1, Members.ThreadKey(0))})
  {
  }

  /** A parent asks for a reset link, deletes the account, uses the link and logs in. */
  function LinkAndDeletion(a: string, hash: string, random: string, gone: string): seq<Action> {
    [Member(Members.Register(a, hash, Members.REQUIRED_CONSENTS, 10)), Reach(Access.CreateToken(0, 0)),
     Member(Members.DeleteAccount(0, hash, random, gone))]
  }

  /** The account with its fresh link. */
  function Linked(a: string, hash: string): Store {
    var user := Members.User(0, Members.ParentA, a, hash, true, None);
    Store(Members.Store([user], [10], [], [], [], {} + Members.ConsentRows(0, Members.REQUIRED_CONSENTS)),
          Access.Store([Access.Request(0, Access.Created)], map[0 := Access.Token(0, 0 + Access.TOKEN_TTL_MS, false)],
                       [], [], map[], 0, map[0 := hash], []))
  }

  lemma LinkIsRequested(a: string, hash: string, random: string, gone: string)
    ensures var actions := LinkAndDeletion(a, hash, random, gone);
            Step(Step(EMPTY, actions[0]), actions[1]) == Linked(a, hash)
  {
    hide Members.ConsentRows;
    var actions := LinkAndDeletion(a, hash, random, gone);
    var s1 := Store(Linked(a, hash).members, EMPTY.access.(passwords := map[0 := hash]));
    assert Passwords(s1.members) == map[0 := hash];
    assert Step(EMPTY, actions[0]) == s1;
    assert WithPasswords(s1.members, map[0 := hash]) == s1.members;
  }

  lemma LinkOutlivesAccount(a: string, hash: string, random: string, gone: string)
    ensures var s := Step(Linked(a, hash), Member(Members.DeleteAccount(0, hash, random, gone)));
            Closed(s, 0) && LiveToken(s.access, 0, 0, 1) && s.access.logins == []
  {
    var s := Linked(a, hash);
    hide Members.ConsentRows;
    assert Passwords(s.members) == map[0 := hash];
    DeletionInFull(s, 0, hash, random, gone);
    hide Members.Step, Step;
  }

  lemma AccountIsDeleted(a: string, hash: string, random: string, gone: string)
    ensures var s := Run(EMPTY, LinkAndDeletion(a, hash, random, gone));
            Closed(s, 0) && LiveToken(s.access, 0, 0, 1) && s.access.logins == []
  {
    var actions := LinkAndDeletion(a, hash, random, gone);
    LinkIsRequested(a, hash, random, gone);
    LinkOutlivesAccount(a, hash, random, gone);
    hide Step, Run, LiveToken, Closed, Linked;
    var s1 := Step(EMPTY, actions[0]);
    var s2 := Step(s1, actions[1]);
    AccountRunsBySteps();
    Runs.RunVisits(Run, Step, actions, [EMPTY, s1, s2, Step(s2, actions[2])]);
  }

  lemma LinkLogsInToClosed(s: Store, t: nat, user: nat, hash: string, at: nat)
    requires Closed(s, user) && LiveToken(s.access, t, user, at)
    ensures var s' := Run(s, OfAccess(ResetAndLogIn(t, user, hash, at, |s.access.logins|)));
            Closed(s', user) && Access.SessionsOf(s'.access, user) != {}
  {
    var actions := ResetAndLogIn(t, user, hash, at, |s.access.logins|);
    AccessAlone(s, actions);
    hide Step, Run, Access.Run, Access.SessionsOf, LiveToken, ResetAndLogIn, OfAccess;
    LinkLogsIn(s.access, t, user, hash, at);
    ClosedStaysClosed(s, OfAccess(actions), user);
  }

  lemma ClosedAccountLogsIn(a: string, hash: string, random: string, gone: string, newer: string)
    ensures var s := Run(EMPTY, LinkAndDeletion(a, hash, random, gone) + OfAccess(ResetAndLogIn(0, 0, newer, 1, 0)));
            Closed(s, 0) && Access.SessionsOf(s.access, 0) != {}
  {
    hide Step, Run, Access.SessionsOf, LiveToken, Closed, LinkAndDeletion, ResetAndLogIn, OfAccess;
    var deleted := Run(EMPTY, LinkAndDeletion(a, hash, random, gone));
    AccountIsDeleted(a, hash, random, gone);
    LinkLogsInToClosed(deleted, 0, 0, newer, 1);
    assert |deleted.access.logins| == 0;
    AccountRunsBySteps();
    Runs.RunConcat(Run, Step, EMPTY, LinkAndDeletion(a, hash, random, gone),
                   OfAccess(ResetAndLogIn(0, 0, newer, 1, 0)));
  }
}
