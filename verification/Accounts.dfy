/**
  Accounts as a whole: membership beside reset links, logins and sessions. The password column is one
  table that both parts see. Of interest is what can still reach an account after its user deleted it.
 */
module Accounts {
  import opened Options
  import Members = Membership
  import Access = ResetTokens
  import Runs

  datatype Store = Store(members: Members.Store, access: Access.Store)

  datatype Action = Member(member: Members.Action) | Reach(reach: Access.Action)

  /** The password column. */
  function Passwords(m: Members.Store): map<nat, string> {
    map u: nat | u < |m.users| :: m.users[u].passwordHash
  }

  function WithPasswords(m: Members.Store, passwords: map<nat, string>): Members.Store {
    m.(users := seq(|m.users|, u requires 0 <= u < |m.users| =>
                  if u in passwords then m.users[u].(passwordHash := passwords[u]) else m.users[u]))
  }

  /** Deleting an account deletes its sessions, but not its reset tokens. */
  function MemberStep(s: Store, a: Members.Action): Store {
    var (m, outcome) := Members.Step(s.members, a);
    var access := s.access.(passwords := Passwords(m));
    if a.DeleteAccount? && outcome == Members.Done
    then Store(m, access.(sessions := access.sessions - Access.SessionsOf(access, a.user)))
    else Store(m, access)
  }

  /** Only a request for a reset asks whether the account is open; a claim and a login do not. */
  function ReachStep(s: Store, a: Access.Action): Store {
    if a.CreateToken? && !Members.IsActive(s.members, a.user) then s
    else
      var access := Access.Step(s.access, a);
      Store(WithPasswords(s.members, access.passwords), access)
  }

  function Step(s: Store, a: Action): Store {
    match a
    case Member(member) => MemberStep(s, member)
    case Reach(reach) => ReachStep(s, reach)
  }

  function Run(s: Store, actions: seq<Action>): Store
    decreases |actions|
  {
    if actions == [] then s else Run(Step(s, actions[0]), actions[1..])
  }

  const EMPTY := Store(Members.EMPTY, Access.Store([], map[], [], [], map[], 0, map[], []))

  lemma AccountRunsBySteps()
    ensures Runs.RunsBySteps(Run, Step)
  {
    hide Step;
  }

  // ----- Deletion as a method on the tables --------------------------------------------------

  lemma DeletionInFull(s: Store, user: nat, passwordHash: string, newHash: string, placeholder: string)
    requires Coupled(s)
    ensures var a, m := Members.DeleteAccount(user, passwordHash, newHash, placeholder), s.members;
            if user >= |m.users| || !m.users[user].active then
              Step(s, Member(a)) == s && Members.Step(m, a).1 == Members.Refused("invalid_session")
            else if passwordHash != m.users[user].passwordHash then
              Step(s, Member(a)) == s && Members.Step(m, a).1 == Members.Refused("invalid_password")
            else if !Members.IsFreeFor(m, placeholder, user) then
              Step(s, Member(a)) == s && Members.Step(m, a).1 == Members.Refused("unique_constraint")
            else
              var closed := m.users[user].(active := false, email := placeholder, passwordHash := newHash);
              var own := set i | i in s.access.sessions && s.access.sessions[i].user == user;
              && Members.Step(m, a).1 == Members.Done
              && Step(s, Member(a)) ==
                 Store(m.(users := m.users[user := closed], invites := Members.InvitesExpired(m.invites, user),
                          rows := m.rows - Members.RowsOf(m.rows, user)),
                       s.access.(passwords := s.access.passwords[user := newHash], sessions := s.access.sessions - own))
  {
    hide Members.InvitesExpired, Members.RowsOf, Members.IsFreeFor;
  }

  class AccountService {
    const members: Members.MembershipService
    const access: Access.ResetService

    ghost function State(): Store
      reads members, access
    {
      Store(members.State(), access.State())
    }

    constructor (members: Members.MembershipService, access: Access.ResetService)
      ensures this.members == members && this.access == access
    {
      this.members, this.access := members, access;
    }

    /** Deletes the user's sessions and rows, expires the pending invitations, then anonymizes the account. */
    method DeleteOwnAccount(user: nat, passwordHash: string, newHash: string, placeholder: string)
      returns (outcome: Members.Outcome)
      requires Coupled(State())
      modifies members, access
      ensures State() == Step(old(State()), Member(Members.DeleteAccount(user, passwordHash, newHash, placeholder)))
      ensures outcome == Members.Step(old(members.State()),
                                      Members.DeleteAccount(user, passwordHash, newHash, placeholder)).1
    {
      ghost var was := State();
      DeletionInFull(was, user, passwordHash, newHash, placeholder);
      hide Members.InvitesExpired, Members.RowsOf, Members.Step, Members.IsFreeFor, Step, Coupled, Access.SessionsOf;
      if user >= |members.users| || !members.users[user].active {
        return Members.Refused("invalid_session");
      }
      if passwordHash != members.users[user].passwordHash {
        return Members.Refused("invalid_password");
      }
      // A taken placeholder fails the update at the end, which takes the whole transaction back.
      if !Members.IsFreeFor(members.State(), placeholder, user) {
        return Members.Refused("unique_constraint");
      }
      access.sessions := access.sessions - (set i | i in access.sessions && access.sessions[i].user == user);
      members.rows := members.rows - Members.RowsOf(members.rows, user);
      members.ExpireInvites(user);
      members.users := members.users[user := members.users[user].(active := false, email := placeholder,
                                                                  passwordHash := newHash)];
      access.passwords := access.passwords[user := newHash];
      return Members.Done;
    }
  }

  // ----- What every run keeps ----------------------------------------------------------------

  /** Both parts see the same passwords, and tokens belong to users. */
  predicate Coupled(s: Store) {
    && s.access.passwords == Passwords(s.members)
    && forall t | t in s.access.tokens :: s.access.tokens[t].user < |s.members.users|
  }

  lemma UsersStay(m: Members.Store, a: Members.Action)
    ensures |m.users| <= |Members.Next(m, a).users|
  {
    if !Members.MovesUsers(a) {
      Members.OthersOnlyAddUsers(m, a);
    } else {
      hide Members.Members, Members.Lower, Members.RowsOf, Members.InvitesExpired;
    }
  }

  /** Passwords and tokens after a step, for the users there are. */
  lemma AccessStays(s: Access.Store, a: Access.Action, n: nat)
    requires forall t | t in s.tokens :: s.tokens[t].user < n
    requires forall u | u in s.passwords :: u < n
    requires forall u: nat | u < n :: u in s.passwords
    requires a.CreateToken? ==> a.user < n
    ensures forall t | t in Access.Step(s, a).tokens :: Access.Step(s, a).tokens[t].user < n
    ensures forall u | u in Access.Step(s, a).passwords :: u < n
    ensures forall u: nat | u < n :: u in Access.Step(s, a).passwords
  {
    hide Access.SessionsOf, Access.Surplus;
  }

  lemma MemberStepKeepsCoupled(s: Store, a: Members.Action)
    requires Coupled(s)
    ensures Coupled(MemberStep(s, a))
  {
    UsersStay(s.members, a);
    hide Members.Step, Access.SessionsOf;
  }

  lemma ReachStepKeepsCoupled(s: Store, a: Access.Action)
    requires Coupled(s)
    ensures Coupled(ReachStep(s, a))
  {
    hide Access.Step;
    if !a.CreateToken? || Members.IsActive(s.members, a.user) {
      AccessStays(s.access, a, |s.members.users|);
    }
  }

  lemma StepKeepsCoupled(s: Store, a: Action)
    requires Coupled(s)
    ensures Coupled(Step(s, a))
  {
    hide Coupled, MemberStep, ReachStep;
    match a
    case Member(member) => MemberStepKeepsCoupled(s, member);
    case Reach(reach) => ReachStepKeepsCoupled(s, reach);
  }

  lemma {:induction false} RunKeepsCoupled(s: Store, actions: seq<Action>)
    requires Coupled(s)
    ensures Coupled(Run(s, actions))
    decreases |actions|
  {
    hide Coupled, Step;
    if actions != [] {
      StepKeepsCoupled(s, actions[0]);
      RunKeepsCoupled(Step(s, actions[0]), actions[1..]);
    }
  }

  // ----- Closed accounts ---------------------------------------------------------------------

  predicate Closed(s: Store, user: nat) {
    user < |s.members.users| && !s.members.users[user].active
  }

  /** A closed account stays closed, in its workspace and its role. */
  predicate StaysClosed(s: Store, s': Store, user: nat) {
    Closed(s, user) ==>
      && Closed(s', user)
      && s'.members.users[user].workspace == s.members.users[user].workspace
      && s'.members.users[user].role == s.members.users[user].role
  }

  lemma MembersKeepClosed(m: Members.Store, a: Members.Action, user: nat)
    requires user < |m.users| && !m.users[user].active
    ensures var m' := Members.Next(m, a);
            && user < |m'.users| && !m'.users[user].active && m'.users[user].workspace == m.users[user].workspace
            && m'.users[user].role == m.users[user].role && m'.users[user].passwordHash == m.users[user].passwordHash
  {
    if Members.MovesUsers(a) {
      Members.MovesLeaveClosed(m, a, user);
    } else {
      Members.OthersOnlyAddUsers(m, a);
    }
  }

  lemma StepKeepsClosed(s: Store, a: Action, user: nat)
    ensures StaysClosed(s, Step(s, a), user)
  {
    hide Members.Step, Access.Step;
    if a.Member? && Closed(s, user) {
      MembersKeepClosed(s.members, a.member, user);
    }
  }

  /** In every run of everything a closed account is never opened again. */
  lemma {:induction false} ClosedStaysClosed(s: Store, actions: seq<Action>, user: nat)
    requires Closed(s, user)
    ensures StaysClosed(s, Run(s, actions), user)
    decreases |actions|
  {
    hide Step;
    if actions != [] {
      StepKeepsClosed(s, actions[0], user);
      ClosedStaysClosed(Step(s, actions[0]), actions[1..], user);
    }
  }

  // ----- What can come to a closed account ---------------------------------------------------

  /** No consent, key or tag and no session belongs to the user. */
  predicate Bare(s: Store, user: nat) {
    Members.RowsOf(s.members.rows, user) == {} && Access.SessionsOf(s.access, user) == {}
  }

  /** A parent puts a key of the family thread on the user. */
  predicate SyncsKey(s: Store, a: Action, user: nat) {
    && a.Member? && a.member.SyncThreadKey? && a.member.target == user
    && Members.Step(s.members, a.member).1 == Members.Done
  }

  /** A login inserts a session of the user. */
  predicate LogsIn(s: Store, a: Action, user: nat) {
    && a.Reach? && a.reach.InsertSession? && Access.LoginIsAt(s.access, a.reach.login, Access.Evicted)
    && s.access.logins[a.reach.login].user == user
  }

  lemma DeletionLeavesBare(s: Store, a: Members.Action)
    requires a.DeleteAccount? && Members.Step(s.members, a).1 == Members.Done
    ensures Closed(MemberStep(s, a), a.user) && Bare(MemberStep(s, a), a.user)
  {
    hide Members.InvitesExpired;
  }

  lemma MemberStepLeavesRows(m: Members.Store, a: Members.Action, user: nat)
    requires user < |m.users| && !m.users[user].active
    requires Members.RowsOf(m.rows, user) == {}
    ensures var next := Members.Next(m, a);
            Members.RowsOf(next.rows, user) == {}
            <==> !(a.SyncThreadKey? && a.target == user && Members.Step(m, a).1 == Members.Done)
  {
    hide Members.Members, Members.EmailInUse, Members.HasAccount, Members.WorkspaceHasParentB;
    hide Members.HasChannel, Members.Lower, Members.InvitesExpired;
    assert forall r | r in m.rows :: r.owner == user ==> r in Members.RowsOf(m.rows, user);
    if a.CreateThread? {
      KeysAreForOpenAccounts(m, a.creator, a.channel, a.keys, user);
    }
    var next := Members.Next(m, a);
    if a.SyncThreadKey? && a.target == user && Members.Step(m, a).1 == Members.Done {
      assert Members.Row(user, Members.ThreadKey(a.thread)) in Members.RowsOf(next.rows, user);
    }
  }

  lemma KeysAreForOpenAccounts(m: Members.Store, creator: nat, channel: Members.Channel, keys: seq<nat>, user: nat)
    requires user < |m.users| && !m.users[user].active
    ensures forall r | r in Members.ThreadCreated(m, creator, channel, keys).0.rows && r.owner == user :: r in m.rows
  {
    assert forall w :: user !in Members.Parents(m, w);
    forall w, keyed: seq<nat> | Members.KeysFit(m, w, keyed)
      ensures user !in keyed
    {
      assert user in keyed ==> user in set u | u in keyed;
    }
  }

  lemma ReachStepLeavesSessions(s: Access.Store, a: Access.Action, user: nat)
    requires Access.SessionsOf(s, user) == {}
    ensures Access.SessionsOf(Access.Step(s, a), user) == {}
            <==> !(a.InsertSession? && Access.LoginIsAt(s, a.login, Access.Evicted) && s.logins[a.login].user == user)
  {
    hide Access.Surplus;
    assert forall i | i in s.sessions :: s.sessions[i].user == user ==> i in Access.SessionsOf(s, user);
    if a.InsertSession? && Access.LoginIsAt(s, a.login, Access.Evicted) && s.logins[a.login].user == user {
      assert s.nextSession in Access.SessionsOf(Access.Step(s, a), user);
    }
  }

  lemma StepKeepsBareIff(s: Store, a: Action, user: nat)
    requires Closed(s, user) && Bare(s, user)
    ensures Bare(Step(s, a), user) <==> !SyncsKey(s, a, user) && !LogsIn(s, a, user)
  {
    match a
    case Member(member) =>
      MemberStepLeavesRows(s.members, member, user);
      hide Members.Step, Members.RowsOf;
      assert forall i | i in s.access.sessions ::
          s.access.sessions[i].user == user ==> i in Access.SessionsOf(s.access, user);
    case Reach(reach) =>
      ReachStepLeavesSessions(s.access, reach, user);
      hide Access.Step, Access.SessionsOf, Members.RowsOf;
  }

  function IsBare(user: nat): Store -> bool {
    (s: Store) => Bare(s, user)
  }

  function ComesTo(user: nat): (Store, Action) -> bool {
    (s: Store, a: Action) => SyncsKey(s, a, user) || LogsIn(s, a, user)
  }

  /**
    After its user has deleted it, an account stays without consents, keys, tags and sessions at every
    moment of a run if and only if the run neither syncs a key to it nor logs in to it.
   */
  lemma DeletedAccountIsBareIff(s: Store, a: Members.Action, actions: seq<Action>)
    requires a.DeleteAccount? && Members.Step(s.members, a).1 == Members.Done
    ensures Runs.Throughout(Run, IsBare(a.user), MemberStep(s, a), actions)
            <==> Runs.NeverBad(Run, ComesTo(a.user), MemberStep(s, a), actions)
  {
    DeletionLeavesBare(s, a);
    AccountRunsBySteps();
    var user := a.user;
    hide Step, Closed, Bare, SyncsKey, LogsIn, MemberStep;
    forall t, b | Closed(t, user)
      ensures Closed(Step(t, b), user)
      ensures IsBare(user)(t) ==> (IsBare(user)(Step(t, b)) <==> !ComesTo(user)(t, b))
    {
      StepKeepsClosed(t, b, user);
      if Bare(t, user) {
        StepKeepsBareIff(t, b, user);
      }
    }
    Runs.ThroughoutIff(Run, Step, t => Closed(t, user), IsBare(user), ComesTo(user), MemberStep(s, a), actions);
  }
}
