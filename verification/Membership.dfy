/**
  Who belongs to which workspace: registration, joining by code, invitations by e-mail, child accounts
  and account deletion (src/services/authService.js, src/services/workspace.js, src/routes/invite.js),
  with the rows that belong to one user: consents, thread keys and message tags. Users, workspaces,
  children, invitations and threads are identified by their position in creation order.
 */
module Membership {
  import opened Options
  import Runs
  import Sets

  datatype Role = ParentA | ParentB | Child

  /** `profile` is the child profile that a child account belongs to. */
  datatype User = User(workspace: nat, role: Role, email: string, passwordHash: string, active: bool,
                       profile: Option<nat>)

  datatype InviteStatus = Pending | Accepted | Expired

  datatype Invite = Invite(email: string, inviter: nat, status: InviteStatus, expiresAt: nat)

  datatype ChildProfile = ChildProfile(workspace: nat, present: bool)

  datatype Consent = Terms | DataProcessing | ChildData | EmailNotifications | Marketing | Analytics

  /** The channels of a workspace, of which each exists once; there may be any number of topics. */
  datatype Channel = Family | General | School | Health | Finance | ScheduleChange | Topic

  datatype Thread = Thread(workspace: nat, channel: Channel)

  /** A row of one of the tables that belong to a single user. */
  datatype Row = Row(owner: nat, kind: RowKind)

  datatype RowKind =
    | ConsentRow(consent: Consent, granted: bool, id: nat)
    | ThreadKey(thread: nat)
    | MessageTag(message: nat, tag: string)

  /** Of a workspace only the expiry of its parent invite code matters here. */
  datatype Store = Store(users: seq<User>, codeExpiry: seq<nat>, invites: seq<Invite>,
                         children: seq<ChildProfile>, threads: seq<Thread>, rows: set<Row>)

  datatype Action =
    | Register(email: string, passwordHash: string, consents: set<Consent>, expiry: nat)
    | JoinAsParent(workspace: nat, email: string, passwordHash: string, now: nat)
    | JoinAsChild(workspace: nat, email: string, passwordHash: string, profile: Option<nat>)
    | AddChild(workspace: nat)
    | UpdateConsent(user: nat, consent: Consent, granted: bool, id: nat)
    | SetTags(user: nat, message: nat, tags: set<string>)
    | CreateThread(creator: nat, channel: Channel, keys: seq<nat>)
    | SyncThreadKey(parent: nat, thread: nat, target: nat)
    | RefreshCode(workspace: nat, expiry: nat)
    | SendInvite(inviter: nat, email: string, now: nat, newExpiry: nat, expiresAt: nat)
    | AcceptInvite(user: nat, invite: nat, now: nat)
    | DeleteAccount(user: nat, passwordHash: string, newHash: string, placeholder: string)
    | DeleteChild(workspace: nat, child: nat, placeholder: string)

  datatype Outcome = Done | Refused(code: string)

  const REQUIRED_CONSENTS: set<Consent> := {Terms, DataProcessing, ChildData}

  function LowerChar(c: char): char {
    if 'A' <= c <= 'Z' then (c as int + 32) as char else c
  }

  function Lower(s: string): (r: string)
    ensures |r| == |s|
  {
    seq(|s|, i requires 0 <= i < |s| => LowerChar(s[i]))
  }

  predicate IsActive(s: Store, u: nat) {
    u < |s.users| && s.users[u].active
  }

  predicate IsParent(u: User) {
    u.role == ParentA || u.role == ParentB
  }

  predicate EmailInUse(s: Store, email: string) {
    exists u | 0 <= u < |s.users| :: s.users[u].email == email
  }

  /** Some account, open or closed, belongs to the child profile. */
  predicate HasAccount(s: Store, child: nat) {
    exists u | 0 <= u < |s.users| :: s.users[u].profile == Some(child)
  }

  predicate ChildIn(s: Store, w: nat, child: nat) {
    child < |s.children| && s.children[child].present && s.children[child].workspace == w
  }

  function Members(s: Store, w: nat): set<nat> {
    set u: nat | u < |s.users| && s.users[u].active && s.users[u].workspace == w
  }

  function MembersAs(s: Store, w: nat, role: Role): set<nat> {
    set u: nat | u < |s.users| && s.users[u].active && s.users[u].workspace == w && s.users[u].role == role
  }

  function Parents(s: Store, w: nat): set<nat> {
    set u: nat | u < |s.users| && s.users[u].active && s.users[u].workspace == w && IsParent(s.users[u])
  }

  predicate WorkspaceHasParentB(s: Store, w: nat) {
    exists u | 0 <= u < |s.users| :: s.users[u].active && s.users[u].workspace == w && s.users[u].role == ParentB
  }

  /** All six consents are saved, granted or not. */
  function ConsentRows(user: nat, granted: set<Consent>): set<Row> {
    set c: Consent :: Row(user, ConsentRow(c, c in granted, 0))
  }

  function RowsOf(rows: set<Row>, user: nat): set<Row> {
    set r | r in rows && r.owner == user
  }

  function Registered(s: Store, a: Action): (Store, Outcome)
    requires a.Register?
  {
    if !(REQUIRED_CONSENTS <= a.consents) then (s, Refused("required_consents_missing"))
    else if EmailInUse(s, a.email) then (s, Refused("email_in_use"))
    else
      (s.(users := s.users + [User(|s.codeExpiry|, ParentA, a.email, a.passwordHash, true, None)],
          codeExpiry := s.codeExpiry + [a.expiry],
          rows := s.rows + ConsentRows(|s.users|, a.consents)), Done)
  }

  function Joined(s: Store, w: nat, email: string, passwordHash: string, now: nat): (Store, Outcome) {
    if EmailInUse(s, email) then (s, Refused("email_in_use"))
    else if w >= |s.codeExpiry| then (s, Refused("workspace_not_found"))
    else if WorkspaceHasParentB(s, w) then (s, Refused("parent_already_joined"))
    else if s.codeExpiry[w] < now then (s, Refused("invite_expired"))
    else (s.(users := s.users + [User(w, ParentB, email, passwordHash, true, None)]), Done)
  }

  function ChildJoined(s: Store, w: nat, email: string, passwordHash: string, profile: Option<nat>): (Store, Outcome) {
    if EmailInUse(s, email) then (s, Refused("email_in_use"))
    else if w >= |s.codeExpiry| then (s, Refused("workspace_not_found"))
    else if profile.None? then (s, Refused("child_profile_required"))
    else if !ChildIn(s, w, profile.value) then (s, Refused("child_not_found"))
    else if HasAccount(s, profile.value) then (s, Refused("child_profile_taken"))
    else (s.(users := s.users + [User(w, Child, email, passwordHash, true, profile)]), Done)
  }

  function InviteSent(s: Store, a: Action): (Store, Outcome)
    requires a.SendInvite?
  {
    if !IsActive(s, a.inviter) then (s, Refused("invalid_session"))
    else if !IsParent(s.users[a.inviter]) then (s, Refused("forbidden"))
    else if Lower(a.email) == Lower(s.users[a.inviter].email) then (s, Refused("cannot_invite_self"))
    else
      var w := s.users[a.inviter].workspace;
      if w >= |s.codeExpiry| then (s, Refused("workspace_not_found"))
      else
        (s.(codeExpiry := if s.codeExpiry[w] < a.now then s.codeExpiry[w := a.newExpiry] else s.codeExpiry,
            invites := s.invites + [Invite(Lower(a.email), a.inviter, Pending, a.expiresAt)]), Done)
  }

  /** Note that, unlike joining by code, acceptance never asks whether the workspace has a parentB. */
  function InviteAccepted(s: Store, user: nat, i: nat, now: nat): (Store, Outcome) {
    if !IsActive(s, user) then (s, Refused("invalid_session"))
    else if i >= |s.invites| then (s, Refused("invite_not_found"))
    else
      var invite := s.invites[i];
      if invite.status != Pending then (s, Refused("invite_not_active"))
      else if invite.expiresAt < now then
        (s.(invites := s.invites[i := invite.(status := Expired)]), Refused("invite_expired"))
      else if invite.inviter >= |s.users| then (s, Refused("inviter_missing_workspace"))
      else if Lower(s.users[user].email) != Lower(invite.email) then (s, Refused("invite_email_mismatch"))
      else
        var target := s.users[invite.inviter].workspace;
        if |Members(s, s.users[user].workspace)| > 1 || |Members(s, target)| >= 2
        then (s, Refused("workspace_conflict"))
        else
          (s.(users := s.users[user := s.users[user].(workspace := target, role := ParentB)],
              invites := s.invites[i := invite.(status := Accepted)]), Done)
  }

  function InvitesExpired(invites: seq<Invite>, inviter: nat): (r: seq<Invite>)
    ensures |r| == |invites|
  {
    seq(|invites|, i requires 0 <= i < |invites| =>
      if invites[i].inviter == inviter && invites[i].status == Pending then invites[i].(status := Expired)
      else invites[i])
  }

  /** The address is free for the user: the e-mail column is unique. */
  predicate IsFreeFor(s: Store, email: string, user: nat) {
    forall u | 0 <= u < |s.users| && u != user :: s.users[u].email != email
  }

  function AccountDeleted(s: Store, a: Action): (Store, Outcome)
    requires a.DeleteAccount?
  {
    if !IsActive(s, a.user) then (s, Refused("invalid_session"))
    else if a.passwordHash != s.users[a.user].passwordHash then (s, Refused("invalid_password"))
    else if !IsFreeFor(s, a.placeholder, a.user) then (s, Refused("unique_constraint"))
    else
      var closed := s.users[a.user].(active := false, email := a.placeholder, passwordHash := a.newHash);
      (s.(users := s.users[a.user := closed], invites := InvitesExpired(s.invites, a.user),
          rows := s.rows - RowsOf(s.rows, a.user)), Done)
  }

  /** Deleting a child closes its account. */
  function AccountOfChildClosed(users: seq<User>, child: nat, placeholder: string): (r: seq<User>)
    ensures |r| == |users|
  {
    seq(|users|, i requires 0 <= i < |users| =>
      if users[i].profile != Some(child) then users[i]
      else users[i].(active := false, email := placeholder, profile := None))
  }

  function ChildDeleted(s: Store, w: nat, child: nat, placeholder: string): (Store, Outcome) {
    if !ChildIn(s, w, child) then (s, Refused("child_not_found"))
    else if exists u: nat | u < |s.users| :: s.users[u].profile == Some(child) && !IsFreeFor(s, placeholder, u) then
      (s, Refused("unique_constraint"))
    else
      (s.(users := AccountOfChildClosed(s.users, child, placeholder),
          children := s.children[child := s.children[child].(present := false)]), Done)
  }

  // ----- Rows of one user --------------------------------------------------------------------

  function ConsentUpdated(s: Store, user: nat, consent: Consent, granted: bool, id: nat): (Store, Outcome) {
    if !IsActive(s, user) then (s, Refused("invalid_session"))
    else if consent in REQUIRED_CONSENTS && !granted then (s, Refused("required_consent_locked"))
    else (s.(rows := s.rows + {Row(user, ConsentRow(consent, granted, id))}), Done)
  }

  function TagsOf(rows: set<Row>, user: nat, message: nat): set<Row> {
    set r | r in rows && r.owner == user && r.kind.MessageTag? && r.kind.message == message
  }

  function TagsSet(s: Store, user: nat, message: nat, tags: set<string>): (Store, Outcome) {
    if !IsActive(s, user) then (s, Refused("invalid_session"))
    else if !IsParent(s.users[user]) then (s, Refused("forbidden"))
    else
      var tagged := set tag | tag in tags :: Row(user, MessageTag(message, tag));
      (s.(rows := s.rows - TagsOf(s.rows, user, message) + tagged), Done)
  }

  predicate HasChannel(s: Store, w: nat, channel: Channel) {
    exists t | 0 <= t < |s.threads| :: s.threads[t] == Thread(w, channel)
  }

  /** The keys are for exactly the active parents of the workspace, one each. */
  predicate KeysFit(s: Store, w: nat, keys: seq<nat>) {
    && (forall i, j | 0 <= i < j < |keys| :: keys[i] != keys[j])
    && (set u | u in keys) == Parents(s, w)
  }

  function ThreadCreated(s: Store, creator: nat, channel: Channel, keys: seq<nat>): (Store, Outcome) {
    if !IsActive(s, creator) then (s, Refused("invalid_session"))
    else if channel != Family && !IsParent(s.users[creator]) then (s, Refused("forbidden"))
    else
      var w := s.users[creator].workspace;
      var keyed := if channel == ScheduleChange then [] else keys;
      if channel != Topic && HasChannel(s, w, channel) then (s, Done)
      else if keyed != [] && !KeysFit(s, w, keyed) then (s, Refused("invalid_thread_keys"))
      else
        (s.(threads := s.threads + [Thread(w, channel)],
            rows := s.rows + set u | u in keyed :: Row(u, ThreadKey(|s.threads|))), Done)
  }

  /** Note that the target only has to be a child of the workspace; its account may be closed. */
  function ThreadKeySynced(s: Store, parent: nat, thread: nat, target: nat): (Store, Outcome) {
    if !IsActive(s, parent) then (s, Refused("invalid_session"))
    else if !IsParent(s.users[parent]) then (s, Refused("forbidden"))
    else
      var w := s.users[parent].workspace;
      if thread >= |s.threads| || s.threads[thread].workspace != w then (s, Refused("thread_not_found"))
      else if s.threads[thread].channel != Family then (s, Refused("invalid_thread_audience"))
      else if target >= |s.users| || s.users[target].workspace != w || s.users[target].role != Child
      then (s, Refused("invalid_thread_keys"))
      else if Row(target, ThreadKey(thread)) in s.rows then (s, Refused("already_exists"))
      else (s.(rows := s.rows + {Row(target, ThreadKey(thread))}), Done)
  }

  // ----- Steps -------------------------------------------------------------------------------

  function Step(s: Store, a: Action): (Store, Outcome) {
    match a
    case Register(_, _, _, _) => Registered(s, a)
    case JoinAsParent(w, email, passwordHash, now) => Joined(s, w, email, passwordHash, now)
    case JoinAsChild(w, email, passwordHash, profile) => ChildJoined(s, w, email, passwordHash, profile)
    case AddChild(w) =>
      if w < |s.codeExpiry| then (s.(children := s.children + [ChildProfile(w, true)]), Done)
      else (s, Refused("workspace_not_found"))
    case UpdateConsent(user, consent, granted, id) => ConsentUpdated(s, user, consent, granted, id)
    case SetTags(user, message, tags) => TagsSet(s, user, message, tags)
    case CreateThread(creator, channel, keys) => ThreadCreated(s, creator, channel, keys)
    case SyncThreadKey(parent, thread, target) => ThreadKeySynced(s, parent, thread, target)
    case RefreshCode(w, expiry) =>
      if w < |s.codeExpiry| then (s.(codeExpiry := s.codeExpiry[w := expiry]), Done)
      else (s, Refused("workspace_not_found"))
    case SendInvite(_, _, _, _, _) => InviteSent(s, a)
    case AcceptInvite(user, i, now) => InviteAccepted(s, user, i, now)
    case DeleteAccount(_, _, _, _) => AccountDeleted(s, a)
    case DeleteChild(w, child, placeholder) => ChildDeleted(s, w, child, placeholder)
  }

  function Next(s: Store, a: Action): Store {
    Step(s, a).0
  }

  function Run(s: Store, actions: seq<Action>): Store
    decreases |actions|
  {
    if actions == [] then s else Run(Next(s, actions[0]), actions[1..])
  }

  const EMPTY := Store([], [], [], [], [], {})

  // ----- The handlers as methods on the tables -----------------------------------------------

  class MembershipService {
    var users: seq<User>
    var codeExpiry: seq<nat>
    var invites: seq<Invite>
    var children: seq<ChildProfile>
    var threads: seq<Thread>
    var rows: set<Row>

    function State(): Store
      reads this
    {
      Store(users, codeExpiry, invites, children, threads, rows)
    }

    constructor ()
      ensures State() == EMPTY
    {
      users, codeExpiry, invites, children, threads, rows := [], [], [], [], [], {};
    }

    method RegisterUser(email: string, passwordHash: string, consents: set<Consent>, expiry: nat)
      returns (outcome: Outcome)
      modifies this`users, this`codeExpiry, this`rows
      ensures (State(), outcome) == Step(old(State()), Register(email, passwordHash, consents, expiry))
    {
      var unchecked := REQUIRED_CONSENTS;
      while unchecked != {}
        invariant users == old(users) && codeExpiry == old(codeExpiry) && rows == old(rows)
        invariant unchecked <= REQUIRED_CONSENTS && REQUIRED_CONSENTS - unchecked <= consents
        decreases |unchecked|
      {
        var consent :| consent in unchecked;
        if consent !in consents {
          return Refused("required_consents_missing");
        }
        unchecked := unchecked - {consent};
      }
      if EmailInUse(State(), email) {
        return Refused("email_in_use");
      }
      rows := rows + ConsentRows(|users|, consents);
      var workspace := |codeExpiry|;
      codeExpiry := codeExpiry + [expiry];
      users := users + [User(workspace, ParentA, email, passwordHash, true, None)];
      return Done;
    }

    method JoinWorkspace(isChildJoin: bool, workspace: nat, email: string, passwordHash: string,
                         childProfileId: Option<nat>, now: nat) returns (outcome: Outcome)
      modifies this`users
      ensures (State(), outcome) == Step(old(State()),
                if isChildJoin then JoinAsChild(workspace, email, passwordHash, childProfileId)
                else JoinAsParent(workspace, email, passwordHash, now))
    {
      if EmailInUse(State(), email) {
        return Refused("email_in_use");
      }
      if workspace >= |codeExpiry| {
        return Refused("workspace_not_found");
      }
      if !isChildJoin {
        if WorkspaceHasParentB(State(), workspace) {
          return Refused("parent_already_joined");
        }
        if codeExpiry[workspace] < now {
          return Refused("invite_expired");
        }
      }
      if isChildJoin {
        if childProfileId.None? {
          return Refused("child_profile_required");
        }
        if !ChildIn(State(), workspace, childProfileId.value) {
          return Refused("child_not_found");
        }
        if HasAccount(State(), childProfileId.value) {
          return Refused("child_profile_taken");
        }
      }
      users := users + [User(workspace, if isChildJoin then Child else ParentB, email, passwordHash, true,
                             if isChildJoin then childProfileId else None)];
      return Done;
    }

    method SendInviteTo(inviter: nat, email: string, now: nat, newExpiry: nat, expiresAt: nat)
      returns (outcome: Outcome)
      modifies this`invites, this`codeExpiry
      ensures (State(), outcome) == Step(old(State()), SendInvite(inviter, email, now, newExpiry, expiresAt))
    {
      if inviter >= |users| || !users[inviter].active {
        return Refused("invalid_session");
      }
      if !IsParent(users[inviter]) {
        return Refused("forbidden");
      }
      if Lower(email) == Lower(users[inviter].email) {
        return Refused("cannot_invite_self");
      }
      var workspace := users[inviter].workspace;
      if workspace >= |codeExpiry| {
        return Refused("workspace_not_found");
      }
      if codeExpiry[workspace] < now {
        codeExpiry := codeExpiry[workspace := newExpiry];
      }
      invites := invites + [Invite(Lower(email), inviter, Pending, expiresAt)];
      return Done;
    }

    method AcceptInviteToken(user: nat, i: nat, now: nat) returns (outcome: Outcome)
      modifies this`users, this`invites
      ensures (State(), outcome) == Step(old(State()), AcceptInvite(user, i, now))
    {
      hide Members, Lower;
      if user >= |users| || !users[user].active {
        return Refused("invalid_session");
      }
      if i >= |invites| {
        return Refused("invite_not_found");
      }
      var invite := invites[i];
      if invite.status != Pending {
        return Refused("invite_not_active");
      }
      if invite.expiresAt < now {
        invites := invites[i := invite.(status := Expired)];
        return Refused("invite_expired");
      }
      if invite.inviter >= |users| {
        return Refused("inviter_missing_workspace");
      }
      var target := users[invite.inviter].workspace;
      if Lower(users[user].email) != Lower(invite.email) {
        return Refused("invite_email_mismatch");
      }
      var userWorkspaceMembers := |Members(State(), users[user].workspace)|;
      var inviterWorkspaceMembers := |Members(State(), target)|;
      if userWorkspaceMembers > 1 || inviterWorkspaceMembers >= 2 {
        return Refused("workspace_conflict");
      }
      users := users[user := users[user].(workspace := target, role := ParentB)];
      invites := invites[i := invite.(status := Accepted)];
      return Done;
    }

    /** The bulk update of the user's pending invitations, row by row. */
    method ExpireInvites(inviter: nat)
      modifies this`invites
      ensures invites == InvitesExpired(old(invites), inviter)
    {
      for i := 0 to |invites|
        invariant |invites| == |old(invites)|
        invariant forall j | 0 <= j < i :: invites[j] == InvitesExpired(old(invites), inviter)[j]
        invariant forall j | i <= j < |invites| :: invites[j] == old(invites)[j]
      {
        if invites[i].inviter == inviter && invites[i].status == Pending {
          invites := invites[i := invites[i].(status := Expired)];
        }
      }
    }

    method UpdateUserConsent(user: nat, consent: Consent, granted: bool, id: nat) returns (outcome: Outcome)
      modifies this`rows
      ensures (State(), outcome) == Step(old(State()), UpdateConsent(user, consent, granted, id))
    {
      if user >= |users| || !users[user].active {
        return Refused("invalid_session");
      }
      if consent in REQUIRED_CONSENTS && !granted {
        return Refused("required_consent_locked");
      }
      rows := rows + {Row(user, ConsentRow(consent, granted, id))};
      return Done;
    }

    method SetMessageTags(user: nat, message: nat, tags: set<string>) returns (outcome: Outcome)
      modifies this`rows
      ensures (State(), outcome) == Step(old(State()), SetTags(user, message, tags))
    {
      if user >= |users| || !users[user].active {
        return Refused("invalid_session");
      }
      if !IsParent(users[user]) {
        return Refused("forbidden");
      }
      rows := rows - TagsOf(rows, user, message);
      rows := rows + set tag | tag in tags :: Row(user, MessageTag(message, tag));
      return Done;
    }

    /** The parents of the thread's workspace must be the users of the keys, one for one. */
    method AssertValidParentThreadKeys(workspace: nat, keys: seq<nat>) returns (valid: bool)
      ensures valid == (keys != [] && KeysFit(State(), workspace, keys))
    {
      hide Parents;
      if keys == [] {
        return false;
      }
      var required := Parents(State(), workspace);
      var provided := {};
      for i := 0 to |keys|
        invariant provided == set u | u in keys[..i]
        invariant forall j, k | 0 <= j < k < i :: keys[j] != keys[k]
        invariant provided <= required
      {
        assert keys[..i + 1] == keys[..i] + [keys[i]];
        if keys[i] in provided {
          return false;
        }
        if keys[i] !in required {
          assert keys[i] in set u | u in keys;
          return false;
        }
        provided := provided + {keys[i]};
      }
      assert keys[..|keys|] == keys;
      return provided == required;
    }

    method CreateThreadIn(creator: nat, channel: Channel, keys: seq<nat>) returns (outcome: Outcome)
      modifies this`threads, this`rows
      ensures (State(), outcome) == Step(old(State()), CreateThread(creator, channel, keys))
    {
      hide KeysFit;
      if creator >= |users| || !users[creator].active {
        return Refused("invalid_session");
      }
      if channel != Family && !IsParent(users[creator]) {
        return Refused("forbidden");
      }
      var workspace := users[creator].workspace;
      if channel != Topic && HasChannel(State(), workspace, channel) {
        return Done;
      }
      var keyed := if channel == ScheduleChange then [] else keys;
      if keyed != [] {
        var valid := AssertValidParentThreadKeys(workspace, keyed);
        if !valid {
          return Refused("invalid_thread_keys");
        }
      }
      var created := |threads|;
      threads := threads + [Thread(workspace, channel)];
      rows := rows + set u | u in keyed :: Row(u, ThreadKey(created));
      return Done;
    }

    method SyncFamilyThreadKey(parent: nat, thread: nat, target: nat) returns (outcome: Outcome)
      modifies this`rows
      ensures (State(), outcome) == Step(old(State()), SyncThreadKey(parent, thread, target))
    {
      if parent >= |users| || !users[parent].active {
        return Refused("invalid_session");
      }
      if !IsParent(users[parent]) {
        return Refused("forbidden");
      }
      var workspace := users[parent].workspace;
      if thread >= |threads| || threads[thread].workspace != workspace {
        return Refused("thread_not_found");
      }
      if threads[thread].channel != Family {
        return Refused("invalid_thread_audience");
      }
      if target >= |users| || users[target].workspace != workspace || users[target].role != Child {
        return Refused("invalid_thread_keys");
      }
      if Row(target, ThreadKey(thread)) in rows {
        return Refused("already_exists");
      }
      rows := rows + {Row(target, ThreadKey(thread))};
      return Done;
    }
  }

  // ----- What a step leaves alone ------------------------------------------------------------

  predicate IsRowAction(a: Action) {
    a.UpdateConsent? || a.SetTags? || a.CreateThread? || a.SyncThreadKey?
  }

  lemma RowActionsLeaveUsers(s: Store, a: Action)
    requires IsRowAction(a)
    ensures Next(s, a).users == s.users && Next(s, a).children == s.children
    ensures Next(s, a).codeExpiry == s.codeExpiry && Next(s, a).invites == s.invites
  {
    hide Parents, TagsOf, HasChannel, KeysFit;
  }

  predicate MovesUsers(a: Action) {
    a.AcceptInvite? || a.DeleteAccount? || a.DeleteChild?
  }

  /** Only accepting an invitation and the two deletions change a user that is there. */
  lemma OthersOnlyAddUsers(s: Store, a: Action)
    requires !MovesUsers(a)
    ensures s.users <= Next(s, a).users
  {
    if IsRowAction(a) {
      RowActionsLeaveUsers(s, a);
    } else {
      hide EmailInUse, HasAccount, WorkspaceHasParentB, Lower, ConsentRows;
    }
  }

  /** A closed account is not opened again, and keeps its workspace, role and password. */
  lemma MovesLeaveClosed(s: Store, a: Action, user: nat)
    requires MovesUsers(a) && user < |s.users| && !s.users[user].active
    ensures |Next(s, a).users| == |s.users|
    ensures var u, u' := s.users[user], Next(s, a).users[user];
            !u'.active && u'.workspace == u.workspace && u'.role == u.role && u'.passwordHash == u.passwordHash
  {
    hide Members, Lower, RowsOf, InvitesExpired;
  }

  // ----- At most two parents -----------------------------------------------------------------

  predicate SeatsOk(s: Store, w: nat) {
    |MembersAs(s, w, ParentA)| <= 1 && |Parents(s, w)| <= 2
  }

  ghost predicate Inv(s: Store) {
    && (forall u | 0 <= u < |s.users| :: s.users[u].workspace < |s.codeExpiry|)
    && (forall w: nat :: SeatsOk(s, w))
  }

  /** No new parent came to the workspace. */
  lemma SeatsShrink(s: Store, s': Store, w: nat)
    requires SeatsOk(s, w)
    requires MembersAs(s', w, ParentA) <= MembersAs(s, w, ParentA) && Parents(s', w) <= Parents(s, w)
    ensures SeatsOk(s', w)
  {
    hide MembersAs, Parents;
    Sets.SubsetIsSmaller(MembersAs(s', w, ParentA), MembersAs(s, w, ParentA));
    Sets.SubsetIsSmaller(Parents(s', w), Parents(s, w));
  }

  lemma RegisterKeepsSeats(s: Store, a: Action, w: nat)
    requires Inv(s) && a.Register?
    ensures SeatsOk(Registered(s, a).0, w)
  {
    hide SeatsOk;
    var s' := Registered(s, a).0;
    assert SeatsOk(s, w);
    if w == |s.codeExpiry| && s' != s {
      assert MembersAs(s', w, ParentA) == {|s.users|} == Parents(s', w);
      OneSeat(s', w, |s.users|);
    } else {
      SeatsShrink(s, s', w);
    }
  }

  lemma OneSeat(s: Store, w: nat, u: nat)
    requires MembersAs(s, w, ParentA) == {u} == Parents(s, w)
    ensures SeatsOk(s, w)
  {
  }

  lemma JoinKeepsSeats(s: Store, w: nat, email: string, passwordHash: string, now: nat, v: nat)
    requires SeatsOk(s, v)
    ensures SeatsOk(Joined(s, w, email, passwordHash, now).0, v)
  {
    var s' := Joined(s, w, email, passwordHash, now).0;
    if v == w && s' != s {
      assert Parents(s, v) == MembersAs(s, v, ParentA);
      assert Parents(s', v) == Parents(s, v) + {|s.users|};
      assert MembersAs(s', v, ParentA) == MembersAs(s, v, ParentA);
    } else {
      assert Parents(s', v) == Parents(s, v);
      assert MembersAs(s', v, ParentA) == MembersAs(s, v, ParentA);
    }
  }

  lemma AcceptKeepsSeats(s: Store, user: nat, i: nat, now: nat, v: nat)
    requires SeatsOk(s, v)
    ensures SeatsOk(InviteAccepted(s, user, i, now).0, v)
  {
    var (s', outcome) := InviteAccepted(s, user, i, now);
    if outcome == Done && v == s.users[s.invites[i].inviter].workspace {
      assert Parents(s', v) <= Members(s, v) + {user};
      Sets.SubsetIsSmaller(Parents(s', v), Members(s, v) + {user});
      assert MembersAs(s', v, ParentA) <= MembersAs(s, v, ParentA);
      Sets.SubsetIsSmaller(MembersAs(s', v, ParentA), MembersAs(s, v, ParentA));
    } else {
      SeatsShrink(s, s', v);
    }
  }

  lemma StepKeepsInv(s: Store, a: Action)
    requires Inv(s)
    ensures Inv(Step(s, a).0)
  {
    hide SeatsOk, Registered, Joined, InviteAccepted;
    var s' := Step(s, a).0;
    forall w: nat
      ensures SeatsOk(s', w)
    {
      assert SeatsOk(s, w);
      match a
      case Register(_, _, _, _) => RegisterKeepsSeats(s, a, w);
      case JoinAsParent(v, email, passwordHash, now) => JoinKeepsSeats(s, v, email, passwordHash, now, w);
      case AcceptInvite(user, i, now) => AcceptKeepsSeats(s, user, i, now, w);
      case _ => SeatsShrink(s, s', w);
    }
    WorkspacesExist(s, a);
  }

  lemma WorkspacesExist(s: Store, a: Action)
    requires forall u | 0 <= u < |s.users| :: s.users[u].workspace < |s.codeExpiry|
    ensures var s' := Step(s, a).0; forall u | 0 <= u < |s'.users| :: s'.users[u].workspace < |s'.codeExpiry|
  {
    hide Members, EmailInUse, WorkspaceHasParentB;
  }

  lemma {:induction false} RunKeepsInv(s: Store, actions: seq<Action>)
    requires Inv(s)
    ensures Inv(Run(s, actions))
    decreases |actions|
  {
    hide Inv, Step;
    if actions != [] {
      StepKeepsInv(s, actions[0]);
      RunKeepsInv(Next(s, actions[0]), actions[1..]);
    }
  }

  /** The active parents of a workspace, in creation order. */
  function ListParentUserIds(s: Store, w: nat, from: nat): (ids: seq<nat>)
    requires from <= |s.users|
    ensures forall u: nat | u in ids :: from <= u && u in Parents(s, w)
    ensures forall u: nat | u in Parents(s, w) && from <= u :: u in ids
    ensures forall i, j | 0 <= i < j < |ids| :: ids[i] < ids[j]
    decreases |s.users| - from
  {
    if from == |s.users| then []
    else
      var rest := ListParentUserIds(s, w, from + 1);
      assert forall j | 0 <= j < |rest| :: rest[j] in rest;
      if from in Parents(s, w) then [from] + rest else rest
  }

  lemma {:induction false} IncreasingIsSmall(ids: seq<nat>, all: set<nat>)
    requires forall i, j | 0 <= i < j < |ids| :: ids[i] < ids[j]
    requires forall u: nat | u in ids :: u in all
    ensures |ids| <= |all|
    decreases |ids|
  {
    if ids != [] {
      var last := ids[|ids| - 1];
      assert last in ids;
      IncreasingIsSmall(ids[..|ids| - 1], all - {last});
    }
  }

  /** In every reachable store a workspace has at most one active parentA and lists nought to two parents. */
  lemma AtMostTwoParents(actions: seq<Action>, w: nat)
    ensures var s := Run(EMPTY, actions);
            |MembersAs(s, w, ParentA)| <= 1 && |ListParentUserIds(s, w, 0)| <= 2
  {
    hide Run, MembersAs, Parents;
    EmptySeats();
    RunKeepsInv(EMPTY, actions);
    var s := Run(EMPTY, actions);
    assert SeatsOk(s, w);
    IncreasingIsSmall(ListParentUserIds(s, w, 0), Parents(s, w));
  }

  lemma EmptySeats()
    ensures Inv(EMPTY)
  {
    forall w: nat
      ensures SeatsOk(EMPTY, w)
    {
      assert MembersAs(EMPTY, w, ParentA) == {} == Parents(EMPTY, w);
    }
  }

  // ----- Two parents of the second kind ------------------------------------------------------

  /**
    Joining by code asks for a free parentB seat; accepting an invitation does not. An acceptance
    leaves a workspace with one parentB at most exactly when it had none, or when the user was
    already its only member.
   */
  lemma AcceptKeepsOneParentBIff(s: Store, user: nat, i: nat, now: nat)
    requires InviteAccepted(s, user, i, now).1 == Done
    ensures var target := s.users[s.invites[i].inviter].workspace;
            |MembersAs(InviteAccepted(s, user, i, now).0, target, ParentB)| <= 1
            <==> !WorkspaceHasParentB(s, target) || s.users[user].workspace == target
  {
    var s' := InviteAccepted(s, user, i, now).0;
    var target := s.users[s.invites[i].inviter].workspace;
    var after := MembersAs(s', target, ParentB);
    assert user in after;
    if s.users[user].workspace == target {
      assert user in Members(s, target);
      Sets.SubsetIsSmaller(after, Members(s, target));
    } else if WorkspaceHasParentB(s, target) {
      var b: nat :| b < |s.users| && s.users[b].active && s.users[b].workspace == target && s.users[b].role == ParentB;
      assert {user, b} <= after;
      Sets.SubsetIsSmaller({user, b}, after);
    } else {
      assert after == {user};
    }
  }

  /** The user joins a workspace with a parentB by an invitation, without having been there. */
  predicate SeatsSecondParentB(s: Store, a: Action, w: nat) {
    && a.AcceptInvite? && Step(s, a).1 == Done
    && s.users[s.invites[a.invite].inviter].workspace == w
    && WorkspaceHasParentB(s, w) && s.users[a.user].workspace != w
  }

  lemma JoinSeatsOne(s: Store, w: nat, email: string, passwordHash: string, now: nat)
    requires Joined(s, w, email, passwordHash, now).1 == Done
    ensures MembersAs(Joined(s, w, email, passwordHash, now).0, w, ParentB) == {|s.users|}
  {
  }

  lemma NoNewParentB(s: Store, a: Action, w: nat)
    requires Inv(s)
    requires !(a.JoinAsParent? && Step(s, a).1 == Done && a.workspace == w)
    requires !(a.AcceptInvite? && Step(s, a).1 == Done && s.users[s.invites[a.invite].inviter].workspace == w)
    ensures MembersAs(Next(s, a), w, ParentB) <= MembersAs(s, w, ParentB)
  {
    hide Members, EmailInUse, HasAccount, WorkspaceHasParentB, SeatsOk, Lower;
  }

  /**
    Whatever happens, a workspace with at most one active parentB keeps at most one, if and only if
    the step is not the acceptance that seats a second.
   */
  lemma StepKeepsOneParentBIff(s: Store, a: Action, w: nat)
    requires Inv(s) && |MembersAs(s, w, ParentB)| <= 1
    ensures |MembersAs(Next(s, a), w, ParentB)| <= 1 <==> !SeatsSecondParentB(s, a, w)
  {
    hide Inv, MembersAs, Members, WorkspaceHasParentB, EmailInUse, HasAccount, Lower;
    if a.JoinAsParent? && Step(s, a).1 == Done && a.workspace == w {
      JoinSeatsOne(s, w, a.email, a.passwordHash, a.now);
    } else if a.AcceptInvite? && Step(s, a).1 == Done && s.users[s.invites[a.invite].inviter].workspace == w {
      AcceptKeepsOneParentBIff(s, a.user, a.invite, a.now);
    } else {
      NoNewParentB(s, a, w);
      Sets.SubsetIsSmaller(MembersAs(Next(s, a), w, ParentB), MembersAs(s, w, ParentB));
    }
  }

  lemma MembershipRunsBySteps()
    ensures Runs.RunsBySteps(Run, Next)
  {
    hide Step;
  }

  /** A parentB whose partner left invites a second one. */
  function SecondParentB(a: string, b: string, c: string, gone: string): seq<Action> {
    [Register(a, "", REQUIRED_CONSENTS, 10), JoinAsParent(0, b, "", 5), DeleteAccount(0, "", "", gone),
     SendInvite(1, c, 5, 20, 10), Register(c, "", REQUIRED_CONSENTS, 10), AcceptInvite(2, 0, 5)]
  }

  /** The store in which the partner has left, and a parentB is alone. */
  function Alone(b: string, gone: string): Store {
    Store([User(0, ParentA, gone, "", false, None), User(0, ParentB, b, "", true, None)], [10], [], [], [], {})
  }

  lemma PartnerLeaves(a: string, b: string, gone: string)
    requires a != b && gone != b
    ensures Next(Next(Next(EMPTY, Register(a, "", REQUIRED_CONSENTS, 10)), JoinAsParent(0, b, "", 5)),
                 DeleteAccount(0, "", "", gone)) == Alone(b, gone)
  {
    ConsentsGoWithTheAccount(0, REQUIRED_CONSENTS);
    hide ConsentRows, RowsOf;
    var s1 := Store([User(0, ParentA, a, "", true, None)], [10], [], [], [], ConsentRows(0, REQUIRED_CONSENTS));
    var s2 := s1.(users := s1.users + [User(0, ParentB, b, "", true, None)]);
    assert Next(EMPTY, Register(a, "", REQUIRED_CONSENTS, 10)) == s1;
    assert Next(s1, JoinAsParent(0, b, "", 5)) == s2;
  }

  lemma SecondArrives(b: string, c: string, gone: string)
    requires b != c && gone != c && Lower(b) != Lower(c)
    ensures var invited := Next(Alone(b, gone), SendInvite(1, c, 5, 20, 10));
            var registered := Next(invited, Register(c, "", REQUIRED_CONSENTS, 10));
            MembersAs(Next(registered, AcceptInvite(2, 0, 5)), 0, ParentB) == {1, 2}
  {
    LowerTwice(c);
    hide Lower, ConsentRows;
    var s4 := Alone(b, gone).(invites := [Invite(Lower(c), 1, Pending, 10)]);
    var s5 := s4.(users := s4.users + [User(1, ParentA, c, "", true, None)], codeExpiry := [10, 10],
                  rows := {} + ConsentRows(2, REQUIRED_CONSENTS));
    assert Next(Alone(b, gone), SendInvite(1, c, 5, 20, 10)) == s4;
    assert Next(s4, Register(c, "", REQUIRED_CONSENTS, 10)) == s5;
    assert Members(s5, 1) == {2} && Members(s5, 0) == {1};
  }

  lemma TwoParentBsAreReachable(a: string, b: string, c: string, gone: string)
    requires a != b && b != c && a != c && gone != b && gone != c && Lower(b) != Lower(c)
    ensures MembersAs(Run(EMPTY, SecondParentB(a, b, c, gone)), 0, ParentB) == {1, 2}
  {
    var actions := SecondParentB(a, b, c, gone);
    PartnerLeaves(a, b, gone);
    SecondArrives(b, c, gone);
    hide Lower, Run, Next, MembersAs, Alone;
    var s1 := Next(EMPTY, actions[0]);
    var s2 := Next(s1, actions[1]);
    var s3 := Next(s2, actions[2]);
    var s4 := Next(s3, actions[3]);
    var s5 := Next(s4, actions[4]);
    MembershipRunsBySteps();
    Runs.RunVisits(Run, Next, actions, [EMPTY, s1, s2, s3, s4, s5, Next(s5, actions[5])]);
  }

  lemma ConsentsGoWithTheAccount(user: nat, granted: set<Consent>)
    ensures ConsentRows(user, granted) - RowsOf(ConsentRows(user, granted), user) == {}
    ensures {} + ConsentRows(user, granted) == ConsentRows(user, granted)
  {
  }

  lemma LowerTwice(s: string)
    ensures Lower(Lower(s)) == Lower(s)
  {
  }

  // ----- Consents ----------------------------------------------------------------------------

  /** No row withholds a required consent. */
  predicate ConsentsStand(s: Store) {
    forall r | r in s.rows && r.kind.ConsentRow? && r.kind.consent in REQUIRED_CONSENTS :: r.kind.granted
  }

  lemma StepKeepsConsents(s: Store, a: Action)
    requires ConsentsStand(s)
    ensures ConsentsStand(Next(s, a))
  {
    hide Members, EmailInUse, HasAccount, WorkspaceHasParentB, HasChannel, KeysFit, Lower;
  }

  lemma {:induction false} RunKeepsConsents(s: Store, actions: seq<Action>)
    requires ConsentsStand(s)
    ensures ConsentsStand(Run(s, actions))
    decreases |actions|
  {
    hide ConsentsStand, Next;
    if actions != [] {
      StepKeepsConsents(s, actions[0]);
      RunKeepsConsents(Next(s, actions[0]), actions[1..]);
    }
  }

  /** In every reachable store no row withholds one of the three required consents. */
  lemma RequiredConsentsStand(actions: seq<Action>, r: Row)
    requires r in Run(EMPTY, actions).rows && r.kind.ConsentRow? && r.kind.consent in REQUIRED_CONSENTS
    ensures r.kind.granted
  {
    hide Run;
    RunKeepsConsents(EMPTY, actions);
  }

  // ----- Child accounts ----------------------------------------------------------------------

  /** Accounts belong to present children, and no two to the same one. */
  ghost predicate ProfilesOk(s: Store) {
    && (forall u | 0 <= u < |s.users| && s.users[u].profile.Some? ::
          s.users[u].profile.value < |s.children| && s.children[s.users[u].profile.value].present)
    && (forall u, v | 0 <= u < v < |s.users| && s.users[u].profile.Some? ::
          s.users[u].profile != s.users[v].profile)
  }

  lemma StepKeepsProfiles(s: Store, a: Action)
    requires ProfilesOk(s)
    ensures ProfilesOk(Next(s, a))
  {
    hide Members, EmailInUse, WorkspaceHasParentB, Lower, ConsentRows, RowsOf;
    hide ChildDeleted, ChildJoined, InvitesExpired;
    if IsRowAction(a) {
      RowActionsLeaveUsers(s, a);
      return;
    }
    match a
    case JoinAsChild(w, email, passwordHash, profile) =>
      ChildJoinKeepsProfiles(s, w, email, passwordHash, profile);
    case DeleteChild(w, child, placeholder) =>
      ChildDeletionKeepsProfiles(s, w, child, placeholder);
    case _ =>
  }

  lemma ChildJoinKeepsProfiles(s: Store, w: nat, email: string, passwordHash: string, profile: Option<nat>)
    requires ProfilesOk(s)
    ensures ProfilesOk(ChildJoined(s, w, email, passwordHash, profile).0)
  {
    hide EmailInUse;
  }

  lemma ChildDeletionKeepsProfiles(s: Store, w: nat, child: nat, placeholder: string)
    requires ProfilesOk(s)
    ensures ProfilesOk(ChildDeleted(s, w, child, placeholder).0)
  {
  }

  lemma {:induction false} RunKeepsProfiles(s: Store, actions: seq<Action>)
    requires ProfilesOk(s)
    ensures ProfilesOk(Run(s, actions))
    decreases |actions|
  {
    hide ProfilesOk, Step;
    if actions != [] {
      StepKeepsProfiles(s, actions[0]);
      RunKeepsProfiles(Next(s, actions[0]), actions[1..]);
    }
  }

  /** In every reachable store a child has at most one account, and a deleted child none. */
  lemma OneAccountPerChild(actions: seq<Action>, u: nat, v: nat)
    requires u < |Run(EMPTY, actions).users| && v < |Run(EMPTY, actions).users|
    requires Run(EMPTY, actions).users[u].profile.Some?
    ensures var s := Run(EMPTY, actions);
            && s.users[u].profile.value < |s.children| && s.children[s.users[u].profile.value].present
            && (s.users[v].profile == s.users[u].profile ==> u == v)
  {
    hide Run;
    RunKeepsProfiles(EMPTY, actions);
  }
}
