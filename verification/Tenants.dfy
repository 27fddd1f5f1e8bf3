/**
 Organizations, memberships and invitations: src/tenants/service.py with the admin checks of
 src/tenants/routes.py, one request at a time. A request that fails leaves no trace, because
 its session is rolled back.
 */
module Tenants {
  import opened Common

  type UserId = int
  type OrgId = int
  type InviteId = int
  type Email = string
  type Time = int

  datatype Role = Admin | Editor | Viewer

  /** The values that ck_org_invites_status_valid lets through. 'expired' is not one of them. */
  datatype InviteStatus = Pending | Accepted | Rejected | Revoked

  datatype Invite = Invite(org: OrgId, email: Email, role: Role, status: InviteStatus, expiresAt: Time)

  datatype State = State(
    users: map<UserId, Email>,
    orgs: map<OrgId, string>,
    members: map<(OrgId, UserId), Role>,
    invites: map<InviteId, Invite>)

  datatype Outcome = Ok | AuthorizationError | NotFoundError | ConflictError | IntegrityError

  const INVITE_LIFETIME: Time := 7 * 24 * 60 * 60

  predicate IsMember(s: State, org: OrgId, u: UserId) {
    (org, u) in s.members
  }

  predicate IsAdmin(s: State, org: OrgId, u: UserId) {
    (org, u) in s.members && s.members[(org, u)] == Admin
  }

  predicate SlugTaken(s: State, slug: string) {
    exists o | o in s.orgs :: s.orgs[o] == slug
  }

  predicate EmailIsMember(s: State, org: OrgId, email: Email) {
    exists u | u in s.users :: s.users[u] == email && IsMember(s, org, u)
  }

  predicate IsPendingFor(i: Invite, org: OrgId, email: Email) {
    i.org == org && i.email == email && i.status == Pending
  }

  predicate HasPending(s: State, org: OrgId, email: Email) {
    exists i | i in s.invites :: IsPendingFor(s.invites[i], org, email)
  }

  // ---------------------------------------------------------------- the requests

  datatype Op =
    | Register(user: UserId, email: Email)
    | CreateOrganization(owner: UserId, org: OrgId, slug: string)
    | CreateInvite(actor: UserId, org: OrgId, email: Email, role: Role, invite: InviteId, now: Time)
    | AcceptInvite(user: UserId, invite: InviteId, now: Time)
    | RemoveMember(actor: UserId, org: OrgId, target: UserId)

  /** Ids drawn by the database are new; the caller of a request is a registered user. */
  predicate CanDo(s: State, op: Op) {
    match op
    case Register(u, _) => u !in s.users
    case CreateOrganization(owner, org, _) => owner in s.users && org !in s.orgs
    case CreateInvite(actor, _, _, _, i, _) => actor in s.users && i !in s.invites
    case AcceptInvite(u, _, _) => u in s.users
    case RemoveMember(actor, _, _) => actor in s.users
  }

  function Answer(s: State, op: Op): Outcome
    requires CanDo(s, op)
  {
    match op
    case Register(_, email) => if email in s.users.Values then ConflictError else Ok
    case CreateOrganization(_, _, slug) => if SlugTaken(s, slug) then ConflictError else Ok
    case CreateInvite(actor, org, email, _, _, _) =>
      if !IsAdmin(s, org, actor) then AuthorizationError
      else if EmailIsMember(s, org, email) || HasPending(s, org, email) then ConflictError
      else Ok
    case AcceptInvite(u, i, now) =>
      if i !in s.invites || s.invites[i].email != s.users[u] then NotFoundError
      else if s.invites[i].status != Pending then ConflictError
      else if s.invites[i].expiresAt < now || IsMember(s, s.invites[i].org, u) then IntegrityError
      else Ok
    case RemoveMember(actor, org, target) =>
      if !IsAdmin(s, org, actor) then AuthorizationError
      else if target == actor then ConflictError
      else if !IsMember(s, org, target) then NotFoundError
      else Ok
  }

  function Do(s: State, op: Op): State
    requires CanDo(s, op)
  {
    if Answer(s, op) != Ok then s
    else match op
      case Register(u, email) => s.(users := s.users[u := email])
      case CreateOrganization(owner, org, slug) =>
        s.(orgs := s.orgs[org := slug], members := s.members[(org, owner) := Admin])
      case CreateInvite(_, org, email, role, i, now) =>
        s.(invites := s.invites[i := Invite(org, email, role, Pending, now + INVITE_LIFETIME)])
      case AcceptInvite(u, i, _) =>
        s.(members := s.members[(s.invites[i].org, u) := s.invites[i].role],
           invites := s.invites[i := s.invites[i].(status := Accepted)])
      case RemoveMember(_, org, target) => s.(members := s.members - {(org, target)})
  }

  ghost predicate Run(s: State, ops: seq<Op>)
    decreases |ops|
  {
    ops == [] || (CanDo(s, ops[0]) && Run(Do(s, ops[0]), ops[1..]))
  }

  ghost function Final(s: State, ops: seq<Op>): State
    requires Run(s, ops)
    decreases |ops|
  {
    if ops == [] then s else Final(Do(s, ops[0]), ops[1..])
  }

  const EMPTY := State(map[], map[], map[], map[])

  // ---------------------------------------------------------------- the invariant

  ghost predicate References(s: State) {
    && (forall o, u | (o, u) in s.members :: o in s.orgs && u in s.users)
    && (forall i | i in s.invites :: s.invites[i].org in s.orgs)
    && (forall u, v | u in s.users && v in s.users && u != v :: s.users[u] != s.users[v])
    && (forall o, p | o in s.orgs && p in s.orgs && o != p :: s.orgs[o] != s.orgs[p])
  }

  ghost predicate Administered(s: State) {
    forall o | o in s.orgs :: exists u :: IsAdmin(s, o, u)
  }

  ghost predicate OnePending(s: State) {
    forall i, k | i in s.invites && k in s.invites && i != k
                  && s.invites[i].status == Pending && s.invites[k].status == Pending ::
      s.invites[i].org != s.invites[k].org || s.invites[i].email != s.invites[k].email
  }

  /** Nobody is invited into an organization they are in. */
  ghost predicate InvitesOutsiders(s: State) {
    forall i, u | i in s.invites && s.invites[i].status == Pending && IsMember(s, s.invites[i].org, u) ::
      u in s.users && s.users[u] != s.invites[i].email
  }

  ghost predicate Inv(s: State) {
    References(s) && Administered(s) && OnePending(s) && InvitesOutsiders(s)
  }

  lemma StepAdministered(s: State, op: Op)
    requires References(s) && Administered(s) && InvitesOutsiders(s) && CanDo(s, op)
    ensures Administered(Do(s, op))
  {
    var s' := Do(s, op);
    forall o | o in s'.orgs ensures exists u :: IsAdmin(s', o, u) {
      if o !in s.orgs {
        assert IsAdmin(s', o, op.owner);
      } else if op.RemoveMember? && Answer(s, op) == Ok && o == op.org {
        assert IsAdmin(s', o, op.actor);
      } else {
        var u :| IsAdmin(s, o, u);
        assert IsAdmin(s', o, u);
      }
    }
  }

  lemma StepReferences(s: State, op: Op)
    requires References(s) && CanDo(s, op)
    ensures References(Do(s, op))
  {
  }

  lemma StepPending(s: State, op: Op)
    requires OnePending(s) && CanDo(s, op)
    ensures OnePending(Do(s, op))
  {
    if op.CreateInvite? && Answer(s, op) == Ok {
      assert forall k | k in s.invites :: !IsPendingFor(s.invites[k], op.org, op.email);
    }
  }

  lemma StepOutsiders(s: State, op: Op)
    requires References(s) && OnePending(s) && InvitesOutsiders(s) && CanDo(s, op)
    ensures InvitesOutsiders(Do(s, op))
  {
    if op.CreateInvite? && Answer(s, op) == Ok {
      assert forall u | IsMember(s, op.org, u) :: u in s.users && s.users[u] != op.email;
    }
  }

  lemma {:induction false} RunInv(s: State, ops: seq<Op>)
    requires Inv(s) && Run(s, ops)
    ensures Inv(Final(s, ops))
    decreases |ops|
  {
    if ops != [] {
      StepAdministered(s, ops[0]);
      StepReferences(s, ops[0]);
      StepPending(s, ops[0]);
      StepOutsiders(s, ops[0]);
      RunInv(Do(s, ops[0]), ops[1..]);
    }
  }

  // ---------------------------------------------------------------- laws of every run

  /** No run of requests leaves an organization without an admin. */
  lemma OrganizationsKeepAnAdmin(ops: seq<Op>, org: OrgId)
    requires Run(EMPTY, ops) && org in Final(EMPTY, ops).orgs
    ensures exists u :: u in Final(EMPTY, ops).users && IsAdmin(Final(EMPTY, ops), org, u)
  {
    RunInv(EMPTY, ops);
    var u :| IsAdmin(Final(EMPTY, ops), org, u);
    assert u in Final(EMPTY, ops).users;
  }

  /** One pending invitation per organization and address, and never for a current member. */
  lemma PendingInvitesAreSound(ops: seq<Op>, i: InviteId)
    requires Run(EMPTY, ops)
    requires i in Final(EMPTY, ops).invites && Final(EMPTY, ops).invites[i].status == Pending
    ensures var s, invite := Final(EMPTY, ops), Final(EMPTY, ops).invites[i];
      && invite.org in s.orgs
      && !EmailIsMember(s, invite.org, invite.email)
      && forall k | k in s.invites && IsPendingFor(s.invites[k], invite.org, invite.email) :: k == i
  {
    RunInv(EMPTY, ops);
  }

  /** Accepting a pending invitation fails only because it has expired, never on uq_org_memberships_org_user. */
  lemma AcceptFailsOnlyOnExpiry(ops: seq<Op>, u: UserId, i: InviteId, now: Time)
    requires Run(EMPTY, ops) && u in Final(EMPTY, ops).users
    requires i in Final(EMPTY, ops).invites
    requires Final(EMPTY, ops).invites[i].email == Final(EMPTY, ops).users[u]
    requires Final(EMPTY, ops).invites[i].status == Pending
    ensures var s := Final(EMPTY, ops);
      && !IsMember(s, s.invites[i].org, u)
      && Answer(s, AcceptInvite(u, i, now)) == if s.invites[i].expiresAt < now then IntegrityError else Ok
  {
    RunInv(EMPTY, ops);
  }

  // ---------------------------------------------------------------- where a role comes from

  /** An invitation keeps all but its status, and that only goes from pending to accepted. */
  predicate SameInvite(before: Invite, after: Invite) {
    && after.org == before.org && after.email == before.email && after.role == before.role
    && after.expiresAt == before.expiresAt
    && (after.status == before.status || (before.status == Pending && after.status == Accepted))
  }

  lemma {:induction false} InviteStays(s: State, ops: seq<Op>, i: InviteId)
    requires Run(s, ops) && i in s.invites
    ensures i in Final(s, ops).invites && SameInvite(s.invites[i], Final(s, ops).invites[i])
    ensures forall u | u in s.users :: u in Final(s, ops).users && Final(s, ops).users[u] == s.users[u]
    decreases |ops|
  {
    if ops != [] {
      InviteStays(Do(s, ops[0]), ops[1..], i);
    }
  }

  ghost predicate Created(ops: seq<Op>, org: OrgId, u: UserId) {
    exists k :: 0 <= k < |ops| && ops[k].CreateOrganization? && ops[k].org == org && ops[k].owner == u
  }

  ghost predicate Invited(s: State, org: OrgId, u: UserId, role: Role) {
    exists i :: && i in s.invites && u in s.users
                && s.invites[i].org == org && s.invites[i].email == s.users[u]
                && s.invites[i].role == role && s.invites[i].status == Accepted
  }

  /** A role that is not the one from before comes from a creation or from an accepted invitation. */
  lemma NewRole(s: State, op: Op, org: OrgId, u: UserId)
    requires References(s) && CanDo(s, op) && (org, u) in Do(s, op).members
    requires (org, u) in s.members ==> s.members[(org, u)] != Do(s, op).members[(org, u)]
    ensures var role := Do(s, op).members[(org, u)];
      || (role == Admin && op.CreateOrganization? && op.org == org && op.owner == u)
      || (op.AcceptInvite? && op.user == u && op.invite in Do(s, op).invites && u in s.users
          && var i := Do(s, op).invites[op.invite];
             i.org == org && i.email == s.users[u] && i.role == role && i.status == Accepted)
  {
  }

  lemma {:induction false} RoleComesFrom(s: State, ops: seq<Op>, org: OrgId, u: UserId)
    requires Inv(s) && Run(s, ops) && (org, u) in Final(s, ops).members
    ensures var role := Final(s, ops).members[(org, u)];
      || ((org, u) in s.members && s.members[(org, u)] == role)
      || (role == Admin && Created(ops, org, u))
      || Invited(Final(s, ops), org, u, role)
    decreases |ops|
  {
    if ops != [] {
      var s', role := Do(s, ops[0]), Final(s, ops).members[(org, u)];
      StepReferences(s, ops[0]);
      StepPending(s, ops[0]);
      StepOutsiders(s, ops[0]);
      StepAdministered(s, ops[0]);
      RoleComesFrom(s', ops[1..], org, u);
      if Created(ops[1..], org, u) {
        var later := ops[1..];
        var k :| 0 <= k < |later| && later[k].CreateOrganization? && later[k].org == org && later[k].owner == u;
        assert ops[k + 1] == later[k];
      }
      var had := (org, u) in s.members && s.members[(org, u)] == role;
      var has := (org, u) in s'.members && s'.members[(org, u)] == role;
      if has && !had {
        NewRole(s, ops[0], org, u);
        if ops[0].AcceptInvite? {
          InviteStays(s', ops[1..], ops[0].invite);
        }
      }
    }
  }

  /**
   In every run a member is the creator, as admin, or has the role of an accepted invitation to
   that organization and to the member's address.
   */
  lemma RolesAreGranted(ops: seq<Op>, org: OrgId, u: UserId)
    requires Run(EMPTY, ops) && (org, u) in Final(EMPTY, ops).members
    ensures var s, role := Final(EMPTY, ops), Final(EMPTY, ops).members[(org, u)];
      || (role == Admin && exists k :: 0 <= k < |ops| && ops[k].CreateOrganization?
                                       && ops[k].org == org && ops[k].owner == u)
      || (exists i :: && i in s.invites && u in s.users && s.invites[i].org == org && s.invites[i].email == s.users[u]
                      && s.invites[i].role == role && s.invites[i].status == Accepted)
  {
    EmptyInv();
    RoleComesFrom(EMPTY, ops, org, u);
  }

  lemma EmptyInv()
    ensures Inv(EMPTY)
  {
  }

  /** A member stays one, with the same role, until another member who is admin removes them. */
  lemma MembersLeaveByRemoval(s: State, op: Op, org: OrgId, u: UserId)
    requires References(s) && CanDo(s, op) && (org, u) in s.members
    ensures var removed := op.RemoveMember? && op.org == org && op.target == u && op.actor != u
                           && (org, op.actor) in s.members && s.members[(org, op.actor)] == Admin;
      if removed then (org, u) !in Do(s, op).members
      else (org, u) in Do(s, op).members && Do(s, op).members[(org, u)] == s.members[(org, u)]
  {
  }

  /** An invitation that is still pending can be accepted for seven days of 86400 seconds. */
  lemma InviteLastsSevenDays(ops: seq<Op>, invited: Op, more: seq<Op>, u: UserId, now: Time)
    requires Run(EMPTY, ops) && CanDo(Final(EMPTY, ops), invited) && invited.CreateInvite?
    requires Answer(Final(EMPTY, ops), invited) == Ok && Run(Do(Final(EMPTY, ops), invited), more)
    requires var s := Final(Do(Final(EMPTY, ops), invited), more);
      && invited.invite in s.invites && s.invites[invited.invite].status == Pending
      && u in s.users && s.users[u] == invited.email
    ensures var s := Final(Do(Final(EMPTY, ops), invited), more);
      Answer(s, AcceptInvite(u, invited.invite, now)) == Ok <==> now <= invited.now + 7 * 86400
  {
    var s0 := Final(EMPTY, ops);
    EmptyInv();
    RunInv(EMPTY, ops);
    RunSnoc(EMPTY, ops, invited);
    RunAppend(EMPTY, ops + [invited], more);
    RunInv(EMPTY, ops + [invited] + more);
    InviteStays(Do(s0, invited), more, invited.invite);
  }

  lemma {:induction false} RunAppend(s: State, a: seq<Op>, b: seq<Op>)
    requires Run(s, a) && Run(Final(s, a), b)
    ensures Run(s, a + b) && Final(s, a + b) == Final(Final(s, a), b)
    decreases |a|
  {
    if a == [] {
      assert a + b == b;
    } else {
      assert (a + b)[0] == a[0] && (a + b)[1..] == a[1..] + b;
      RunAppend(Do(s, a[0]), a[1..], b);
    }
  }

  // ---------------------------------------------------------------- expiry

  ghost predicate NotBefore(op: Op, t: Time) {
    (op.CreateInvite? || op.AcceptInvite?) ==> op.now >= t
  }

  ghost predicate AllNotBefore(ops: seq<Op>, t: Time) {
    forall i | 0 <= i < |ops| :: NotBefore(ops[i], t)
  }

  /**
   The status 'expired' is refused by the table, so an expired invitation stays pending for
   good: nobody can accept it, and its address cannot be invited again.
   */
  lemma {:induction false} ExpiredInviteIsStuck(s: State, more: seq<Op>, i: InviteId, t: Time, op: Op)
    requires Run(s, more) && AllNotBefore(more, t)
    requires i in s.invites && s.invites[i].status == Pending && s.invites[i].expiresAt < t
    requires CanDo(Final(s, more), op) && NotBefore(op, t)
    ensures i in Final(s, more).invites && Final(s, more).invites[i] == s.invites[i]
    ensures op.AcceptInvite? && op.invite == i ==> Answer(Final(s, more), op) in {NotFoundError, IntegrityError}
    ensures op.CreateInvite? && op.org == s.invites[i].org && op.email == s.invites[i].email ==>
      Answer(Final(s, more), op) in {AuthorizationError, ConflictError}
    decreases |more|
  {
    if more == [] {
      assert HasPending(s, s.invites[i].org, s.invites[i].email);
    } else {
      assert NotBefore(more[0], t);
      ExpiredInviteIsStuck(Do(s, more[0]), more[1..], i, t, op);
    }
  }

  // ---------------------------------------------------------------- the service

  class TenantStore {
    var users: map<UserId, Email>
    var orgs: map<OrgId, string>
    var members: map<(OrgId, UserId), Role>
    var invites: map<InviteId, Invite>
    ghost var past: seq<Op>

    function Contents(): State
      reads this
    {
      State(users, orgs, members, invites)
    }

    ghost predicate Valid()
      reads this
    {
      Run(EMPTY, past) && Final(EMPTY, past) == Contents()
    }

    constructor ()
      ensures Valid() && past == []
    {
      users, orgs, members, invites := map[], map[], map[], map[];
      past := [];
    }

    ghost method Record(op: Op)
      requires Run(EMPTY, past) && CanDo(Final(EMPTY, past), op)
      modifies this`past
      ensures past == old(past) + [op]
      ensures Run(EMPTY, past) && Final(EMPTY, past) == Do(old(Final(EMPTY, past)), op)
    {
      RunSnoc(EMPTY, past, op);
      past := past + [op];
    }

    method CreateOrganization(owner: UserId, org: OrgId, slug: string) returns (outcome: Outcome)
      requires Valid() && CanDo(Contents(), Op.CreateOrganization(owner, org, slug))
      modifies this
      ensures Valid() && past == old(past) + [Op.CreateOrganization(owner, org, slug)]
      ensures Contents() == Do(old(Contents()), Op.CreateOrganization(owner, org, slug))
      ensures outcome == Answer(old(Contents()), Op.CreateOrganization(owner, org, slug))
      ensures outcome == if exists o | o in old(orgs) :: old(orgs)[o] == slug then ConflictError else Ok
      ensures outcome == Ok ==>
        && orgs == old(orgs)[org := slug] && members == old(members)[(org, owner) := Admin]
        && users == old(users) && invites == old(invites)
      ensures outcome != Ok ==> Contents() == old(Contents())
    {
      Record(Op.CreateOrganization(owner, org, slug));
      if o :| o in orgs && orgs[o] == slug {
        return ConflictError;
      }
      orgs := orgs[org := slug];
      members := members[(org, owner) := Admin];
      return Ok;
    }

    method RemoveMember(actor: UserId, org: OrgId, target: UserId) returns (outcome: Outcome)
      requires Valid() && CanDo(Contents(), Op.RemoveMember(actor, org, target))
      modifies this
      ensures Valid() && past == old(past) + [Op.RemoveMember(actor, org, target)]
      ensures Contents() == Do(old(Contents()), Op.RemoveMember(actor, org, target))
      ensures outcome == Answer(old(Contents()), Op.RemoveMember(actor, org, target))
      ensures outcome ==
        if !((org, actor) in old(members) && old(members)[(org, actor)] == Admin) then AuthorizationError
        else if target == actor then ConflictError
        else if (org, target) !in old(members) then NotFoundError
        else Ok
      ensures outcome == Ok ==>
        && (org, target) !in members
        && (forall m | m in old(members) && m != (org, target) :: m in members && members[m] == old(members)[m])
        && (forall m | m in members :: m in old(members))
        && users == old(users) && orgs == old(orgs) && invites == old(invites)
      ensures outcome != Ok ==> Contents() == old(Contents())
    {
      Record(Op.RemoveMember(actor, org, target));
      if !((org, actor) in members && members[(org, actor)] == Admin) {
        return AuthorizationError;
      }
      if target == actor {
        return ConflictError;
      }
      if (org, target) !in members {
        return NotFoundError;
      }
      members := members - {(org, target)};
      return Ok;
    }

    method CreateInvite(actor: UserId, org: OrgId, email: Email, role: Role, invite: InviteId, now: Time)
      returns (outcome: Outcome)
      requires Valid() && CanDo(Contents(), Op.CreateInvite(actor, org, email, role, invite, now))
      modifies this
      ensures Valid() && past == old(past) + [Op.CreateInvite(actor, org, email, role, invite, now)]
      ensures Contents() == Do(old(Contents()), Op.CreateInvite(actor, org, email, role, invite, now))
      ensures outcome == Answer(old(Contents()), Op.CreateInvite(actor, org, email, role, invite, now))
      ensures outcome ==
        if !((org, actor) in old(members) && old(members)[(org, actor)] == Admin) then AuthorizationError
        else if exists u | u in old(users) :: old(users)[u] == email && (org, u) in old(members) then ConflictError
        else if exists i | i in old(invites) ::
                  old(invites)[i].org == org && old(invites)[i].email == email && old(invites)[i].status == Pending
        then ConflictError
        else Ok
      ensures outcome == Ok ==>
        && invites == old(invites)[invite := Invite(org, email, role, Pending, now + 7 * 86400)]
        && users == old(users) && orgs == old(orgs) && members == old(members)
      ensures outcome != Ok ==> Contents() == old(Contents())
    {
      ghost var before := Contents();
      RunInv(EMPTY, past);
      Record(Op.CreateInvite(actor, org, email, role, invite, now));
      if !((org, actor) in members && members[(org, actor)] == Admin) {
        return AuthorizationError;
      }
      if user :| user in users && users[user] == email {
        if (org, user) in members {
          assert EmailIsMember(before, org, email);
          return ConflictError;
        }
      }
      if i :| i in invites && IsPendingFor(invites[i], org, email) {
        return ConflictError;
      }
      invites := invites[invite := Invite(org, email, role, Pending, now + INVITE_LIFETIME)];
      return Ok;
    }

    /** The expiry branch writes a status that the table refuses, and the request is undone. */
    method AcceptInvite(user: UserId, invite: InviteId, now: Time) returns (outcome: Outcome)
      requires Valid() && CanDo(Contents(), Op.AcceptInvite(user, invite, now))
      modifies this
      ensures Valid() && past == old(past) + [Op.AcceptInvite(user, invite, now)]
      ensures Contents() == Do(old(Contents()), Op.AcceptInvite(user, invite, now))
      ensures outcome == Answer(old(Contents()), Op.AcceptInvite(user, invite, now))
      ensures outcome ==
        if !(invite in old(invites) && old(invites)[invite].email == old(users)[user]) then NotFoundError
        else if old(invites)[invite].status != Pending then ConflictError
        else if old(invites)[invite].expiresAt < now then IntegrityError
        else if (old(invites)[invite].org, user) in old(members) then IntegrityError
        else Ok
      ensures outcome == Ok ==>
        && members == old(members)[(old(invites)[invite].org, user) := old(invites)[invite].role]
        && invites == old(invites)[invite := old(invites)[invite].(status := Accepted)]
        && users == old(users) && orgs == old(orgs)
      ensures outcome != Ok ==> Contents() == old(Contents())
    {
      Record(Op.AcceptInvite(user, invite, now));
      if !(invite in invites && invites[invite].email == users[user]) {
        return NotFoundError;
      }
      var row := invites[invite];
      if row.status != Pending {
        return ConflictError;
      }
      if row.expiresAt < now {
        return IntegrityError;
      }
      if (row.org, user) in members {
        return IntegrityError;
      }
      members := members[(row.org, user) := row.role];
      invites := invites[invite := row.(status := Accepted)];
      return Ok;
    }
  }

  lemma {:induction false} RunSnoc(s: State, ops: seq<Op>, op: Op)
    requires Run(s, ops) && CanDo(Final(s, ops), op)
    ensures Run(s, ops + [op]) && Final(s, ops + [op]) == Do(Final(s, ops), op)
    decreases |ops|
  {
    if ops == [] {
      assert (ops + [op])[0] == op && (ops + [op])[1..] == [];
      assert Run(Do(s, op), (ops + [op])[1..]);
    } else {
      assert (ops + [op])[0] == ops[0] && (ops + [op])[1..] == ops[1..] + [op];
      RunSnoc(Do(s, ops[0]), ops[1..], op);
    }
  }
}
