/**
 Invitations, memberships and cached roles.  Accepting an invitation, expiring one and looking
 up a role are sequences of repository and cache calls without a transaction around them; here
 each call is one step, and the steps of any number of requests interleave freely, with calls
 that fail and requests that die half way.
 */
module Membership {
  import opened Wrappers

  datatype Status = PENDING | ACCEPTED | EXPIRED | REVOKED

  datatype Invite = Invite(workspace: nat, email: string, role: string, status: Status, expiresAt: int)

  /** A row of `workspace_members`. */
  datatype Member = Member(workspace: nat, user: nat, role: string)

  /**
   Invitations by their unique token; members; the cached role hashes by workspace.  Users'
   e-mail addresses and workspaces' owners do not change.
   */
  datatype Db = Db(
    users: map<nat, string>, owners: map<nat, nat>,
    invites: map<nat, Invite>, members: seq<Member>, roles: map<nat, map<nat, string>>)

  /******* Repository and cache calls *******/

  predicate IsMember(members: seq<Member>, workspace: nat, user: nat) {
    exists i :: 0 <= i < |members| && members[i].workspace == workspace && members[i].user == user
  }

  predicate HasRole(members: seq<Member>, workspace: nat, user: nat, role: string) {
    Member(workspace, user, role) in members
  }

  function DbRole(members: seq<Member>, workspace: nat, user: nat): Option<string> {
    if members == [] then None
    else if members[0].workspace == workspace && members[0].user == user then Some(members[0].role)
    else DbRole(members[1..], workspace, user)
  }

  /** UpdateInviteStatus: whatever the status was. */
  function SetStatus(db: Db, token: nat, status: Status): Db {
    if token in db.invites then db.(invites := db.invites[token := db.invites[token].(status := status)]) else db
  }

  /** GetMemberRole of the cache: a field that is missing in a hash that exists reads as "". */
  function CachedRole(roles: map<nat, map<nat, string>>, workspace: nat, user: nat): Option<string> {
    if workspace !in roles then None
    else if user in roles[workspace] then Some(roles[workspace][user]) else Some("")
  }

  /** SetMemberRole */
  function CacheRole(db: Db, workspace: nat, user: nat, role: string): Db {
    var hash := if workspace in db.roles then db.roles[workspace] else map[];
    db.(roles := db.roles[workspace := hash[user := role]])
  }

  /******* Requests in progress *******/

  /** Each names the call that comes next. */
  datatype Call =
    | AcceptFind(token: nat, user: nat)
    | AcceptExpire(token: nat)
    | AcceptUser(token: nat, user: nat, invite: Invite)
    | AcceptCheck(token: nat, user: nat, invite: Invite)
    | AcceptAlready(token: nat, user: nat, invite: Invite)
    | AcceptAdd(token: nat, user: nat, invite: Invite)
    | AcceptUpdate(token: nat, user: nat, invite: Invite)
    | AcceptCache(token: nat, user: nat, invite: Invite)
    | ExpireFind(token: nat)
    | ExpireUpdate(token: nat)
    | RoleCache(workspace: nat, user: nat, allowed: seq<string>, negative: bool)
    | RoleRead(workspace: nat, user: nat, allowed: seq<string>, negative: bool)
    | RoleStore(workspace: nat, user: nat, allowed: seq<string>, role: Option<string>)

  datatype Grant = Grant(workspace: nat, user: nat, allowed: seq<string>)

  /** `granted` records the accesses that lookups have granted. */
  datatype System = System(db: Db, calls: map<nat, Call>, granted: seq<Grant>)

  /** What a call leads to: the next call of its request, if any, and perhaps a grant. */
  datatype Effect = Effect(db: Db, next: Option<Call>, grants: seq<Grant>)

  function Done(db: Db): Effect {
    Effect(db, None, [])
  }

  /** The steps of AcceptInvitation; `ok` says whether the call succeeded. */
  function AcceptStep(db: Db, call: Call, ok: bool, now: int): Effect
    requires call.AcceptFind? || call.AcceptExpire? || call.AcceptUser? || call.AcceptCheck? ||
             call.AcceptAlready? || call.AcceptAdd? || call.AcceptUpdate? || call.AcceptCache?
  {
    match call
    case AcceptFind(token, user) =>
      if !ok || token !in db.invites || db.invites[token].status != PENDING then Done(db)
      else if now > db.invites[token].expiresAt then Effect(db, Some(AcceptExpire(token)), [])
      else Effect(db, Some(AcceptUser(token, user, db.invites[token])), [])
    case AcceptExpire(token) =>
      Done(if ok then SetStatus(db, token, EXPIRED) else db)
    case AcceptUser(token, user, invite) =>
      if !ok || user !in db.users || invite.email != db.users[user] then Done(db)
      else Effect(db, Some(AcceptCheck(token, user, invite)), [])
    case AcceptCheck(token, user, invite) =>
      if ok && IsMember(db.members, invite.workspace, user)
      then Effect(db, Some(AcceptAlready(token, user, invite)), [])
      else Effect(db, Some(AcceptAdd(token, user, invite)), [])
    case AcceptAlready(token, user, invite) =>
      Done(if ok then SetStatus(db, token, ACCEPTED) else db)
    case AcceptAdd(token, user, invite) =>
      // the unique constraint on workspace and user
      if !ok || IsMember(db.members, invite.workspace, user) then Done(db)
      else Effect(db.(members := db.members + [Member(invite.workspace, user, invite.role)]),
                  Some(AcceptUpdate(token, user, invite)), [])
    case AcceptUpdate(token, user, invite) =>
      Effect(if ok then SetStatus(db, token, ACCEPTED) else db, Some(AcceptCache(token, user, invite)), [])
    case AcceptCache(token, user, invite) =>
      Done(if ok then CacheRole(db, invite.workspace, user, invite.role) else db)
  }

  /** The steps of ExpireInvite. */
  function ExpireStep(db: Db, call: Call, ok: bool): Effect
    requires call.ExpireFind? || call.ExpireUpdate?
  {
    match call
    case ExpireFind(token) =>
      if !ok || token !in db.invites || db.invites[token].status != PENDING then Done(db)
      else Effect(db, Some(ExpireUpdate(token)), [])
    case ExpireUpdate(token) =>
      Done(if ok then SetStatus(db, token, EXPIRED) else db)
  }

  predicate Allows(allowed: seq<string>, role: string) {
    allowed == [] || role in allowed
  }

  function Decide(db: Db, workspace: nat, user: nat, allowed: seq<string>, role: string): Effect {
    Effect(db, None, if Allows(allowed, role) then [Grant(workspace, user, allowed)] else [])
  }

  /**
   The steps of a role lookup, as in checkAccess (which caches that there is no role, `negative`)
   and in getMemberRole (which does not).
   */
  function RoleStep(db: Db, call: Call, ok: bool): Effect
    requires call.RoleCache? || call.RoleRead? || call.RoleStore?
  {
    match call
    case RoleCache(workspace, user, allowed, negative) =>
      if workspace !in db.owners then Done(db)
      else if db.owners[workspace] == user then Effect(db, None, [Grant(workspace, user, allowed)])
      else
        var role := CachedRole(db.roles, workspace, user);
        if !ok || role.None? then Effect(db, Some(RoleRead(workspace, user, allowed, negative)), [])
        else if role.value == "" then Done(db)
        else Decide(db, workspace, user, allowed, role.value)
    case RoleRead(workspace, user, allowed, negative) =>
      if !ok then Done(db)
      else
        var role := DbRole(db.members, workspace, user);
        if role.None? && !negative then Done(db)
        else Effect(db, Some(RoleStore(workspace, user, allowed, role)), [])
    case RoleStore(workspace, user, allowed, role) =>
      var db' := if ok then CacheRole(db, workspace, user, if role.None? then "" else role.value) else db;
      if role.None? then Done(db') else Decide(db', workspace, user, allowed, role.value)
  }

  function CallStep(db: Db, call: Call, ok: bool, now: int): Effect {
    if call.ExpireFind? || call.ExpireUpdate? then ExpireStep(db, call, ok)
    else if call.RoleCache? || call.RoleRead? || call.RoleStore? then RoleStep(db, call, ok)
    else AcceptStep(db, call, ok, now)
  }

  /******* Runs *******/

  datatype Event =
    | Invited(token: nat, invite: Invite)
    | Start(caller: nat, call: Call)
    | Next(caller: nat, ok: bool, now: int)
    | Crash(caller: nat)
    | ExpireRoles(workspace: nat)

  /** Requests start at their first call, and invitations are created PENDING, with a role. */
  predicate Possible(e: Event) {
    && (e.Start? ==> e.call.AcceptFind? || e.call.ExpireFind? || e.call.RoleCache?)
    && (e.Invited? ==> e.invite.status == PENDING)
  }

  function Step(s: System, e: Event): System {
    match e
    case Invited(token, invite) =>
      if token in s.db.invites then s else s.(db := s.db.(invites := s.db.invites[token := invite]))
    case Start(c, call) => s.(calls := s.calls[c := call])
    case Next(c, ok, now) =>
      if c !in s.calls then s
      else
        var fx := CallStep(s.db, s.calls[c], ok, now);
        System(fx.db, if fx.next.Some? then s.calls[c := fx.next.value] else s.calls - {c}, s.granted + fx.grants)
    case Crash(c) => s.(calls := s.calls - {c})
    case ExpireRoles(workspace) => s.(db := s.db.(roles := s.db.roles - {workspace}))
  }

  function Run(s: System, es: seq<Event>): System
    decreases es
  {
    if es == [] then s else Run(Step(s, es[0]), es[1..])
  }

  /******* Invariants *******/

  ghost predicate UniqueEmails(users: map<nat, string>) {
    forall u, v :: u in users && v in users && users[u] == users[v] ==> u == v
  }

  /** At most one membership for a workspace and a user. */
  ghost predicate UniqueMembers(members: seq<Member>) {
    forall i, j :: 0 <= i < j < |members| ==>
      members[i].workspace != members[j].workspace || members[i].user != members[j].user
  }

  /** An invitation to this user's address, into this workspace and role. */
  ghost predicate InvitedAs(db: Db, m: Member) {
    m.user in db.users &&
    exists token :: token in db.invites && Invites(db.invites[token], m.workspace, db.users[m.user], m.role)
  }

  predicate Invites(invite: Invite, workspace: nat, email: string, role: string) {
    invite.workspace == workspace && invite.email == email && invite.role == role
  }

  /** Whoever was invited by an accepted invitation is a member. */
  ghost predicate AcceptedAreMembers(db: Db) {
    forall token, user :: token in db.invites && db.invites[token].status == ACCEPTED ==>
      user in db.users && db.users[user] == db.invites[token].email ==>
        IsMember(db.members, db.invites[token].workspace, user)
  }

  /** A cached role that is not empty is the role of a membership. */
  ghost predicate RolesAreReal(db: Db) {
    forall workspace, user ::
      workspace in db.roles && user in db.roles[workspace] && db.roles[workspace][user] != "" ==>
      HasRole(db.members, workspace, user, db.roles[workspace][user])
  }

  ghost predicate DbOk(db: Db) {
    && UniqueEmails(db.users) && UniqueMembers(db.members)
    && (forall m :: m in db.members ==> InvitedAs(db, m))
    && AcceptedAreMembers(db) && RolesAreReal(db)
  }

  /** The invitation a request has read is still there, up to its status. */
  ghost predicate StillThere(db: Db, token: nat, invite: Invite) {
    token in db.invites && Invites(db.invites[token], invite.workspace, invite.email, invite.role)
  }

  /** What a request in progress may rely on. */
  ghost predicate CallOk(db: Db, call: Call) {
    match call
    case AcceptUser(token, user, invite) => StillThere(db, token, invite)
    case AcceptCheck(token, user, invite) => ForUser(db, token, user, invite)
    case AcceptAdd(token, user, invite) => ForUser(db, token, user, invite)
    case AcceptAlready(token, user, invite) =>
      ForUser(db, token, user, invite) && IsMember(db.members, invite.workspace, user)
    case AcceptUpdate(token, user, invite) =>
      ForUser(db, token, user, invite) && HasRole(db.members, invite.workspace, user, invite.role)
    case AcceptCache(token, user, invite) =>
      ForUser(db, token, user, invite) && HasRole(db.members, invite.workspace, user, invite.role)
    case RoleStore(workspace, user, allowed, role) =>
      role.Some? ==> HasRole(db.members, workspace, user, role.value)
    case _ => true
  }

  ghost predicate ForUser(db: Db, token: nat, user: nat, invite: Invite) {
    StillThere(db, token, invite) && user in db.users && db.users[user] == invite.email
  }

  /** The owner, or a member whose role is allowed. */
  ghost predicate Entitled(db: Db, g: Grant) {
    || (g.workspace in db.owners && db.owners[g.workspace] == g.user)
    || exists role :: HasRole(db.members, g.workspace, g.user, role) && Allows(g.allowed, role)
  }

  ghost predicate SystemOk(s: System) {
    && DbOk(s.db)
    && (forall c :: c in s.calls ==> CallOk(s.db, s.calls[c]))
    && (forall g :: g in s.granted ==> Entitled(s.db, g))
  }

  /** What only ever grows: invitations keep all but their status, members and users stay. */
  ghost predicate Extends(db: Db, db': Db) {
    && db'.users == db.users && db'.owners == db.owners
    && db.members <= db'.members
    && (forall token :: token in db.invites ==>
          token in db'.invites && db'.invites[token] == db.invites[token].(status := db'.invites[token].status))
  }

  /** PENDING is left for good. */
  ghost predicate NeverPendingAgain(db: Db, db': Db) {
    forall token :: token in db.invites && token in db'.invites && db'.invites[token].status == PENDING ==>
      db.invites[token].status == PENDING
  }

  /******* Every step keeps them *******/

  lemma MemberExtends(members: seq<Member>, members': seq<Member>, workspace: nat, user: nat)
    requires members <= members'
    ensures IsMember(members, workspace, user) ==> IsMember(members', workspace, user)
    ensures forall role :: HasRole(members, workspace, user, role) ==> HasRole(members', workspace, user, role)
  {
    assert members' == members + members'[|members|..];
    if IsMember(members, workspace, user) {
      var i :| 0 <= i < |members| && members[i].workspace == workspace && members[i].user == user;
      assert members'[i] == members[i];
    }
  }

  lemma RoleIsMember(members: seq<Member>, workspace: nat, user: nat, role: string)
    requires HasRole(members, workspace, user, role)
    ensures IsMember(members, workspace, user)
  {
    var i :| 0 <= i < |members| && members[i] == Member(workspace, user, role);
  }

  lemma CallExtends(db: Db, db': Db, call: Call)
    requires CallOk(db, call) && Extends(db, db')
    ensures CallOk(db', call)
  {
    match call
    case AcceptAlready(_, user, invite) => MemberExtends(db.members, db'.members, invite.workspace, user);
    case AcceptUpdate(_, user, invite) => MemberExtends(db.members, db'.members, invite.workspace, user);
    case AcceptCache(_, user, invite) => MemberExtends(db.members, db'.members, invite.workspace, user);
    case RoleStore(workspace, user, _, _) => MemberExtends(db.members, db'.members, workspace, user);
    case _ =>
  }

  lemma EntitledExtends(db: Db, db': Db, g: Grant)
    requires Entitled(db, g) && Extends(db, db')
    ensures Entitled(db', g)
  {
    MemberExtends(db.members, db'.members, g.workspace, g.user);
    if !(g.workspace in db.owners && db.owners[g.workspace] == g.user) {
      var role :| HasRole(db.members, g.workspace, g.user, role) && Allows(g.allowed, role);
      assert HasRole(db'.members, g.workspace, g.user, role);
    }
  }

  lemma InvitedExtends(db: Db, db': Db, m: Member)
    requires InvitedAs(db, m) && Extends(db, db')
    ensures InvitedAs(db', m)
  {
    var token :| token in db.invites && Invites(db.invites[token], m.workspace, db.users[m.user], m.role);
    assert Invites(db'.invites[token], m.workspace, db'.users[m.user], m.role);
  }

  lemma SetStatusOk(db: Db, token: nat, status: Status)
    requires DbOk(db) && status != PENDING
    requires status == ACCEPTED && token in db.invites ==>
               forall user :: user in db.users && db.users[user] == db.invites[token].email ==>
                 IsMember(db.members, db.invites[token].workspace, user)
    ensures var db' := SetStatus(db, token, status);
            DbOk(db') && Extends(db, db') && NeverPendingAgain(db, db')
  {
    var db' := SetStatus(db, token, status);
    assert Extends(db, db');
    forall m | m in db'.members ensures InvitedAs(db', m) {
      InvitedExtends(db, db', m);
    }
  }

  lemma CacheRoleOk(db: Db, workspace: nat, user: nat, role: string)
    requires DbOk(db) && (role != "" ==> HasRole(db.members, workspace, user, role))
    ensures var db' := CacheRole(db, workspace, user, role);
            DbOk(db') && Extends(db, db') && NeverPendingAgain(db, db')
  {
    var db' := CacheRole(db, workspace, user, role);
    assert Extends(db, db');
    forall m | m in db'.members ensures InvitedAs(db', m) {
      InvitedExtends(db, db', m);
    }
  }

  lemma AddMemberOk(db: Db, token: nat, user: nat, invite: Invite)
    requires DbOk(db) && ForUser(db, token, user, invite) && !IsMember(db.members, invite.workspace, user)
    ensures var db' := db.(members := db.members + [Member(invite.workspace, user, invite.role)]);
            DbOk(db') && Extends(db, db') && NeverPendingAgain(db, db')
            && HasRole(db'.members, invite.workspace, user, invite.role)
  {
    var m := Member(invite.workspace, user, invite.role);
    var db' := db.(members := db.members + [m]);
    assert Extends(db, db');
    forall x | x in db'.members ensures InvitedAs(db', x) {
      if x in db.members {
        InvitedExtends(db, db', x);
      } else {
        assert Invites(db'.invites[token], x.workspace, db'.users[x.user], x.role);
      }
    }
    forall t, u | t in db'.invites && db'.invites[t].status == ACCEPTED && u in db'.users &&
                  db'.users[u] == db'.invites[t].email
      ensures IsMember(db'.members, db'.invites[t].workspace, u)
    {
      MemberExtends(db.members, db'.members, db'.invites[t].workspace, u);
    }
    assert db'.members[|db.members|] == m;
  }

  /** What one call leads to is in order: the database, the next call of the request, the grant. */
  ghost predicate EffectOk(db: Db, fx: Effect) {
    && DbOk(fx.db) && Extends(db, fx.db) && NeverPendingAgain(db, fx.db)
    && (fx.next.Some? ==> CallOk(fx.db, fx.next.value))
    && (forall g :: g in fx.grants ==> Entitled(fx.db, g))
  }

  /** A call that writes nothing. */
  lemma ReadOk(db: Db, fx: Effect)
    requires DbOk(db) && fx.db == db
    requires fx.next.Some? ==> CallOk(db, fx.next.value)
    requires forall g :: g in fx.grants ==> Entitled(db, g)
    ensures EffectOk(db, fx)
  {
  }

  lemma AcceptReadOk(db: Db, call: Call, ok: bool, now: int)
    requires call.AcceptFind? || call.AcceptUser? || call.AcceptCheck?
    requires DbOk(db) && CallOk(db, call)
    ensures EffectOk(db, AcceptStep(db, call, ok, now))
  {
    ReadOk(db, AcceptStep(db, call, ok, now));
  }

  lemma AcceptAddOk(db: Db, token: nat, user: nat, invite: Invite, ok: bool, now: int)
    requires DbOk(db) && CallOk(db, AcceptAdd(token, user, invite))
    ensures EffectOk(db, AcceptStep(db, AcceptAdd(token, user, invite), ok, now))
  {
    if ok && !IsMember(db.members, invite.workspace, user) {
      AddMemberOk(db, token, user, invite);
    }
  }

  lemma AcceptUpdateOk(db: Db, token: nat, user: nat, invite: Invite, ok: bool, now: int)
    requires DbOk(db) && CallOk(db, AcceptUpdate(token, user, invite))
    ensures EffectOk(db, AcceptStep(db, AcceptUpdate(token, user, invite), ok, now))
  {
    RoleIsMember(db.members, invite.workspace, user, invite.role);
    SetStatusOk(db, token, ACCEPTED);
    CallExtends(db, SetStatus(db, token, ACCEPTED), AcceptCache(token, user, invite));
  }

  lemma AcceptStepOk(db: Db, call: Call, ok: bool, now: int)
    requires call.AcceptFind? || call.AcceptExpire? || call.AcceptUser? || call.AcceptCheck? ||
             call.AcceptAlready? || call.AcceptAdd? || call.AcceptUpdate? || call.AcceptCache?
    requires DbOk(db) && CallOk(db, call)
    ensures EffectOk(db, AcceptStep(db, call, ok, now))
  {
    match call
    case AcceptExpire(token) => SetStatusOk(db, token, EXPIRED);
    case AcceptAlready(token, user, invite) => SetStatusOk(db, token, ACCEPTED);
    case AcceptAdd(token, user, invite) => AcceptAddOk(db, token, user, invite, ok, now);
    case AcceptUpdate(token, user, invite) => AcceptUpdateOk(db, token, user, invite, ok, now);
    case AcceptCache(token, user, invite) => CacheRoleOk(db, invite.workspace, user, invite.role);
    case _ => AcceptReadOk(db, call, ok, now);
  }

  lemma ExpireStepOk(db: Db, call: Call, ok: bool)
    requires call.ExpireFind? || call.ExpireUpdate?
    requires DbOk(db) && CallOk(db, call)
    ensures EffectOk(db, ExpireStep(db, call, ok))
  {
    match call
    case ExpireUpdate(token) => SetStatusOk(db, token, EXPIRED);
    case _ =>
  }

  lemma IsMemberSplit(members: seq<Member>, workspace: nat, user: nat)
    requires members != []
    ensures IsMember(members, workspace, user) <==>
            (members[0].workspace == workspace && members[0].user == user) || IsMember(members[1..], workspace, user)
  {
    if IsMember(members[1..], workspace, user) {
      var i :| 0 <= i < |members[1..]| && members[1..][i].workspace == workspace && members[1..][i].user == user;
      assert members[i + 1] == members[1..][i];
    }
    if IsMember(members, workspace, user) {
      var i :| 0 <= i < |members| && members[i].workspace == workspace && members[i].user == user;
      assert i > 0 ==> members[1..][i - 1] == members[i];
    }
  }

  lemma {:induction false} DbRoleFinds(members: seq<Member>, workspace: nat, user: nat)
    ensures var role := DbRole(members, workspace, user);
            if role.Some? then HasRole(members, workspace, user, role.value) else !IsMember(members, workspace, user)
    decreases members
  {
    if members != [] {
      IsMemberSplit(members, workspace, user);
      DbRoleFinds(members[1..], workspace, user);
      assert members == [members[0]] + members[1..];
    }
  }

  /** A decision on a role that the user has. */
  lemma DecideOk(db: Db, workspace: nat, user: nat, allowed: seq<string>, role: string)
    requires DbOk(db) && HasRole(db.members, workspace, user, role)
    ensures EffectOk(db, Decide(db, workspace, user, allowed, role))
  {
    ReadOk(db, Decide(db, workspace, user, allowed, role));
  }

  lemma RoleCacheOk(db: Db, workspace: nat, user: nat, allowed: seq<string>, negative: bool, ok: bool)
    requires DbOk(db)
    ensures EffectOk(db, RoleStep(db, RoleCache(workspace, user, allowed, negative), ok))
  {
    var fx := RoleStep(db, RoleCache(workspace, user, allowed, negative), ok);
    var role := CachedRole(db.roles, workspace, user);
    if role.Some? && role.value != "" && fx == Decide(db, workspace, user, allowed, role.value) {
      DecideOk(db, workspace, user, allowed, role.value);
    } else {
      ReadOk(db, fx);
    }
  }

  lemma RoleReadOk(db: Db, workspace: nat, user: nat, allowed: seq<string>, negative: bool, ok: bool)
    requires DbOk(db)
    ensures EffectOk(db, RoleStep(db, RoleRead(workspace, user, allowed, negative), ok))
  {
    DbRoleFinds(db.members, workspace, user);
    ReadOk(db, RoleStep(db, RoleRead(workspace, user, allowed, negative), ok));
  }

  lemma RoleStoreOk(db: Db, workspace: nat, user: nat, allowed: seq<string>, role: Option<string>, ok: bool)
    requires DbOk(db) && (role.Some? ==> HasRole(db.members, workspace, user, role.value))
    ensures EffectOk(db, RoleStep(db, RoleStore(workspace, user, allowed, role), ok))
  {
    assert Extends(db, db);
    CacheRoleOk(db, workspace, user, if role.None? then "" else role.value);
    var db' := if ok then CacheRole(db, workspace, user, if role.None? then "" else role.value) else db;
    if role.Some? {
      DecideOk(db', workspace, user, allowed, role.value);
    }
  }

  lemma RoleStepOk(db: Db, call: Call, ok: bool)
    requires call.RoleCache? || call.RoleRead? || call.RoleStore?
    requires DbOk(db) && CallOk(db, call)
    ensures EffectOk(db, RoleStep(db, call, ok))
  {
    match call
    case RoleCache(workspace, user, allowed, negative) => RoleCacheOk(db, workspace, user, allowed, negative, ok);
    case RoleRead(workspace, user, allowed, negative) => RoleReadOk(db, workspace, user, allowed, negative, ok);
    case RoleStore(workspace, user, allowed, role) => RoleStoreOk(db, workspace, user, allowed, role, ok);
  }

  lemma CallStepOk(db: Db, call: Call, ok: bool, now: int)
    requires DbOk(db) && CallOk(db, call)
    ensures EffectOk(db, CallStep(db, call, ok, now))
  {
    if call.ExpireFind? || call.ExpireUpdate? {
      ExpireStepOk(db, call, ok);
    } else if call.RoleCache? || call.RoleRead? || call.RoleStore? {
      RoleStepOk(db, call, ok);
    } else {
      AcceptStepOk(db, call, ok, now);
    }
  }

  lemma InvitedOk(db: Db, token: nat, invite: Invite)
    requires DbOk(db) && token !in db.invites && invite.status == PENDING
    ensures var db' := db.(invites := db.invites[token := invite]);
            DbOk(db') && Extends(db, db') && NeverPendingAgain(db, db')
  {
    var db' := db.(invites := db.invites[token := invite]);
    assert Extends(db, db');
    forall m | m in db'.members ensures InvitedAs(db', m) {
      InvitedExtends(db, db', m);
    }
  }

  lemma ExpireRolesOk(db: Db, workspace: nat)
    requires DbOk(db)
    ensures var db' := db.(roles := db.roles - {workspace});
            DbOk(db') && Extends(db, db') && NeverPendingAgain(db, db')
  {
    var db' := db.(roles := db.roles - {workspace});
    assert Extends(db, db');
    forall m | m in db'.members ensures InvitedAs(db', m) {
      InvitedExtends(db, db', m);
    }
  }

  lemma StepDbOk(s: System, e: Event)
    requires SystemOk(s) && Possible(e)
    ensures var s' := Step(s, e);
            DbOk(s'.db) && Extends(s.db, s'.db) && NeverPendingAgain(s.db, s'.db)
  {
    match e
    case Invited(token, invite) =>
      if token !in s.db.invites {
        InvitedOk(s.db, token, invite);
      }
    case Next(c, ok, now) =>
      if c in s.calls {
        CallStepOk(s.db, s.calls[c], ok, now);
      }
    case ExpireRoles(workspace) => ExpireRolesOk(s.db, workspace);
    case _ =>
  }

  lemma StepKeeps(s: System, e: Event)
    requires SystemOk(s) && Possible(e)
    ensures SystemOk(Step(s, e))
    ensures Extends(s.db, Step(s, e).db) && NeverPendingAgain(s.db, Step(s, e).db)
  {
    var s' := Step(s, e);
    StepDbOk(s, e);
    if e.Next? && e.caller in s.calls {
      CallStepOk(s.db, s.calls[e.caller], e.ok, e.now);
    }
    forall c | c in s'.calls ensures CallOk(s'.db, s'.calls[c]) {
      if c in s.calls && s'.calls[c] == s.calls[c] {
        CallExtends(s.db, s'.db, s.calls[c]);
      }
    }
    forall g | g in s'.granted ensures Entitled(s'.db, g) {
      if g in s.granted {
        EntitledExtends(s.db, s'.db, g);
      }
    }
  }

  /** The invariants hold in every interleaving, and over the whole run PENDING is left for good. */
  lemma {:induction false} RunKeeps(s: System, es: seq<Event>)
    requires SystemOk(s) && forall e :: e in es ==> Possible(e)
    ensures SystemOk(Run(s, es))
    ensures Extends(s.db, Run(s, es).db) && NeverPendingAgain(s.db, Run(s, es).db)
    decreases es
  {
    if es != [] {
      assert es[0] in es;
      StepKeeps(s, es[0]);
      RunKeeps(Step(s, es[0]), es[1..]);
    }
  }
}
