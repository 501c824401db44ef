/**
 The requests of the membership protocol as the services write them: straight-line methods over
 the repository and the cache, each proved to be its own sequence of protocol steps.
 */
module MembershipService {
  import opened Wrappers
  import opened Membership
  import opened MembershipRuns

  datatype AcceptResult =
    Joined | InvalidLink | AlreadyUsed | LinkExpired | NoUser | OtherAddress | AlreadyMember | Failed

  ghost predicate Belongs(members: seq<Member>, workspace: nat, user: nat) {
    exists m :: m in members && m.workspace == workspace && m.user == user
  }

  lemma BelongsIff(members: seq<Member>, workspace: nat, user: nat)
    ensures Belongs(members, workspace, user) <==> IsMember(members, workspace, user)
  {
    if IsMember(members, workspace, user) {
      var i :| 0 <= i < |members| && members[i].workspace == workspace && members[i].user == user;
      assert members[i] in members;
    }
    if Belongs(members, workspace, user) {
      var m :| m in members && m.workspace == workspace && m.user == user;
      var i :| 0 <= i < |members| && members[i] == m;
    }
  }

  /** The cached roles with one more field in the hash of the workspace. */
  function WithRole(roles: map<nat, map<nat, string>>, workspace: nat, user: nat, role: string)
    : map<nat, map<nat, string>>
  {
    roles[workspace := (if workspace in roles then roles[workspace] else map[])[user := role]]
  }

  /** Where memberships are unique, the role that the table gives is that of every membership. */
  lemma OneRole(members: seq<Member>, workspace: nat, user: nat)
    requires UniqueMembers(members)
    ensures var role := DbRole(members, workspace, user);
            && (role.Some? <==> Belongs(members, workspace, user))
            && (forall m :: m in members && m.workspace == workspace && m.user == user ==> role == Some(m.role))
            && (role.Some? ==> Member(workspace, user, role.value) in members)
  {
    var role := DbRole(members, workspace, user);
    DbRoleFinds(members, workspace, user);
    BelongsIff(members, workspace, user);
    forall m | m in members && m.workspace == workspace && m.user == user ensures role == Some(m.role) {
      assert m == Member(workspace, user, m.role);
      RoleIsMember(members, workspace, user, m.role);
      UniqueRole(members, workspace, user, m.role, role.value);
    }
    if role.Some? {
      RoleIsMember(members, workspace, user, role.value);
    }
  }

  lemma CachedIsMember(db: Db, workspace: nat, user: nat)
    requires RolesAreReal(db)
    ensures workspace in db.roles && user in db.roles[workspace] && db.roles[workspace][user] != "" ==>
              exists m :: m in db.members && m.workspace == workspace && m.user == user
                          && m.role == db.roles[workspace][user]
  {
    if workspace in db.roles && user in db.roles[workspace] && db.roles[workspace][user] != "" {
      assert HasRole(db.members, workspace, user, db.roles[workspace][user]);
    }
  }

  /** What is left of an acceptance from the insertion of the member on. */
  lemma JoinAlone(db: Db, token: nat, user: nat, invite: Invite, o: Outcomes, now: int)
    ensures Alone(db, AcceptAdd(token, user, invite), o, now).db ==
            if !o.add || IsMember(db.members, invite.workspace, user) then db
            else
              var db1 := db.(members := db.members + [Member(invite.workspace, user, invite.role)]);
              var db2 := if o.update then SetStatus(db1, token, ACCEPTED) else db1;
              if o.cacheSet then CacheRole(db2, invite.workspace, user, invite.role) else db2
  {
    var db1 := db.(members := db.members + [Member(invite.workspace, user, invite.role)]);
    var db2 := if o.update then SetStatus(db1, token, ACCEPTED) else db1;
    AloneUnfolds(db2, AcceptCache(token, user, invite), o, now);
    AloneUnfolds(db1, AcceptUpdate(token, user, invite), o, now);
    AloneUnfolds(db, AcceptAdd(token, user, invite), o, now);
  }

  lemma FoundAlone(db: Db, token: nat, user: nat, invite: Invite, o: Outcomes, now: int)
    ensures Alone(db, AcceptUser(token, user, invite), o, now).db ==
            if !o.user || user !in db.users || invite.email != db.users[user] then db
            else if o.isMember && IsMember(db.members, invite.workspace, user)
            then if o.update then SetStatus(db, token, ACCEPTED) else db
            else Alone(db, AcceptAdd(token, user, invite), o, now).db
  {
    AloneUnfolds(db, AcceptUser(token, user, invite), o, now);
    AloneUnfolds(db, AcceptCheck(token, user, invite), o, now);
    AloneUnfolds(db, AcceptAlready(token, user, invite), o, now);
  }

  lemma FindAlone(db: Db, token: nat, user: nat, o: Outcomes, now: int)
    ensures var db' := Alone(db, AcceptFind(token, user), o, now).db;
            && (db' ==
                if !o.find || token !in db.invites || db.invites[token].status != PENDING then db
                else if now > db.invites[token].expiresAt then if o.update then SetStatus(db, token, EXPIRED) else db
                else Alone(db, AcceptUser(token, user, db.invites[token]), o, now).db)
            && (DbOk(db) ==> DbOk(db') && Extends(db, db'))
  {
    AloneUnfolds(db, AcceptFind(token, user), o, now);
    AloneUnfolds(db, AcceptExpire(token), o, now);
    if DbOk(db) {
      AloneOk(db, AcceptFind(token, user), o, now);
    }
  }

  class Service {
    var users: map<nat, string>
    var owners: map<nat, nat>
    var invites: map<nat, Invite>
    var members: seq<Member>
    var roles: map<nat, map<nat, string>>

    constructor (db: Db)
      ensures State() == db
    {
      users, owners, invites, members, roles := db.users, db.owners, db.invites, db.members, db.roles;
    }

    ghost function State(): Db
      reads this
    {
      Db(users, owners, invites, members, roles)
    }

    /** UpdateInviteStatus */
    method UpdateInviteStatus(token: nat, status: Status, ok: bool)
      modifies this`invites
      ensures State() == if ok then SetStatus(old(State()), token, status) else old(State())
      ensures invites ==
              if ok && token in old(invites) then old(invites)[token := old(invites)[token].(status := status)]
              else old(invites)
    {
      if ok && token in invites {
        invites := invites[token := invites[token].(status := status)];
      }
    }

    /** SetMemberRole */
    method SetMemberRole(workspace: nat, user: nat, role: string, ok: bool)
      modifies this`roles
      ensures State() == if ok then CacheRole(old(State()), workspace, user, role) else old(State())
      ensures roles == if ok then WithRole(old(roles), workspace, user, role) else old(roles)
    {
      if ok {
        var hash := if workspace in roles then roles[workspace] else map[];
        roles := roles[workspace := hash[user := role]];
      }
    }

    /**
     AcceptInvitation.  The first answers are about the invitation: not found, not pending, past
     its date; then come the user and the address, and at last the membership.  Only a user who
     joins becomes a member.
     */
    method AcceptInvitation(token: nat, loggedInUser: nat, now: int, o: Outcomes) returns (result: AcceptResult)
      modifies this
      ensures State() == Alone(old(State()), AcceptFind(token, loggedInUser), o, now).db
      ensures DbOk(old(State())) ==> DbOk(State()) && Extends(old(State()), State())
      ensures result == InvalidLink <==> !o.find || token !in old(invites)
      ensures result == InvalidLink ==> State() == old(State())
      ensures o.find && token in old(invites) ==>
                var invite := old(invites)[token];
                && (result == AlreadyUsed <==> invite.status != PENDING)
                && (result == LinkExpired <==> invite.status == PENDING && now > invite.expiresAt)
                && (result == NoUser <==>
                      invite.status == PENDING && now <= invite.expiresAt && (!o.user || loggedInUser !in users))
                && (result == OtherAddress <==>
                      && invite.status == PENDING && now <= invite.expiresAt
                      && o.user && loggedInUser in users && users[loggedInUser] != invite.email)
      ensures (result.AlreadyMember? || result.Failed? || result.Joined?) ==>
                var invite := old(invites)[token];
                && now <= invite.expiresAt && users[loggedInUser] == invite.email
                && (result == AlreadyMember <==> o.isMember && Belongs(old(members), invite.workspace, loggedInUser))
                && (result == Joined <==> o.add && !Belongs(old(members), invite.workspace, loggedInUser))
      ensures users == old(users) && owners == old(owners)
      ensures result == Joined ==>
                var invite := old(invites)[token];
                members == old(members) + [Member(invite.workspace, loggedInUser, invite.role)]
      ensures result != Joined ==> members == old(members)
      ensures result == LinkExpired && o.update ==>
                invites == old(invites)[token := old(invites)[token].(status := EXPIRED)]
      ensures (result.AlreadyMember? || result.Joined?) && o.update ==>
                invites == old(invites)[token := old(invites)[token].(status := ACCEPTED)]
      ensures !o.update || !(result.LinkExpired? || result.AlreadyMember? || result.Joined?) ==>
                invites == old(invites)
      ensures result == Joined && o.cacheSet ==>
                var invite := old(invites)[token];
                roles == old(roles)[invite.workspace :=
                  (if invite.workspace in old(roles) then old(roles)[invite.workspace] else map[])
                  [loggedInUser := invite.role]]
      ensures !(result == Joined && o.cacheSet) ==> roles == old(roles)
    {
      FindAlone(State(), token, loggedInUser, o, now);
      if !o.find || token !in invites {
        return InvalidLink;
      }
      var invite := invites[token];
      if invite.status != PENDING {
        return AlreadyUsed;
      }
      if now > invite.expiresAt {
        UpdateInviteStatus(token, EXPIRED, o.update);
        return LinkExpired;
      }
      result := AcceptFound(token, loggedInUser, invite, now, o);
    }

    /** AcceptInvitation, from the lookup of the user on. */
    method AcceptFound(token: nat, loggedInUser: nat, invite: Invite, ghost now: int, o: Outcomes)
      returns (result: AcceptResult)
      requires token in invites && invites[token] == invite
      modifies this
      ensures State() == Alone(old(State()), AcceptUser(token, loggedInUser, invite), o, now).db
      ensures (result.NoUser? || result.OtherAddress? || result.AlreadyMember? || result.Failed? || result.Joined?)
      ensures result == NoUser <==> !o.user || loggedInUser !in users
      ensures result == OtherAddress <==> o.user && loggedInUser in users && users[loggedInUser] != invite.email
      ensures (result.AlreadyMember? || result.Failed? || result.Joined?) ==>
                && users[loggedInUser] == invite.email
                && (result == AlreadyMember <==> o.isMember && Belongs(old(members), invite.workspace, loggedInUser))
                && (result == Joined <==> o.add && !Belongs(old(members), invite.workspace, loggedInUser))
      ensures users == old(users) && owners == old(owners)
      ensures members == old(members) +
                (if result == Joined then [Member(invite.workspace, loggedInUser, invite.role)] else [])
      ensures invites ==
              if (result.AlreadyMember? || result.Joined?) && o.update
              then old(invites)[token := invite.(status := ACCEPTED)] else old(invites)
      ensures roles ==
              if result == Joined && o.cacheSet then WithRole(old(roles), invite.workspace, loggedInUser, invite.role)
              else old(roles)
    {
      FoundAlone(State(), token, loggedInUser, invite, o, now);
      if !o.user || loggedInUser !in users {
        return NoUser;
      }
      if invite.email != users[loggedInUser] {
        return OtherAddress;
      }
      var alreadyMember := IsMember(members, invite.workspace, loggedInUser);
      BelongsIff(members, invite.workspace, loggedInUser);
      if o.isMember && alreadyMember {
        UpdateInviteStatus(token, ACCEPTED, o.update);
        return AlreadyMember;
      }
      result := AcceptJoin(token, loggedInUser, invite, now, o);
    }

    /** AcceptInvitation, from the insertion of the member on. */
    method AcceptJoin(token: nat, loggedInUser: nat, invite: Invite, ghost now: int, o: Outcomes)
      returns (result: AcceptResult)
      requires token in invites && invites[token] == invite
      modifies this
      ensures State() == Alone(old(State()), AcceptAdd(token, loggedInUser, invite), o, now).db
      ensures (result.Failed? || result.Joined?)
      ensures result == Joined <==> o.add && !IsMember(old(members), invite.workspace, loggedInUser)
      ensures users == old(users) && owners == old(owners)
      ensures members == old(members) +
                (if result == Joined then [Member(invite.workspace, loggedInUser, invite.role)] else [])
      ensures invites ==
              if result == Joined && o.update then old(invites)[token := invite.(status := ACCEPTED)] else old(invites)
      ensures roles ==
              if result == Joined && o.cacheSet then WithRole(old(roles), invite.workspace, loggedInUser, invite.role)
              else old(roles)
    {
      JoinAlone(State(), token, loggedInUser, invite, o, now);
      // the unique constraint makes the insertion fail
      if !o.add || IsMember(members, invite.workspace, loggedInUser) {
        return Failed;
      }
      members := members + [Member(invite.workspace, loggedInUser, invite.role)];
      UpdateInviteStatus(token, ACCEPTED, o.update);
      SetMemberRole(invite.workspace, loggedInUser, invite.role, o.cacheSet);
      result := Joined;
    }

    /** ExpireInvite: a pending invitation becomes EXPIRED, and nothing else changes. */
    method ExpireInvite(token: nat, o: Outcomes)
      modifies this
      ensures State() == Alone(old(State()), ExpireFind(token), o, 0).db
      ensures invites ==
              if o.find && o.update && token in old(invites) && old(invites)[token].status == PENDING
              then old(invites)[token := old(invites)[token].(status := EXPIRED)] else old(invites)
      ensures users == old(users) && owners == old(owners) && members == old(members) && roles == old(roles)
    {
      if !o.find || token !in invites {
        return;
      }
      if invites[token].status != PENDING {
        return;
      }
      UpdateInviteStatus(token, EXPIRED, o.update);
    }

    /**
     checkAccess: `true` if access is granted.  Only the owner and members in an allowed role are let
     through, whatever the cache holds; without a usable cache entry, all of them are.
     */
    method CheckAccess(workspace: nat, user: nat, allowed: seq<string>, o: Outcomes) returns (granted: bool)
      requires DbOk(State())
      modifies this
      ensures State() == Alone(old(State()), RoleCache(workspace, user, allowed, true), o, 0).db
      ensures granted <==> Alone(old(State()), RoleCache(workspace, user, allowed, true), o, 0).grants != []
      ensures granted ==> workspace in owners
      ensures workspace in owners && owners[workspace] == user ==> granted
      ensures granted && owners[workspace] != user ==>
                exists m :: m in members && m.workspace == workspace && m.user == user
                            && (allowed == [] || m.role in allowed)
      ensures workspace in owners && owners[workspace] != user && o.cacheGet && workspace in old(roles) ==>
                && (granted <==>
                      && user in old(roles)[workspace] && old(roles)[workspace][user] != ""
                      && (allowed == [] || old(roles)[workspace][user] in allowed))
                && roles == old(roles)
      ensures workspace in owners && owners[workspace] != user && !(o.cacheGet && workspace in old(roles)) ==>
                (granted <==>
                   o.find && exists m :: m in members && m.workspace == workspace && m.user == user
                                         && (allowed == [] || m.role in allowed))
      ensures workspace in owners && owners[workspace] != user && !(o.cacheGet && workspace in old(roles))
              && o.find && o.cacheSet ==>
                && workspace in roles && user in roles[workspace]
                && (forall m :: m in members && m.workspace == workspace && m.user == user ==>
                      roles[workspace][user] == m.role)
                && ((forall m :: m in members ==> m.workspace != workspace || m.user != user) ==>
                      roles[workspace][user] == "")
      ensures users == old(users) && owners == old(owners) && invites == old(invites) && members == old(members)
      ensures forall w, u ::
                (w in old(roles) && u in old(roles)[w] ==> w in roles && u in roles[w]) &&
                (w in roles && u in roles[w] && (w != workspace || u != user) ==>
                   w in old(roles) && u in old(roles)[w] && roles[w][u] == old(roles)[w][u])
    {
      AloneUnfolds(State(), RoleCache(workspace, user, allowed, true), o, 0);
      if workspace !in owners {
        return false;
      }
      if owners[workspace] == user {
        return true;
      }
      OneRole(members, workspace, user);
      CachedIsMember(State(), workspace, user);
      granted := CheckMember(workspace, user, allowed, o);
    }

    /** checkAccess, for a user who is not the owner. */
    method CheckMember(workspace: nat, user: nat, allowed: seq<string>, o: Outcomes) returns (granted: bool)
      requires workspace in owners && owners[workspace] != user
      modifies this`roles
      ensures var fx := Alone(old(State()), RoleCache(workspace, user, allowed, true), o, 0);
              State() == fx.db && fx.grants == if granted then [Grant(workspace, user, allowed)] else []
      ensures o.cacheGet && workspace in old(roles) ==>
                && (granted <==>
                      && user in old(roles)[workspace] && old(roles)[workspace][user] != ""
                      && (allowed == [] || old(roles)[workspace][user] in allowed))
                && roles == old(roles)
      ensures !(o.cacheGet && workspace in old(roles)) ==>
                var stored := DbRole(members, workspace, user);
                && (granted <==> o.find && stored.Some? && (allowed == [] || stored.value in allowed))
                && roles ==
                   if o.find && o.cacheSet
                   then WithRole(old(roles), workspace, user, if stored.None? then "" else stored.value)
                   else old(roles)
    {
      LookupAlone(State(), workspace, user, allowed, true, o);
      var cached := if o.cacheGet then CachedRole(roles, workspace, user) else None;
      var role: string;
      if cached.None? {
        var read := DbRole(members, workspace, user);
        if !o.find {
          return false;
        }
        if read.None? {
          SetMemberRole(workspace, user, "", o.cacheSet);
          return false;
        }
        role := read.value;
        SetMemberRole(workspace, user, role, o.cacheSet);
      } else {
        role := cached.value;
        if role == "" {
          return false;
        }
      }
      granted := IsAllowed(allowed, role);
    }

    /** The loop over the allowed roles; none given means any. */
    method IsAllowed(allowed: seq<string>, role: string) returns (granted: bool)
      ensures granted <==> allowed == [] || exists i :: 0 <= i < |allowed| && allowed[i] == role
    {
      if |allowed| == 0 {
        return true;
      }
      for i := 0 to |allowed|
        invariant forall j :: 0 <= j < i ==> allowed[j] != role
      {
        if allowed[i] == role {
          return true;
        }
      }
      granted := false;
    }
  }
}
