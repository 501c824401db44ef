/**
 What the invariants of the membership protocol mean for whole runs and for a request that runs
 alone, and the two things that the protocol does not give.
 */
module MembershipRuns {
  import opened Wrappers
  import opened Membership

  function Fresh(users: map<nat, string>, owners: map<nat, nat>): System {
    System(Db(users, owners, map[], [], map[]), map[], [])
  }

  lemma {:induction false} RunSplit(s: System, es: seq<Event>, k: nat)
    requires k <= |es|
    ensures Run(s, es) == Run(Run(s, es[..k]), es[k..])
    decreases k
  {
    if k == 0 {
      assert es[..0] == [] && es[0..] == es;
    } else {
      RunSplit(Step(s, es[0]), es[1..], k - 1);
      assert es[..k][1..] == es[1..][..k - 1] && es[1..][k - 1..] == es[k..];
    }
  }

  lemma RunThree(s: System, a: Event, b: Event, c: Event)
    ensures Run(s, [a, b, c]) == Step(Step(Step(s, a), b), c)
  {
    var none: seq<Event> := [];
    assert [a, b, c][1..] == [b, c] && [b, c][1..] == [c] && [c][1..] == none;
    var s3 := Step(Step(Step(s, a), b), c);
    assert Run(s3, none) == s3;
    assert Run(Step(Step(s, a), b), [c]) == s3;
    assert Run(Step(s, a), [b, c]) == s3;
  }

  lemma RunSplitPossible(es: seq<Event>, k: nat)
    requires k <= |es| && forall e :: e in es ==> Possible(e)
    ensures forall e :: e in es[..k] ==> Possible(e)
    ensures forall e :: e in es[k..] ==> Possible(e)
  {
  }

  /**
   Any number of requests, interleaved in any way, from an empty database with fixed users: a
   workspace and user have at most one membership; every membership has the workspace and role
   of an invitation to that user's address; an accepted invitation's user is a member; a cached
   role that is not empty is the database role; and access was granted to entitled users only.
   */
  lemma InvitationProtocol(users: map<nat, string>, owners: map<nat, nat>, es: seq<Event>)
    requires UniqueEmails(users) && forall e :: e in es ==> Possible(e)
    ensures var s := Run(Fresh(users, owners), es);
            var db := s.db;
            && (forall i, j :: 0 <= i < j < |db.members| ==>
                  db.members[i].workspace != db.members[j].workspace || db.members[i].user != db.members[j].user)
            && (forall m :: m in db.members ==>
                  m.user in users && exists token :: token in db.invites && db.invites[token].workspace == m.workspace
                                                     && db.invites[token].email == users[m.user]
                                                     && db.invites[token].role == m.role)
            && (forall token, user ::
                  token in db.invites && db.invites[token].status == ACCEPTED
                  && user in users && users[user] == db.invites[token].email ==>
                  exists m :: m in db.members && m.workspace == db.invites[token].workspace && m.user == user)
            && (forall w, u :: w in db.roles && u in db.roles[w] && db.roles[w][u] != "" ==>
                  Member(w, u, db.roles[w][u]) in db.members)
            && (forall g :: g in s.granted ==>
                  || (g.workspace in owners && owners[g.workspace] == g.user)
                  || exists m :: m in db.members && m.workspace == g.workspace && m.user == g.user
                                 && (g.allowed == [] || m.role in g.allowed))
            && db.users == users && db.owners == owners
  {
    RunKeeps(Fresh(users, owners), es);
    var s := Run(Fresh(users, owners), es);
    AcceptedInFields(s.db);
    MembersInFields(s.db);
    forall g | g in s.granted && !(g.workspace in owners && owners[g.workspace] == g.user)
      ensures exists m :: m in s.db.members && m.workspace == g.workspace && m.user == g.user
                          && (g.allowed == [] || m.role in g.allowed)
    {
      EntitledInFields(s.db, g);
    }
    assert RolesAreReal(s.db);
  }

  lemma AcceptedInFields(db: Db)
    requires AcceptedAreMembers(db)
    ensures forall token, user ::
              token in db.invites && db.invites[token].status == ACCEPTED
              && user in db.users && db.users[user] == db.invites[token].email ==>
              exists m :: m in db.members && m.workspace == db.invites[token].workspace && m.user == user
  {
    forall token, user | token in db.invites && db.invites[token].status == ACCEPTED
                         && user in db.users && db.users[user] == db.invites[token].email
      ensures exists m :: m in db.members && m.workspace == db.invites[token].workspace && m.user == user
    {
      var workspace := db.invites[token].workspace;
      var i :| 0 <= i < |db.members| && db.members[i].workspace == workspace && db.members[i].user == user;
      assert db.members[i] in db.members;
    }
  }

  lemma MembersInFields(db: Db)
    requires forall m :: m in db.members ==> InvitedAs(db, m)
    ensures forall m :: m in db.members ==>
              m.user in db.users && exists token :: token in db.invites && db.invites[token].workspace == m.workspace
                                                    && db.invites[token].email == db.users[m.user]
                                                    && db.invites[token].role == m.role
  {
    forall m | m in db.members
      ensures m.user in db.users && exists token :: token in db.invites && db.invites[token].workspace == m.workspace
                                                    && db.invites[token].email == db.users[m.user]
                                                    && db.invites[token].role == m.role
    {
      var token :| token in db.invites && Invites(db.invites[token], m.workspace, db.users[m.user], m.role);
      assert db.invites[token].workspace == m.workspace;
    }
  }

  /** Once an invitation is not PENDING, it never is again. */
  lemma PendingIsLeftForGood(users: map<nat, string>, owners: map<nat, nat>, es: seq<Event>, k: nat, token: nat)
    requires UniqueEmails(users) && k <= |es| && forall e :: e in es ==> Possible(e)
    requires var earlier := Run(Fresh(users, owners), es[..k]).db.invites;
             token in earlier && earlier[token].status != PENDING
    ensures var last := Run(Fresh(users, owners), es).db.invites;
            token in last && last[token].status != PENDING
  {
    RunSplit(Fresh(users, owners), es, k);
    RunSplitPossible(es, k);
    RunKeeps(Fresh(users, owners), es[..k]);
    RunKeeps(Run(Fresh(users, owners), es[..k]), es[k..]);
  }

  /******* A request alone *******/

  /** For each call of a request, whether it succeeds. */
  datatype Outcomes = Outcomes(
    find: bool, user: bool, isMember: bool, add: bool, update: bool, cacheGet: bool, cacheSet: bool)

  function OutcomeOf(call: Call, o: Outcomes): bool {
    match call
    case AcceptFind(_, _) => o.find
    case AcceptExpire(_) => o.update
    case AcceptUser(_, _, _) => o.user
    case AcceptCheck(_, _, _) => o.isMember
    case AcceptAlready(_, _, _) => o.update
    case AcceptAdd(_, _, _) => o.add
    case AcceptUpdate(_, _, _) => o.update
    case AcceptCache(_, _, _) => o.cacheSet
    case ExpireFind(_) => o.find
    case ExpireUpdate(_) => o.update
    case RoleCache(_, _, _, _) => o.cacheGet
    case RoleRead(_, _, _, _) => o.find
    case RoleStore(_, _, _, _) => o.cacheSet
  }

  /** How many calls are still to come, at most. */
  function Rank(call: Call): nat {
    match call
    case AcceptFind(_, _) => 5
    case AcceptUser(_, _, _) => 4
    case AcceptCheck(_, _, _) => 3
    case AcceptAdd(_, _, _) => 2
    case AcceptUpdate(_, _, _) => 1
    case ExpireFind(_) => 1
    case RoleCache(_, _, _, _) => 2
    case RoleRead(_, _, _, _) => 1
    case _ => 0
  }

  /** The request from `call` to its end, with nothing between its calls. */
  function Alone(db: Db, call: Call, o: Outcomes, now: int): Effect
    decreases Rank(call)
  {
    var fx := CallStep(db, call, OutcomeOf(call, o), now);
    if fx.next.None? then fx else Alone(fx.db, fx.next.value, o, now)
  }

  const ALL_WELL := Outcomes(true, true, true, true, true, true, true)

  lemma UniqueRole(members: seq<Member>, workspace: nat, user: nat, r: string, r': string)
    requires UniqueMembers(members) && HasRole(members, workspace, user, r) && HasRole(members, workspace, user, r')
    ensures r == r'
  {
    var i :| 0 <= i < |members| && members[i] == Member(workspace, user, r);
    var j :| 0 <= j < |members| && members[j] == Member(workspace, user, r');
  }

  /**
   A lookup that nothing disturbs grants access if and only if the user is entitled and, unless
   the owner, has no empty role in the cache.  So the cache is sound, but not complete: a member
   is refused whose field is missing in the workspace's hash, which reads as a cached "".
   */
  lemma LookupIff(db: Db, workspace: nat, user: nat, allowed: seq<string>, negative: bool)
    requires DbOk(db) && workspace in db.owners
    ensures Alone(db, RoleCache(workspace, user, allowed, negative), ALL_WELL, 0).grants != []
       <==> || db.owners[workspace] == user
            || (&& (exists m :: m in db.members && m.workspace == workspace && m.user == user
                                && (allowed == [] || m.role in allowed))
                && (workspace in db.roles ==> user in db.roles[workspace] && db.roles[workspace][user] != ""))
  {
    EntitledInFields(db, Grant(workspace, user, allowed));
    var call := RoleCache(workspace, user, allowed, negative);
    var cached := CachedRole(db.roles, workspace, user);
    DbRoleFinds(db.members, workspace, user);
    var role := if cached.Some? then cached else DbRole(db.members, workspace, user);
    if db.owners[workspace] != user && cached != Some("") {
      forall r | HasRole(db.members, workspace, user, r) ensures role == Some(r) {
        RoleIsMember(db.members, workspace, user, r);
        assert role.Some? && HasRole(db.members, workspace, user, role.value);
        UniqueRole(db.members, workspace, user, r, role.value);
      }
    }
    if db.owners[workspace] != user {
      LookupAlone(db, workspace, user, allowed, negative, ALL_WELL);
    }
  }

  lemma EntitledInFields(db: Db, g: Grant)
    ensures Entitled(db, g) <==>
            || (g.workspace in db.owners && db.owners[g.workspace] == g.user)
            || exists m :: m in db.members && m.workspace == g.workspace && m.user == g.user
                           && (g.allowed == [] || m.role in g.allowed)
  {
    if m :| m in db.members && m.workspace == g.workspace && m.user == g.user
            && (g.allowed == [] || m.role in g.allowed)
    {
      assert m == Member(g.workspace, g.user, m.role);
      assert HasRole(db.members, g.workspace, g.user, m.role) && Allows(g.allowed, m.role);
    }
    if role :| HasRole(db.members, g.workspace, g.user, role) && Allows(g.allowed, role) {
      assert Member(g.workspace, g.user, role) in db.members;
    }
  }

  /** What a lookup alone comes to, for a user who is not the owner. */
  lemma LookupAlone(db: Db, workspace: nat, user: nat, allowed: seq<string>, negative: bool, o: Outcomes)
    requires workspace in db.owners && db.owners[workspace] != user
    ensures var fx := Alone(db, RoleCache(workspace, user, allowed, negative), o, 0);
            var cached := if o.cacheGet then CachedRole(db.roles, workspace, user) else None;
            var stored := DbRole(db.members, workspace, user);
            if cached.Some? then
              fx == if cached.value == "" then Done(db) else Decide(db, workspace, user, allowed, cached.value)
            else if !o.find || (stored.None? && !negative) then fx == Done(db)
            else
              var role := if stored.None? then "" else stored.value;
              var db' := if o.cacheSet then CacheRole(db, workspace, user, role) else db;
              fx == if stored.None? then Done(db') else Decide(db', workspace, user, allowed, role)
  {
    var read := RoleRead(workspace, user, allowed, negative);
    var fx := RoleStep(db, read, o.find);
    assert Alone(db, read, o, 0) == if fx.next.None? then fx else Alone(fx.db, fx.next.value, o, 0);
    if fx.next.Some? {
      assert Alone(db, fx.next.value, o, 0) == RoleStep(db, fx.next.value, o.cacheSet);
    }
  }

  /** An undisturbed acceptance of a valid invitation makes the invited user a member. */
  lemma AcceptanceAlone(db: Db, token: nat, user: nat, now: int)
    requires token in db.invites && db.invites[token].status == PENDING && now <= db.invites[token].expiresAt
    requires user in db.users && db.users[user] == db.invites[token].email
    requires !IsMember(db.members, db.invites[token].workspace, user)
    ensures var invite, db' := db.invites[token], Alone(db, AcceptFind(token, user), ALL_WELL, now).db;
            && db'.members == db.members + [Member(invite.workspace, user, invite.role)]
            && db'.invites == db.invites[token := invite.(status := ACCEPTED)]
            && invite.workspace in db'.roles && user in db'.roles[invite.workspace]
            && db'.roles[invite.workspace][user] == invite.role
  {
    var invite := db.invites[token];
    var db1 := db.(members := db.members + [Member(invite.workspace, user, invite.role)]);
    var db2 := SetStatus(db1, token, ACCEPTED);
    assert Alone(db2, AcceptCache(token, user, invite), ALL_WELL, now)
        == Done(CacheRole(db2, invite.workspace, user, invite.role));
    assert Alone(db1, AcceptUpdate(token, user, invite), ALL_WELL, now)
        == Alone(db2, AcceptCache(token, user, invite), ALL_WELL, now);
    assert Alone(db, AcceptAdd(token, user, invite), ALL_WELL, now)
        == Alone(db1, AcceptUpdate(token, user, invite), ALL_WELL, now);
    assert Alone(db, AcceptCheck(token, user, invite), ALL_WELL, now)
        == Alone(db, AcceptAdd(token, user, invite), ALL_WELL, now);
    assert Alone(db, AcceptUser(token, user, invite), ALL_WELL, now)
        == Alone(db, AcceptCheck(token, user, invite), ALL_WELL, now);
  }

  /******* How long ACCEPTED lasts *******/

  ghost predicate IsAccepted(s: System, token: nat) {
    token in s.db.invites && s.db.invites[token].status == ACCEPTED
  }

  /** Some request has already decided to expire the invitation. */
  ghost predicate AboutToExpire(s: System, token: nat) {
    exists c :: c in s.calls && Expires(s.calls[c], token)
  }

  ghost predicate AcceptedForGood(s: System, token: nat) {
    forall es :: (forall e :: e in es ==> Possible(e)) ==> IsAccepted(Run(s, es), token)
  }

  predicate Expires(call: Call, token: nat) {
    call == ExpireUpdate(token) || call == AcceptExpire(token)
  }

  /** No call of an acceptance takes ACCEPTED back, nor leads to one that does. */
  lemma AcceptStepAccepted(db: Db, call: Call, ok: bool, now: int, token: nat)
    requires call.AcceptFind? || call.AcceptExpire? || call.AcceptUser? || call.AcceptCheck? ||
             call.AcceptAlready? || call.AcceptAdd? || call.AcceptUpdate? || call.AcceptCache?
    requires token in db.invites && db.invites[token].status == ACCEPTED && !Expires(call, token)
    ensures var fx := AcceptStep(db, call, ok, now);
            && token in fx.db.invites && fx.db.invites[token].status == ACCEPTED
            && (fx.next.Some? ==> !Expires(fx.next.value, token))
  {
  }

  lemma CallStepAccepted(db: Db, call: Call, ok: bool, now: int, token: nat)
    requires token in db.invites && db.invites[token].status == ACCEPTED && !Expires(call, token)
    ensures var fx := CallStep(db, call, ok, now);
            && token in fx.db.invites && fx.db.invites[token].status == ACCEPTED
            && (fx.next.Some? ==> !Expires(fx.next.value, token))
  {
    if call.ExpireFind? || call.ExpireUpdate? {
    } else if call.RoleCache? || call.RoleRead? || call.RoleStore? {
      assert RoleStep(db, call, ok).db.invites == db.invites;
    } else {
      AcceptStepAccepted(db, call, ok, now, token);
    }
  }

  /** While an invitation is ACCEPTED, no request comes to expire it. */
  lemma AcceptedStep(s: System, e: Event, token: nat)
    requires IsAccepted(s, token) && !AboutToExpire(s, token) && Possible(e)
    ensures IsAccepted(Step(s, e), token) && !AboutToExpire(Step(s, e), token)
  {
    if e.Next? && e.caller in s.calls {
      CallStepAccepted(s.db, s.calls[e.caller], e.ok, e.now, token);
    }
  }

  lemma {:induction false} AcceptedRun(s: System, es: seq<Event>, token: nat)
    requires IsAccepted(s, token) && !AboutToExpire(s, token) && forall e :: e in es ==> Possible(e)
    ensures IsAccepted(Run(s, es), token)
    decreases es
  {
    if es != [] {
      assert es[0] in es;
      AcceptedStep(s, es[0], token);
      AcceptedRun(Step(s, es[0]), es[1..], token);
    }
  }

  /**
   ACCEPTED is for good, in every further run, if and only if no request that is in progress has
   already read PENDING and goes on to write EXPIRED.
   */
  lemma AcceptedForGoodIff(s: System, token: nat)
    requires IsAccepted(s, token)
    ensures AcceptedForGood(s, token) <==> !AboutToExpire(s, token)
  {
    if AboutToExpire(s, token) {
      var c :| c in s.calls && Expires(s.calls[c], token);
      var es, none: seq<Event> := [Next(c, true, 0)], [];
      assert es[1..] == none && Run(s, es) == Run(Step(s, es[0]), none);
      assert Possible(es[0]) && !IsAccepted(Run(s, es), token);
    } else {
      forall es | forall e :: e in es ==> Possible(e) ensures IsAccepted(Run(s, es), token) {
        AcceptedRun(s, es, token);
      }
    }
  }

  /** `n` calls of one request, all successful. */
  function Nexts(c: nat, n: nat, now: int): seq<Event> {
    if n == 0 then [] else [Next(c, true, now)] + Nexts(c, n - 1, now)
  }

  lemma {:induction false} NextsPossible(c: nat, n: nat, now: int)
    ensures forall e :: e in Nexts(c, n, now) ==> Possible(e)
  {
    if n > 0 {
      NextsPossible(c, n - 1, now);
    }
  }

  /** A request alone is a run of its calls. */
  lemma {:induction false} AloneIsRun(s: System, c: nat, now: int) returns (n: nat)
    requires c in s.calls
    ensures var fx := Alone(s.db, s.calls[c], ALL_WELL, now);
            Run(s, Nexts(c, n, now)) == System(fx.db, s.calls - {c}, s.granted + fx.grants)
    decreases Rank(s.calls[c])
  {
    var s' := Step(s, Next(c, true, now));
    var fx := CallStep(s.db, s.calls[c], true, now);
    AloneUnfolds(s.db, s.calls[c], ALL_WELL, now);
    assert OutcomeOf(s.calls[c], ALL_WELL);
    if fx.next.None? {
      n := 1;
      var none: seq<Event> := [];
      assert Nexts(c, 0, now) == none && Nexts(c, 1, now)[1..] == none;
      assert Run(s', none) == s';
    } else {
      var m := AloneIsRun(s', c, now);
      n := m + 1;
      assert Nexts(c, n, now)[1..] == Nexts(c, m, now);
      var last := Alone(s'.db, fx.next.value, ALL_WELL, now);
      assert s'.calls - {c} == s.calls - {c};
      assert fx.grants == [] && s.granted + fx.grants == s.granted;
    }
  }

  /**
   The failing side is reached: an expiry reads PENDING, then the invitation is accepted without
   a disturbance.  The invitation is ACCEPTED, but not for good, and the user is a member.
   */
  lemma ExpiryOverwritesAcceptance(s: System, token: nat, user: nat, c: nat, d: nat, now: int)
    returns (es: seq<Event>)
    requires var db := s.db;
             && token in db.invites && db.invites[token].status == PENDING && now <= db.invites[token].expiresAt
             && user in db.users && db.users[user] == db.invites[token].email
             && !IsMember(db.members, db.invites[token].workspace, user)
    requires c != d
    ensures forall e :: e in es ==> Possible(e)
    ensures var s' := Run(s, es);
            && IsAccepted(s', token) && !AcceptedForGood(s', token)
            && IsMember(s'.db.members, s.db.invites[token].workspace, user)
  {
    var first := [Start(c, ExpireFind(token)), Next(c, true, now), Start(d, AcceptFind(token, user))];
    var s1 := Step(Step(Step(s, first[0]), first[1]), first[2]);
    RunThree(s, first[0], first[1], first[2]);
    var n := AloneIsRun(s1, d, now);
    es := first + Nexts(d, n, now);
    RunSplit(s, es, |first|);
    assert es[..|first|] == first && es[|first|..] == Nexts(d, n, now);
    NextsPossible(d, n, now);
    AcceptanceAlone(s.db, token, user, now);
    var s' := Run(s, es);
    assert s'.calls[c] == ExpireUpdate(token);
    AcceptedForGoodIff(s', token);
    var invite := s.db.invites[token];
    assert s'.db.members[|s.db.members|] == Member(invite.workspace, user, invite.role);
    RoleIsMember(s'.db.members, invite.workspace, user, invite.role);
  }

  /**
   A lookup that has found no role before an acceptance caches "" after it: the new member is
   refused until the hash expires.
   */
  lemma NegativeEntryOverwritesRole(db: Db, token: nat, user: nat, now: int, allowed: seq<string>)
    requires DbOk(db)
    requires token in db.invites && db.invites[token].status == PENDING && now <= db.invites[token].expiresAt
    requires user in db.users && db.users[user] == db.invites[token].email
    requires var workspace := db.invites[token].workspace;
             && !IsMember(db.members, workspace, user)
             && workspace in db.owners && db.owners[workspace] != user
    ensures var workspace := db.invites[token].workspace;
            var lookup := RoleStep(db, RoleRead(workspace, user, allowed, true), true);
            var accepted := Alone(db, AcceptFind(token, user), ALL_WELL, now).db;
            && lookup.next.Some?
            && var after := RoleStep(accepted, lookup.next.value, true).db;
               && IsMember(after.members, workspace, user)
               && Alone(after, RoleCache(workspace, user, [], true), ALL_WELL, now).grants == []
  {
    AcceptanceAlone(db, token, user, now);
    var invite := db.invites[token];
    DbRoleFinds(db.members, invite.workspace, user);
    if DbRole(db.members, invite.workspace, user).Some? {
      RoleIsMember(db.members, invite.workspace, user, DbRole(db.members, invite.workspace, user).value);
    }
    var accepted := Alone(db, AcceptFind(token, user), ALL_WELL, now).db;
    assert accepted.members[|db.members|] == Member(invite.workspace, user, invite.role);
    RoleIsMember(accepted.members, invite.workspace, user, invite.role);
    OwnersStay(db, token, user, now);
  }

  lemma OwnersStay(db: Db, token: nat, user: nat, now: int)
    requires DbOk(db)
    ensures Alone(db, AcceptFind(token, user), ALL_WELL, now).db.owners == db.owners
  {
    AloneOk(db, AcceptFind(token, user), ALL_WELL, now);
  }

  /** What holds of a request's first call and of the rest of it, holds of the request. */
  lemma AloneUnfolds(db: Db, call: Call, o: Outcomes, now: int)
    ensures var fx := CallStep(db, call, OutcomeOf(call, o), now);
            if fx.next.None? then Alone(db, call, o, now) == fx
            else Rank(fx.next.value) < Rank(call) && Alone(db, call, o, now) == Alone(fx.db, fx.next.value, o, now)
  {
  }

  lemma AloneFollows(db: Db, call: Call, o: Outcomes, now: int, fx: Effect)
    requires fx == CallStep(db, call, OutcomeOf(call, o), now) && EffectOk(db, fx)
    requires fx.next.Some? ==> EffectOk(fx.db, Alone(fx.db, fx.next.value, o, now))
    ensures EffectOk(db, Alone(db, call, o, now))
  {
    AloneUnfolds(db, call, o, now);
    if fx.next.Some? {
      EffectFollows(db, fx.db, Alone(fx.db, fx.next.value, o, now));
    }
  }

  /** A request alone keeps what every interleaving keeps, and grants access to entitled users only. */
  lemma {:induction false} AloneOk(db: Db, call: Call, o: Outcomes, now: int)
    requires DbOk(db) && CallOk(db, call)
    ensures EffectOk(db, Alone(db, call, o, now))
    decreases Rank(call)
  {
    var fx := CallStep(db, call, OutcomeOf(call, o), now);
    CallStepOk(db, call, OutcomeOf(call, o), now);
    AloneUnfolds(db, call, o, now);
    if fx.next.Some? {
      AloneOk(fx.db, fx.next.value, o, now);
    }
    AloneFollows(db, call, o, now, fx);
  }

  lemma EffectFollows(db: Db, between: Db, fx: Effect)
    requires Extends(db, between) && NeverPendingAgain(db, between) && EffectOk(between, fx)
    ensures EffectOk(db, fx)
  {
  }
}
