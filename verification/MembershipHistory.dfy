/**
 Where memberships come from: every member added in a run had its invitation read, by its own
 request, while the invitation was pending and not past its date.
 */
module MembershipHistory {
  import opened Wrappers
  import opened Membership
  import opened MembershipRuns

  /**
   Event `k` is the call in which a request of `user` has read the invitation `token`, which was
   pending, at a time not past its date.
   */
  ghost predicate ReadAt(s0: System, es: seq<Event>, k: nat, token: nat, user: nat, invite: Invite)
    requires k < |es|
  {
    var s, e := Run(s0, es[..k]), es[k];
    && e.Next? && e.ok && e.caller in s.calls && s.calls[e.caller] == AcceptFind(token, user)
    && token in s.db.invites && s.db.invites[token] == invite
    && invite.status == PENDING && e.now <= invite.expiresAt
  }

  ghost predicate ReadInTime(s0: System, es: seq<Event>, token: nat, user: nat, invite: Invite) {
    exists k :: 0 <= k < |es| && ReadAt(s0, es, k, token, user, invite)
  }

  /** The invitation and the user that a request works with once it has read the invitation in time. */
  ghost predicate CallInTime(s0: System, es: seq<Event>, call: Call) {
    match call
    case AcceptUser(token, user, invite) => ReadInTime(s0, es, token, user, invite)
    case AcceptCheck(token, user, invite) => ReadInTime(s0, es, token, user, invite)
    case AcceptAlready(token, user, invite) => ReadInTime(s0, es, token, user, invite)
    case AcceptAdd(token, user, invite) => ReadInTime(s0, es, token, user, invite)
    case _ => true
  }

  ghost predicate MemberInTime(s0: System, es: seq<Event>, m: Member) {
    exists token, invite ::
      ReadInTime(s0, es, token, m.user, invite) && invite.workspace == m.workspace && invite.role == m.role
  }

  lemma RunAdd(s0: System, es: seq<Event>, e: Event)
    ensures Run(s0, es + [e]) == Step(Run(s0, es), e)
  {
    RunSplit(s0, es + [e], |es|);
    assert (es + [e])[..|es|] == es && (es + [e])[|es|..] == [e] && [e][1..] == [];
    var none: seq<Event> := [];
    assert Run(Step(Run(s0, es), e), none) == Step(Run(s0, es), e);
  }

  lemma StaysInTime(s0: System, es: seq<Event>, e: Event, token: nat, user: nat, invite: Invite)
    requires ReadInTime(s0, es, token, user, invite)
    ensures ReadInTime(s0, es + [e], token, user, invite)
  {
    var k :| 0 <= k < |es| && ReadAt(s0, es, k, token, user, invite);
    assert (es + [e])[..k] == es[..k] && (es + [e])[k] == es[k];
    assert ReadAt(s0, es + [e], k, token, user, invite);
  }

  lemma CallStaysInTime(s0: System, es: seq<Event>, e: Event, call: Call)
    requires CallInTime(s0, es, call)
    ensures CallInTime(s0, es + [e], call)
  {
    match call
    case AcceptUser(token, user, invite) => StaysInTime(s0, es, e, token, user, invite);
    case AcceptCheck(token, user, invite) => StaysInTime(s0, es, e, token, user, invite);
    case AcceptAlready(token, user, invite) => StaysInTime(s0, es, e, token, user, invite);
    case AcceptAdd(token, user, invite) => StaysInTime(s0, es, e, token, user, invite);
    case _ =>
  }

  lemma MemberStaysInTime(s0: System, es: seq<Event>, e: Event, m: Member)
    requires MemberInTime(s0, es, m)
    ensures MemberInTime(s0, es + [e], m)
  {
    var token, invite :| ReadInTime(s0, es, token, m.user, invite) && invite.workspace == m.workspace
                         && invite.role == m.role;
    StaysInTime(s0, es, e, token, m.user, invite);
  }

  /** The call that follows one that may rely on the date may do so, too. */
  lemma NextInTime(s0: System, es: seq<Event>, c: nat, ok: bool, now: int)
    requires var s := Run(s0, es); c in s.calls && CallInTime(s0, es, s.calls[c])
    ensures var s := Run(s0, es);
            var fx := CallStep(s.db, s.calls[c], ok, now);
            fx.next.Some? ==> CallInTime(s0, es + [Next(c, ok, now)], fx.next.value)
  {
    var s, e := Run(s0, es), Next(c, ok, now);
    var call := s.calls[c];
    var fx := CallStep(s.db, call, ok, now);
    if call.AcceptFind? && fx.next.Some? {
      assert (es + [e])[..|es|] == es && (es + [e])[|es|] == e;
      if fx.next.value.AcceptUser? {
        assert ReadAt(s0, es + [e], |es|, call.token, call.user, s.db.invites[call.token]);
      }
    } else {
      CallStaysInTime(s0, es, e, call);
    }
  }

  /** Only the insertion of a member adds one. */
  lemma AddedMember(db: Db, call: Call, ok: bool, now: int)
    ensures var fx := CallStep(db, call, ok, now);
            || fx.db.members == db.members
            || (call.AcceptAdd? &&
                fx.db.members == db.members + [Member(call.invite.workspace, call.user, call.invite.role)])
  {
  }

  lemma StepInTime(s0: System, es: seq<Event>, e: Event)
    requires var s := Run(s0, es);
             && (forall c :: c in s.calls ==> CallInTime(s0, es, s.calls[c]))
             && (forall m :: m in s.db.members ==> MemberInTime(s0, es, m))
    requires Possible(e)
    ensures var s := Run(s0, es + [e]);
            && (forall c :: c in s.calls ==> CallInTime(s0, es + [e], s.calls[c]))
            && (forall m :: m in s.db.members ==> MemberInTime(s0, es + [e], m))
  {
    var s := Run(s0, es);
    var s' := Step(s, e);
    RunAdd(s0, es, e);
    forall c | c in s'.calls ensures CallInTime(s0, es + [e], s'.calls[c]) {
      if e.Next? && e.caller == c {
        NextInTime(s0, es, c, e.ok, e.now);
      } else if c in s.calls && s'.calls[c] == s.calls[c] {
        CallStaysInTime(s0, es, e, s.calls[c]);
      }
    }
    forall m | m in s'.db.members ensures MemberInTime(s0, es + [e], m) {
      if m in s.db.members {
        MemberStaysInTime(s0, es, e, m);
      } else {
        var call := s.calls[e.caller];
        AddedMember(s.db, call, e.ok, e.now);
        assert CallInTime(s0, es, call);
        StaysInTime(s0, es, e, call.token, call.user, call.invite);
      }
    }
  }

  lemma {:induction false} RunInTime(s0: System, es: seq<Event>)
    requires s0.calls == map[] && s0.db.members == [] && forall e :: e in es ==> Possible(e)
    ensures var s := Run(s0, es);
            && (forall c :: c in s.calls ==> CallInTime(s0, es, s.calls[c]))
            && (forall m :: m in s.db.members ==> MemberInTime(s0, es, m))
    decreases |es|
  {
    if es != [] {
      var n := |es| - 1;
      assert es == es[..n] + [es[n]];
      assert forall e :: e in es[..n] ==> e in es;
      RunInTime(s0, es[..n]);
      StepInTime(s0, es[..n], es[n]);
    }
  }

  /**
   Every membership of a run goes back to a request of that user which read an invitation to its
   workspace and role, pending and not past its date, before it added the member.
   */
  lemma JoinedInTime(users: map<nat, string>, owners: map<nat, nat>, es: seq<Event>, m: Member)
    requires forall e :: e in es ==> Possible(e)
    requires m in Run(Fresh(users, owners), es).db.members
    ensures exists k, token, invite ::
              && 0 <= k < |es| && ReadAt(Fresh(users, owners), es, k, token, m.user, invite)
              && invite.workspace == m.workspace && invite.role == m.role
  {
    RunInTime(Fresh(users, owners), es);
    var token, invite :| ReadInTime(Fresh(users, owners), es, token, m.user, invite)
                         && invite.workspace == m.workspace && invite.role == m.role;
    var k :| 0 <= k < |es| && ReadAt(Fresh(users, owners), es, k, token, m.user, invite);
  }
}
