/**
 Which message the user handler hands to the dead-letter topic for a rejected user: it searches
 the batch for the user's id and takes the first event it finds.
 */
module UserLetters {
  import opened Wrappers
  import opened RowFold
  import opened Collecting

  /** A user event: its message and the decoded user, whose id is `id(user)`. */
  datatype Event<+M, +U> = Event(msg: M, user: U)

  function Users<M, U>(events: seq<Event<M, U>>): (users: seq<U>)
    ensures |users| == |events| && forall i :: 0 <= i < |users| ==> users[i] == events[i].user
  {
    seq(|events|, i requires 0 <= i < |events| => events[i].user)
  }

  /** The events of a batch: message by message the decoded user. */
  function Events<M, U>(msgs: seq<M>, batch: seq<U>): (events: seq<Event<M, U>>)
    ensures |msgs| == |batch| ==> |events| == |batch| && Users(events) == batch
  {
    if msgs == [] || batch == [] then []
    else
      var rest := Events(msgs[1..], batch[1..]);
      assert |msgs| == |batch| ==> Users([Event(msgs[0], batch[0])] + rest) == [batch[0]] + Users(rest);
      [Event(msgs[0], batch[0])] + rest
  }

  lemma {:induction false} EventsConcat<M, U>(m: seq<M>, b: seq<U>, m': seq<M>, b': seq<U>)
    requires |m| == |b|
    ensures Events(m + m', b + b') == Events(m, b) + Events(m', b')
    decreases m
  {
    if m == [] {
      assert m + m' == m' && b + b' == b';
    } else {
      assert (m + m')[1..] == m[1..] + m' && (b + b')[1..] == b[1..] + b';
      EventsConcat(m[1..], b[1..], m', b');
    }
  }

  /** The messages of the events whose users the database rejects. */
  function OwnMessages<T, M, U>(apply: (T, U) -> Option<T>, t: T, events: seq<Event<M, U>>): seq<M> {
    if events == [] then []
    else
      var rest := OwnMessages(apply, Try(apply, t, events[0].user), events[1..]);
      if apply(t, events[0].user).None? then [events[0].msg] + rest else rest
  }

  /** The message of the first event with the id, as the search loop finds it. */
  function FirstMessage<M, U, K(==)>(id: U -> K, events: seq<Event<M, U>>, k: K): seq<M> {
    if events == [] then []
    else if id(events[0].user) == k then [events[0].msg]
    else FirstMessage(id, events[1..], k)
  }

  function FoundMessages<M, U, K(==)>(id: U -> K, events: seq<Event<M, U>>, failed: seq<U>): seq<M> {
    Collect(u => FirstMessage(id, events, id(u)), failed)
  }

  /** Whether event `k` shares its id with an earlier event of the batch. */
  ghost predicate HasEarlierTwin<M, U, K>(id: U -> K, events: seq<Event<M, U>>, k: nat)
    requires k < |events|
  {
    exists j :: 0 <= j < k && id(events[j].user) == id(events[k].user)
  }

  lemma {:induction false} FirstMessageAt<M, U, K>(id: U -> K, events: seq<Event<M, U>>, k: nat)
    requires k < |events|
    ensures !HasEarlierTwin(id, events, k) ==> FirstMessage(id, events, id(events[k].user)) == [events[k].msg]
    ensures HasEarlierTwin(id, events, k) ==>
              exists j :: 0 <= j < k && FirstMessage(id, events, id(events[k].user)) == [events[j].msg]
    decreases k
  {
    if k > 0 {
      var rest := events[1..];
      FirstMessageAt(id, rest, k - 1);
      if id(events[0].user) != id(events[k].user) {
        if j :| 0 <= j < k && id(events[j].user) == id(events[k].user) {
          assert rest[j - 1] == events[j];
          var i :| 0 <= i < k - 1 && FirstMessage(id, rest, id(events[k].user)) == [rest[i].msg];
          assert rest[i] == events[i + 1];
        } else {
          assert forall j :: 0 <= j < k - 1 ==> rest[j] == events[j + 1];
        }
      } else {
        assert FirstMessage(id, events, id(events[k].user)) == [events[0].msg];
      }
    }
  }

  /** Event `k` is rejected when the users are written one at a time. */
  ghost predicate Rejected<T, M, U>(apply: (T, U) -> Option<T>, t: T, events: seq<Event<M, U>>, k: nat)
    requires k < |events|
  {
    apply(SkipTable(apply, t, Users(events)[..k]), events[k].user).None?
  }

  ghost predicate DistinctMessages<M, U>(events: seq<Event<M, U>>) {
    forall i, j :: 0 <= i < j < |events| ==> events[i].msg != events[j].msg
  }

  /** No rejected event from `k` on shares its id with an earlier event of the batch. */
  ghost predicate NoTwins<T, M, U, K>(
      apply: (T, U) -> Option<T>, id: U -> K, t: T, events: seq<Event<M, U>>, k: nat)
  {
    forall i :: k <= i < |events| && Rejected(apply, t, events, i) ==> !HasEarlierTwin(id, events, i)
  }

  /** One event more, in front of those from `k + 1` on. */
  lemma OwnFront<T, M, U>(apply: (T, U) -> Option<T>, t: T, events: seq<Event<M, U>>, k: nat)
    requires k < |events|
    ensures var u, u' := SkipTable(apply, t, Users(events)[..k]), SkipTable(apply, t, Users(events)[..k + 1]);
            var rejected := Rejected(apply, t, events, k);
            && u' == Try(apply, u, events[k].user)
            && Skipped(apply, u, Users(events[k..])) ==
               (if rejected then [events[k].user] else []) + Skipped(apply, u', Users(events[k + 1..]))
            && OwnMessages(apply, u, events[k..]) ==
               (if rejected then [events[k].msg] else []) + OwnMessages(apply, u', events[k + 1..])
  {
    var users, rest := Users(events), events[k..];
    assert users[..k + 1] == users[..k] + [users[k]];
    SkipConcat(apply, t, users[..k], [users[k]]);
    assert [users[k]][1..] == [];
    assert rest[1..] == events[k + 1..] && Users(rest)[1..] == Users(rest[1..]) && Users(rest)[0] == users[k];
  }

  lemma FoundFront<M, U, K>(id: U -> K, events: seq<Event<M, U>>, user: U, failed: seq<U>)
    ensures FoundMessages(id, events, [user] + failed) ==
            FirstMessage(id, events, id(user)) + FoundMessages(id, events, failed)
  {
    assert ([user] + failed)[1..] == failed;
  }

  /** The search over the events from `k` on, with the whole batch to look in. */
  ghost predicate FoundFromAre<T, M, U, K>(
      apply: (T, U) -> Option<T>, id: U -> K, t: T, events: seq<Event<M, U>>, k: nat)
    requires k <= |events|
  {
    var u, rest := SkipTable(apply, t, Users(events)[..k]), events[k..];
    var found, own := FoundMessages(id, events, Skipped(apply, u, Users(rest))), OwnMessages(apply, u, rest);
    && |found| == |own|
    && (NoTwins(apply, id, t, events, k) ==> found == own)
    && (DistinctMessages(events) && found == own ==> NoTwins(apply, id, t, events, k))
  }

  lemma NoTwinsFront<T, M, U, K>(
      apply: (T, U) -> Option<T>, id: U -> K, t: T, events: seq<Event<M, U>>, k: nat)
    requires k < |events|
    ensures NoTwins(apply, id, t, events, k) <==>
            (Rejected(apply, t, events, k) ==> !HasEarlierTwin(id, events, k)) && NoTwins(apply, id, t, events, k + 1)
  {
  }

  lemma FoundRejected<T, M, U, K>(
      apply: (T, U) -> Option<T>, id: U -> K, t: T, events: seq<Event<M, U>>, k: nat)
    requires k < |events| && FoundFromAre(apply, id, t, events, k + 1) && Rejected(apply, t, events, k)
    ensures FoundFromAre(apply, id, t, events, k)
  {
    OwnFront(apply, t, events, k);
    NoTwinsFront(apply, id, t, events, k);
    FirstMessageAt(id, events, k);
    var u' := SkipTable(apply, t, Users(events)[..k + 1]);
    var skipped := Skipped(apply, u', Users(events[k + 1..]));
    FoundFront(id, events, events[k].user, skipped);
    SameFront(FirstMessage(id, events, id(events[k].user)), FoundMessages(id, events, skipped),
              events[k].msg, OwnMessages(apply, u', events[k + 1..]));
  }

  lemma FoundAccepted<T, M, U, K>(
      apply: (T, U) -> Option<T>, id: U -> K, t: T, events: seq<Event<M, U>>, k: nat)
    requires k < |events| && FoundFromAre(apply, id, t, events, k + 1) && !Rejected(apply, t, events, k)
    ensures FoundFromAre(apply, id, t, events, k)
  {
    OwnFront(apply, t, events, k);
    NoTwinsFront(apply, id, t, events, k);
    var u' := SkipTable(apply, t, Users(events)[..k + 1]);
    var skipped, own := Skipped(apply, u', Users(events[k + 1..])), OwnMessages(apply, u', events[k + 1..]);
    assert [] + skipped == skipped && [] + own == own;
  }

  lemma {:induction false} FoundFrom<T, M, U, K>(
      apply: (T, U) -> Option<T>, id: U -> K, t: T, events: seq<Event<M, U>>, k: nat)
    requires k <= |events|
    ensures FoundFromAre(apply, id, t, events, k)
    decreases |events| - k
  {
    if k < |events| {
      FoundFrom(apply, id, t, events, k + 1);
      if Rejected(apply, t, events, k) {
        FoundRejected(apply, id, t, events, k);
      } else {
        FoundAccepted(apply, id, t, events, k);
      }
    }
  }

  lemma SameFront<M>(first: seq<M>, found: seq<M>, msg: M, own: seq<M>)
    requires |first| == 1
    ensures first + found == [msg] + own <==> first == [msg] && found == own
  {
    assert (first + found)[1..] == found && ([msg] + own)[1..] == own;
    assert (first + found)[0] == first[0] && ([msg] + own)[0] == msg;
  }

  /**
   The messages the user handler dead-letters are the failing users' own messages exactly if
   no failing user shares its id with an earlier event of the batch.
   */
  lemma FoundAreOwn<T, M, U, K>(apply: (T, U) -> Option<T>, id: U -> K, t: T, events: seq<Event<M, U>>)
    ensures |FoundMessages(id, events, Skipped(apply, t, Users(events)))| == |OwnMessages(apply, t, events)|
    ensures NoTwins(apply, id, t, events, 0) ==>
              FoundMessages(id, events, Skipped(apply, t, Users(events))) == OwnMessages(apply, t, events)
    ensures DistinctMessages(events) ==>
              (FoundMessages(id, events, Skipped(apply, t, Users(events))) == OwnMessages(apply, t, events) <==>
               NoTwins(apply, id, t, events, 0))
  {
    FoundFrom(apply, id, t, events, 0);
    assert events[0..] == events && Users(events)[..0] == [];
  }

  /** The failing side is reached by any two events of one id of which only the second is rejected. */
  lemma TwinMisdirected<T, M, U, K>(
      apply: (T, U) -> Option<T>, id: U -> K, t: T, a: Event<M, U>, b: Event<M, U>)
    requires id(a.user) == id(b.user) && a.msg != b.msg
    requires apply(t, a.user).Some? && apply(apply(t, a.user).value, b.user).None?
    ensures FoundMessages(id, [a, b], Skipped(apply, t, Users([a, b]))) != OwnMessages(apply, t, [a, b])
  {
    var events := [a, b];
    var users := Users(events);
    assert users[..1] == [a.user] && [a.user][1..] == [];
    assert Rejected(apply, t, events, 1) && HasEarlierTwin(id, events, 1);
    FoundAreOwn(apply, id, t, events);
  }

  lemma {:induction false} OwnConcat<T, M, U>(
      apply: (T, U) -> Option<T>, t: T, a: seq<Event<M, U>>, b: seq<Event<M, U>>)
    ensures OwnMessages(apply, t, a + b) ==
            OwnMessages(apply, t, a) + OwnMessages(apply, SkipTable(apply, t, Users(a)), b)
    decreases a
  {
    if a == [] {
      assert a + b == b;
    } else {
      assert (a + b)[1..] == a[1..] + b && Users(a)[1..] == Users(a[1..]);
      OwnConcat(apply, Try(apply, t, a[0].user), a[1..], b);
    }
  }
}
