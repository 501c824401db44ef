/**
 The list caches without atomicity: a creation is an INSERT, an EXISTS and a ZADD, and a load is
 a query and a write.  Two interleavings leave a list that differs from the table; this module
 says exactly when it does.
 */
module ListRuns {
  import opened Wrappers
  import opened Uuid
  import opened SortedSeq
  import opened ColumnCache
  import opened ListCache

  /** A creation before its EXISTS or before its ZADD, or a load before its write. */
  datatype Pending = Checking(key: nat, id: Uuid) | Adding(key: nat, id: Uuid) | Loading(key: nat, ids: seq<Uuid>)

  datatype System = System(lists: Lists, pending: map<nat, Pending>)

  datatype SplitEvent =
    | InsertRow(caller: nat, key: nat, id: Uuid)
    | Query(caller: nat, key: nat)
    | Next(caller: nat)
    | Expire(key: nat)

  /** The list that ZADD leaves: the old one and the id, or the id alone if there is none. */
  function ZAdded(l: Lists, kind: Kind, key: nat, id: Uuid): Lists {
    l.(cached := l.cached[key := Added(if key in l.cached then l.cached[key] else [], id, kind)])
  }

  function SplitStep(s: System, kind: Kind, e: SplitEvent): System {
    match e
    case InsertRow(c, key, id) =>
      System(s.lists.(rows := s.lists.rows + [Listing(key, id)]), s.pending[c := Checking(key, id)])
    case Query(c, key) =>
      if key in s.lists.cached then s
      else s.(pending := s.pending[c := Loading(key, DbIds(s.lists.rows, key, kind.cap, None))])
    case Next(c) => if c in s.pending then Finish(s, kind, c) else s
    case Expire(key) => s.(lists := s.lists.(cached := s.lists.cached - {key}))
  }

  /** EXISTS, ZADD or the write of a load. */
  function Finish(s: System, kind: Kind, c: nat): System
    requires c in s.pending
  {
    match s.pending[c]
    case Checking(key, id) =>
      if key in s.lists.cached then s.(pending := s.pending[c := Adding(key, id)]) else s.(pending := s.pending - {c})
    case Adding(key, id) => System(ZAdded(s.lists, kind, key, id), s.pending - {c})
    case Loading(key, ids) =>
      System(s.lists.(cached := Load(s.lists.cached, kind, key, ids)), s.pending - {c})
  }

  function SplitRun(s: System, kind: Kind, es: seq<SplitEvent>): System
    decreases es
  {
    if es == [] then s else SplitRun(SplitStep(s, kind, es[0]), kind, es[1..])
  }

  lemma RunThree(s: System, kind: Kind, a: SplitEvent, b: SplitEvent, c: SplitEvent)
    ensures SplitRun(s, kind, [a, b, c]) == SplitStep(SplitStep(SplitStep(s, kind, a), kind, b), kind, c)
  {
    var none: seq<SplitEvent> := [];
    assert [a, b, c][1..] == [b, c] && [b, c][1..] == [c] && [c][1..] == none;
    var s3 := SplitStep(SplitStep(SplitStep(s, kind, a), kind, b), kind, c);
    assert SplitRun(s3, kind, none) == s3;
    assert SplitRun(SplitStep(SplitStep(s, kind, a), kind, b), kind, [c]) == s3;
    assert SplitRun(SplitStep(s, kind, a), kind, [b, c]) == s3;
  }

  lemma {:induction false} RunConcat(s: System, kind: Kind, a: seq<SplitEvent>, b: seq<SplitEvent>)
    ensures SplitRun(s, kind, a + b) == SplitRun(SplitRun(s, kind, a), kind, b)
    decreases a
  {
    if a == [] {
      assert a + b == b;
    } else {
      assert (a + b)[1..] == a[1..] + b && (a + b)[0] == a[0];
      RunConcat(SplitStep(s, kind, a[0]), kind, a[1..], b);
    }
  }

  /** With nothing in between, the steps are the atomic operations. */
  lemma AtomicCreation(l: Lists, kind: Kind, key: nat, id: Uuid, c: nat)
    ensures SplitRun(System(l, map[]), kind, [InsertRow(c, key, id), Next(c), Next(c)]).lists
         == Create(l, kind, key, id)
  {
    RunThree(System(l, map[]), kind, InsertRow(c, key, id), Next(c), Next(c));
  }

  lemma AtomicLoad(l: Lists, kind: Kind, key: nat, c: nat)
    requires key !in l.cached
    ensures SplitRun(System(l, map[]), kind, [Query(c, key), Next(c), Next(c)]).lists == AfterRead(l, kind, key)
  {
    RunThree(System(l, map[]), kind, Query(c, key), Next(c), Next(c));
  }

  /** Every page of the key, whatever its size and cursor, is that of the database. */
  ghost predicate PagesAgree(l: Lists, kind: Kind, key: nat) {
    forall limit, cursor :: ReadPage(l, kind, key, limit, cursor) == DbIds(l.rows, key, limit, cursor)
  }

  /** A list of ids serves the database's pages if and only if it has the database's ids. */
  lemma WrappedAgreesIff(l: Lists, kind: Kind, key: nat, ids: seq<Uuid>)
    requires key in l.cached && l.cached[key] == Wrap(ids) && Descending(Less, ids)
    ensures PagesAgree(l, kind, key) <==> forall u :: u in KeyIds(l.rows, key) <==> u in ids
  {
    IdOrder();
    SortedIs(l.rows, key);
    var all := Sorted(l.rows, key);
    if forall u :: u in KeyIds(l.rows, key) <==> u in ids {
      DescendingUnique(Less, ids, all);
      forall limit, cursor ensures ReadPage(l, kind, key, limit, cursor) == DbIds(l.rows, key, limit, cursor) {
        LexPageWrap(ids, limit, cursor);
      }
    } else if PagesAgree(l, kind, key) {
      WholePage(l, kind, key, ids, |ids| + |all|);
    }
  }

  /** A page large enough shows everything there is. */
  lemma WholePage(l: Lists, kind: Kind, key: nat, ids: seq<Uuid>, limit: nat)
    requires key in l.cached && l.cached[key] == Wrap(ids)
    requires limit >= |ids| && limit >= |Sorted(l.rows, key)|
    ensures ReadPage(l, kind, key, limit, None) == ids
    ensures DbIds(l.rows, key, limit, None) == Sorted(l.rows, key)
  {
    LexPageWrap(ids, limit, None);
    NoFilterUnder(ids);
    NoFilterUnder(Sorted(l.rows, key));
  }

  /******* EXISTS, expiry, ZADD *******/

  /** Three steps and an expiry: the list is the new id alone. */
  lemma StaleExistsRun(l: Lists, kind: Kind, key: nat, id: Uuid, c: nat)
    requires key in l.cached
    ensures SplitRun(System(l, map[]), kind, [InsertRow(c, key, id), Next(c), Expire(key)] + [Next(c)]).lists
         == Lists(l.rows + [Listing(key, id)], l.cached[key := [Id(id)]])
  {
    var first, last := [InsertRow(c, key, id), Next(c), Expire(key)], [Next(c)];
    var s0 := System(l, map[]);
    RunThree(s0, kind, first[0], first[1], first[2]);
    RunConcat(s0, kind, first, last);
    var s3 := SplitRun(s0, kind, first);
    var none: seq<SplitEvent> := [];
    assert last[1..] == none && SplitRun(s3, kind, last) == SplitRun(SplitStep(s3, kind, Next(c)), kind, none);
    var empty: LexSet := [];
    assert Filter((m: Member) => m != Empty, empty) == empty;
    assert (l.cached - {key})[key := [Id(id)]] == l.cached[key := [Id(id)]];
  }

  /**
   If the list expires between a creation's EXISTS and its ZADD, the pages agree with the
   database afterwards if and only if the key had no other id before.
   */
  lemma StaleExistsIff(l: Lists, kind: Kind, key: nat, id: Uuid, c: nat)
    requires key in l.cached
    ensures PagesAgree(
              SplitRun(System(l, map[]), kind, [InsertRow(c, key, id), Next(c), Expire(key)] + [Next(c)]).lists,
              kind, key)
       <==> forall u :: u in KeyIds(l.rows, key) ==> u == id
  {
    StaleExistsRun(l, kind, key, id, c);
    var l' := Lists(l.rows + [Listing(key, id)], l.cached[key := [Id(id)]]);
    KeyIdsAdd(l.rows, Listing(key, id), key);
    var ids := [id];
    assert Wrap(ids) == [Id(id)];
    WrappedAgreesIff(l', kind, key, ids);
    assert forall u :: u in KeyIds(l'.rows, key) <==> u in KeyIds(l.rows, key) || u == id;
    assert forall u :: u in ids <==> u == id;
  }

  /******* Query, anything, write *******/

  predicate By(e: SplitEvent, c: nat) {
    match e
    case InsertRow(d, _, _) => c == d
    case Query(d, _) => c == d
    case Next(d) => c == d
    case Expire(_) => false
  }

  /** What others do leaves a request's pending step alone, and only adds rows. */
  lemma {:induction false} OthersRun(s: System, kind: Kind, es: seq<SplitEvent>, c: nat, key: nat)
    requires c in s.pending && forall e :: e in es ==> !By(e, c)
    ensures var s' := SplitRun(s, kind, es);
            && c in s'.pending && s'.pending[c] == s.pending[c]
            && forall u :: u in KeyIds(s.lists.rows, key) ==> u in KeyIds(s'.lists.rows, key)
    decreases es
  {
    if es != [] {
      assert es[0] in es;
      if es[0].InsertRow? {
        KeyIdsAdd(s.lists.rows, Listing(es[0].key, es[0].id), key);
      }
      OthersRun(SplitStep(s, kind, es[0]), kind, es[1..], c, key);
    }
  }

  /** The state after a load that was overtaken by the events `es` of others. */
  function AfterRacingLoad(
    l: Lists, pending: map<nat, Pending>, kind: Kind, key: nat, c: nat, es: seq<SplitEvent>): System
  {
    SplitRun(System(l, pending), kind, [Query(c, key)] + es + [Next(c)])
  }

  lemma RacingLoadRun(l: Lists, pending: map<nat, Pending>, kind: Kind, key: nat, c: nat, es: seq<SplitEvent>)
    requires key !in l.cached && forall e :: e in es ==> !By(e, c)
    ensures var between := SplitRun(SplitStep(System(l, pending), kind, Query(c, key)), kind, es).lists;
            && AfterRacingLoad(l, pending, kind, key, c, es).lists
               == between.(cached := Load(between.cached, kind, key, DbIds(l.rows, key, kind.cap, None)))
            && forall u :: u in KeyIds(l.rows, key) ==> u in KeyIds(between.rows, key)
  {
    var s0 := System(l, pending);
    var s1 := SplitStep(s0, kind, Query(c, key));
    var query, write := [Query(c, key)], [Next(c)];
    var none: seq<SplitEvent> := [];
    RunConcat(s0, kind, query + es, write);
    RunConcat(s0, kind, query, es);
    assert query[1..] == none && SplitRun(s1, kind, none) == s1 && SplitRun(s0, kind, query) == s1;
    OthersRun(s1, kind, es, c, key);
    var s2 := SplitRun(s1, kind, es);
    assert write[1..] == none && SplitRun(SplitStep(s2, kind, Next(c)), kind, none) == SplitStep(s2, kind, Next(c));
    assert SplitRun(s2, kind, write) == SplitStep(s2, kind, Next(c));
  }

  /** A list loaded from `rows`, next to a table that has all of them and perhaps more. */
  lemma LoadedAgreesIff(l: Lists, cached: map<nat, LexSet>, rows: seq<Listing>, kind: Kind, key: nat)
    requires |KeyIds(rows, key)| <= kind.cap && forall u :: u in KeyIds(rows, key) ==> u in KeyIds(l.rows, key)
    requires l.cached == Load(cached, kind, key, DbIds(rows, key, kind.cap, None))
    requires KeyIds(rows, key) == [] && !kind.marked ==> |KeyIds(l.rows, key)| <= kind.cap
    ensures PagesAgree(l, kind, key)
       <==> || (KeyIds(rows, key) == [] && !kind.marked)
            || (forall u :: u in KeyIds(l.rows, key) ==> u in KeyIds(rows, key))
  {
    var ids := DbIds(rows, key, kind.cap, None);
    IdOrder();
    SortedIs(rows, key);
    LoadIsTop(rows, key, kind.cap);
    SortSize(Less, KeyIds(rows, key));
    assert ids == Sorted(rows, key);
    assert |KeyIds(rows, key)| > 0 ==> KeyIds(rows, key)[0] in ids;
    if ids != [] {
      SortWrap(ids);
      SortSorted(Less, ids);
      WrappedAgreesIff(l, kind, key, ids);
      assert ids[0] in KeyIds(rows, key);
    } else {
      EmptyLoad(l, kind, key);
      assert |KeyIds(l.rows, key)| > 0 ==> KeyIds(l.rows, key)[0] in KeyIds(l.rows, key);
    }
  }

  /**
   A load may be overtaken by anything that others do between its query and its write.  As long
   as the query brings all ids, the pages agree with the database after the write if and only if
   no id of the key was created meanwhile, or the load has found nothing and so leaves no list.
   */
  lemma RacingLoadIff(l: Lists, pending: map<nat, Pending>, kind: Kind, key: nat, c: nat, es: seq<SplitEvent>)
    requires key !in l.cached && |KeyIds(l.rows, key)| <= kind.cap && forall e :: e in es ==> !By(e, c)
    requires KeyIds(l.rows, key) == [] && !kind.marked ==>
               |KeyIds(AfterRacingLoad(l, pending, kind, key, c, es).lists.rows, key)| <= kind.cap
    ensures PagesAgree(AfterRacingLoad(l, pending, kind, key, c, es).lists, kind, key)
       <==> || (KeyIds(l.rows, key) == [] && !kind.marked)
            || (forall u :: u in KeyIds(AfterRacingLoad(l, pending, kind, key, c, es).lists.rows, key) ==>
                              u in KeyIds(l.rows, key))
  {
    RacingLoadRun(l, pending, kind, key, c, es);
    var between := SplitRun(SplitStep(System(l, pending), kind, Query(c, key)), kind, es).lists;
    LoadedAgreesIff(AfterRacingLoad(l, pending, kind, key, c, es).lists, between.cached, l.rows, kind, key);
  }

  /** After a load that has found nothing: the marker shows nothing, and no list shows the table. */
  lemma EmptyLoad(l: Lists, kind: Kind, key: nat)
    requires if kind.marked then key in l.cached && l.cached[key] == [Empty] else key !in l.cached
    requires !kind.marked ==> |KeyIds(l.rows, key)| <= kind.cap
    ensures PagesAgree(l, kind, key) <==> !kind.marked || KeyIds(l.rows, key) == []
  {
    SortedIs(l.rows, key);
    var all := Sorted(l.rows, key);
    if kind.marked {
      forall limit, cursor ensures ReadPage(l, kind, key, limit, cursor) == [] {
        MarkerPage(limit, cursor);
      }
      NoFilterUnder(all);
      assert DbIds(l.rows, key, |all|, None) == all;
      assert |KeyIds(l.rows, key)| > 0 ==> KeyIds(l.rows, key)[0] in all;
      assert |all| > 0 ==> all[0] in KeyIds(l.rows, key);
      assert PagesAgree(l, kind, key) ==> ReadPage(l, kind, key, |all|, None) == all;
      assert all == [] ==> forall limit, cursor :: DbIds(l.rows, key, limit, cursor) == [];
    } else {
      LoadIsTop(l.rows, key, kind.cap);
      SortSize(Less, KeyIds(l.rows, key));
      forall limit, cursor ensures ReadPage(l, kind, key, limit, cursor) == DbIds(l.rows, key, limit, cursor) {
      }
    }
  }
}
