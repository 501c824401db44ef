/**
 What the steps of creations and loads keep when they overlap.  In any run a cached list holds
 ids of the table only.  Without an expiry between an EXISTS and its ZADD, and without an
 insertion between a query and its write, it also holds the newest ids, but for those that a
 creation is still about to add.
 */
module ListOverlap {
  import opened Wrappers
  import opened Uuid
  import opened SortedSeq
  import opened ColumnCache
  import opened ListCache
  import opened ListRuns

  /******* Any run *******/

  /** The marker, or ids of the key in order. */
  ghost predicate SoundList(rows: seq<Listing>, z: LexSet, key: nat, kind: Kind) {
    || (kind.marked && z == [Empty])
    || (z != [] && z == Wrap(Unwrap(z)) && Descending(Less, Unwrap(z)) &&
        forall u :: u in Unwrap(z) ==> u in KeyIds(rows, key))
  }

  ghost predicate SoundPending(rows: seq<Listing>, p: Pending) {
    match p
    case Checking(key, id) => id in KeyIds(rows, key)
    case Adding(key, id) => id in KeyIds(rows, key)
    case Loading(key, ids) => Descending(Less, ids) && forall u :: u in ids ==> u in KeyIds(rows, key)
  }

  ghost predicate Sound(s: System, kind: Kind) {
    && (forall key :: key in s.lists.cached ==> SoundList(s.lists.rows, s.lists.cached[key], key, kind))
    && (forall c :: c in s.pending ==> SoundPending(s.lists.rows, s.pending[c]))
  }

  lemma UnwrapMarker()
    ensures Unwrap([Empty]) == []
  {
    var z: LexSet := [Empty];
    assert Unwrap(z[1..]) == [];
  }

  /** ZADD on a list that is sound, or that is not there. */
  lemma AddedWraps(z: LexSet, id: Uuid, kind: Kind)
    requires z == [] || (kind.marked && z == [Empty]) || z == Wrap(Unwrap(z))
    ensures Added(z, id, kind) == Wrap(Insert(Less, Unwrap(z), id))
  {
    var none: LexSet := [];
    UnwrapMarker();
    InsertWrap(Unwrap(z), id);
    if z == [Empty] {
      FilterNone((m: Member) => m != Empty, z);
      assert Wrap([]) == none;
    } else {
      WrapHasNoMarker(Unwrap(z));
      assert z == Wrap(Unwrap(z));
    }
  }

  lemma AddedSound(rows: seq<Listing>, z: LexSet, key: nat, kind: Kind, id: Uuid)
    requires z == [] || SoundList(rows, z, key, kind)
    requires id in KeyIds(rows, key)
    ensures SoundList(rows, Added(z, id, kind), key, kind)
    ensures forall u :: u in Unwrap(Added(z, id, kind)) <==> u in Unwrap(z) || u == id
  {
    AddedIds(rows, z, key, kind, id);
    UnwrapWrap(Insert(Less, Unwrap(z), id));
  }

  lemma LoadedSound(rows: seq<Listing>, kind: Kind, key: nat, ids: seq<Uuid>)
    requires ids != [] && SoundPending(rows, Loading(key, ids))
    ensures SoundList(rows, SortDesc(MemberLess, Wrap(ids)), key, kind)
    ensures Unwrap(SortDesc(MemberLess, Wrap(ids))) == ids
  {
    IdOrder();
    SortWrap(ids);
    SortSorted(Less, ids);
    UnwrapWrap(ids);
  }

  /** More rows do not make a list or a pending step unsound. */
  lemma InsertSound(s: System, kind: Kind, row: Listing)
    requires Sound(s, kind)
    ensures Sound(s.(lists := s.lists.(rows := s.lists.rows + [row])), kind)
  {
    var rows := s.lists.rows + [row];
    forall key ensures forall u :: u in KeyIds(s.lists.rows, key) ==> u in KeyIds(rows, key) {
      KeyIdsAdd(s.lists.rows, row, key);
    }
  }

  lemma QuerySound(rows: seq<Listing>, key: nat, cap: nat)
    ensures SoundPending(rows, Loading(key, DbIds(rows, key, cap, None)))
  {
    IdOrder();
    SortedIs(rows, key);
    LoadIsTop(rows, key, cap);
  }

  lemma FinishSound(s: System, kind: Kind, c: nat)
    requires Sound(s, kind) && c in s.pending
    ensures Sound(Finish(s, kind, c), kind)
  {
    match s.pending[c]
    case Checking(_, _) =>
    case Adding(key, id) =>
      assert SoundPending(s.lists.rows, s.pending[c]);
      AddedSound(s.lists.rows, if key in s.lists.cached then s.lists.cached[key] else [], key, kind, id);
    case Loading(key, ids) =>
      if ids != [] {
        LoadedSound(s.lists.rows, kind, key, ids);
      }
  }

  lemma StepSound(s: System, kind: Kind, e: SplitEvent)
    requires Sound(s, kind)
    ensures Sound(SplitStep(s, kind, e), kind)
  {
    match e
    case InsertRow(_, key, id) =>
      InsertSound(s, kind, Listing(key, id));
      KeyIdsAdd(s.lists.rows, Listing(key, id), key);
    case Query(_, key) => QuerySound(s.lists.rows, key, kind.cap);
    case Next(c) =>
      if c in s.pending {
        FinishSound(s, kind, c);
      }
    case Expire(_) =>
  }

  /** Whatever overlaps, a cached list holds nothing that the table does not have. */
  lemma {:induction false} RunSound(s: System, kind: Kind, es: seq<SplitEvent>)
    requires Sound(s, kind)
    ensures Sound(SplitRun(s, kind, es), kind)
    decreases es
  {
    if es != [] {
      StepSound(s, kind, es[0]);
      RunSound(SplitStep(s, kind, es[0]), kind, es[1..]);
    }
  }

  /******* EXISTS, anything, ZADD *******/

  /** The state in front of a creation's ZADD, behind whatever others did since its EXISTS. */
  function BeforeAdd(s: System, kind: Kind, key: nat, id: Uuid, c: nat, es: seq<SplitEvent>): System {
    SplitRun(s, kind, [InsertRow(c, key, id), Next(c)] + es)
  }

  lemma BeforeAddIs(s: System, kind: Kind, key: nat, id: Uuid, c: nat, es: seq<SplitEvent>)
    requires Sound(s, kind) && key in s.lists.cached && forall e :: e in es ==> !By(e, c)
    ensures var b := BeforeAdd(s, kind, key, id, c, es);
            Sound(b, kind) && c in b.pending && b.pending[c] == Adding(key, id)
  {
    var first, none: seq<SplitEvent> := [InsertRow(c, key, id), Next(c)], [];
    var s2 := SplitStep(SplitStep(s, kind, first[0]), kind, first[1]);
    assert first[1..] == [first[1]] && [first[1]][1..] == none;
    assert SplitRun(SplitStep(s, kind, first[0]), kind, [first[1]]) == SplitRun(s2, kind, none);
    RunConcat(s, kind, first, es);
    RunSound(s, kind, first + es);
    OthersRun(s2, kind, es, c, key);
  }

  /**
   A creation may be overtaken by anything that others do between its EXISTS and its ZADD.  The
   pages agree with the database after the ZADD if and only if the list that it found has every
   other id of the key.
   */
  lemma OvertakenAddIff(s: System, kind: Kind, key: nat, id: Uuid, c: nat, es: seq<SplitEvent>)
    requires Sound(s, kind) && key in s.lists.cached && forall e :: e in es ==> !By(e, c)
    ensures var b := BeforeAdd(s, kind, key, id, c, es).lists;
            PagesAgree(SplitStep(BeforeAdd(s, kind, key, id, c, es), kind, Next(c)).lists, kind, key) <==>
            forall u :: u in KeyIds(b.rows, key) && u != id ==> key in b.cached && Id(u) in b.cached[key]
  {
    BeforeAddIs(s, kind, key, id, c, es);
    FoundAgreesIff(BeforeAdd(s, kind, key, id, c, es), kind, key, id, c);
  }

  lemma FoundAgreesIff(b: System, kind: Kind, key: nat, id: Uuid, c: nat)
    requires Sound(b, kind) && c in b.pending && b.pending[c] == Adding(key, id)
    ensures PagesAgree(SplitStep(b, kind, Next(c)).lists, kind, key) <==>
            forall u :: u in KeyIds(b.lists.rows, key) && u != id ==>
              key in b.lists.cached && Id(u) in b.lists.cached[key]
  {
    var z := if key in b.lists.cached then b.lists.cached[key] else [];
    var ids := Insert(Less, Unwrap(z), id);
    assert SoundPending(b.lists.rows, b.pending[c]);
    AddedIds(b.lists.rows, z, key, kind, id);
    WrappedAgreesIff(SplitStep(b, kind, Next(c)).lists, kind, key, ids);
    WrapMembers(Unwrap(z));
    UnwrapMarker();
    assert forall u :: u in Unwrap(z) <==> Id(u) in z;
  }

  lemma AddedIds(rows: seq<Listing>, z: LexSet, key: nat, kind: Kind, id: Uuid)
    requires z == [] || SoundList(rows, z, key, kind)
    ensures var ids := Insert(Less, Unwrap(z), id);
            && Added(z, id, kind) == Wrap(ids) && Descending(Less, ids)
            && (forall u :: u in ids <==> u in Unwrap(z) || u == id)
            && (forall u :: u in Unwrap(z) ==> u in KeyIds(rows, key))
  {
    IdOrder();
    UnwrapMarker();
    AddedWraps(z, id, kind);
    InsertMembers(Less, Unwrap(z), id);
    InsertDescending(Less, Unwrap(z), id);
  }

  /******* Runs without such overlaps *******/

  /** A creation of the key is past its EXISTS. */
  ghost predicate AboutToAdd(s: System, key: nat) {
    exists c :: c in s.pending && s.pending[c].Adding? && s.pending[c].key == key
  }

  /** A load of the key has read the table. */
  ghost predicate AboutToLoad(s: System, key: nat) {
    exists c :: c in s.pending && s.pending[c].Loading? && s.pending[c].key == key
  }

  /** A creation has inserted the id and is not done with the list. */
  ghost predicate Awaited(s: System, key: nat, u: Uuid) {
    exists c :: c in s.pending && (s.pending[c] == Checking(key, u) || s.pending[c] == Adding(key, u))
  }

  /**
   Nothing is inserted between a load's query and its write, and no list expires between a
   creation's EXISTS and its ZADD; a request is in one place at a time.
   */
  ghost predicate Undisturbed(s: System, e: SplitEvent) {
    match e
    case InsertRow(c, key, _) => c !in s.pending && !AboutToLoad(s, key)
    case Query(c, _) => c !in s.pending
    case Next(_) => true
    case Expire(key) => !AboutToAdd(s, key)
  }

  ghost predicate UndisturbedRun(s: System, kind: Kind, es: seq<SplitEvent>)
    decreases es
  {
    es == [] || (Undisturbed(s, es[0]) && UndisturbedRun(SplitStep(s, kind, es[0]), kind, es[1..]))
  }

  /** The newest ids are in the list, or about to be added. */
  ghost predicate AlmostCovers(s: System, kind: Kind, key: nat)
    requires key in s.lists.cached
  {
    forall u :: u in Take(Sorted(s.lists.rows, key), kind.cap) ==>
      u in Unwrap(s.lists.cached[key]) || Awaited(s, key, u)
  }

  ghost predicate Tidy(s: System, kind: Kind) {
    && Sound(s, kind)
    && (forall key :: key in s.lists.cached ==> AlmostCovers(s, kind, key))
    && (forall c :: c in s.pending ==> TidyPending(s.lists, kind, s.pending[c]))
  }

  /** A list that is to be added to is there, and what is to be loaded is what the table has. */
  ghost predicate TidyPending(l: Lists, kind: Kind, p: Pending) {
    && (p.Adding? ==> p.key in l.cached)
    && (p.Loading? ==> p.ids == DbIds(l.rows, p.key, kind.cap, None))
  }

  /** Of the newest ids after an insertion, the others were among the newest before. */
  lemma TopAfterInsert(rows: seq<Listing>, key: nat, cap: nat, id: Uuid)
    ensures forall u :: u in Take(Sorted(rows + [Listing(key, id)], key), cap) ==>
              u in Take(Sorted(rows, key), cap) || u == id
  {
    IdOrder();
    KeyIdsAdd(rows, Listing(key, id), key);
    InsertIsSort(Less, Sorted(rows, key), KeyIds(rows, key), id);
    SortedIs(rows, key);
    PruneInsert(Less, Sorted(rows, key), id, cap);
    InsertMembers(Less, Take(Sorted(rows, key), cap), id);
  }

  lemma InsertTidy(s: System, kind: Kind, c: nat, key: nat, id: Uuid)
    requires Tidy(s, kind) && Undisturbed(s, InsertRow(c, key, id))
    ensures Tidy(SplitStep(s, kind, InsertRow(c, key, id)), kind)
  {
    var s' := SplitStep(s, kind, InsertRow(c, key, id));
    StepSound(s, kind, InsertRow(c, key, id));
    forall k ensures k != key ==> KeyIds(s'.lists.rows, k) == KeyIds(s.lists.rows, k) {
      KeyIdsAdd(s.lists.rows, Listing(key, id), k);
    }
    TopAfterInsert(s.lists.rows, key, kind.cap, id);
    forall k | k in s'.lists.cached ensures AlmostCovers(s', kind, k) {
      forall u | u in Take(Sorted(s'.lists.rows, k), kind.cap)
        ensures u in Unwrap(s'.lists.cached[k]) || Awaited(s', k, u)
      {
        if k == key && u == id {
          assert s'.pending[c] == Checking(k, u);
        } else {
          assert AlmostCovers(s, kind, k);
          StillAwaited(s, s', k, u, c);
        }
      }
    }
  }

  /** A step of another request leaves an id awaited. */
  lemma StillAwaited(s: System, s': System, key: nat, u: Uuid, c: nat)
    requires forall d :: d in s.pending && d != c ==> d in s'.pending && s'.pending[d] == s.pending[d]
    requires c in s.pending ==> s.pending[c] != Checking(key, u) && s.pending[c] != Adding(key, u)
    ensures Awaited(s, key, u) ==> Awaited(s', key, u)
  {
    if Awaited(s, key, u) {
      var d :| d in s.pending && (s.pending[d] == Checking(key, u) || s.pending[d] == Adding(key, u));
      assert d in s'.pending && s'.pending[d] == s.pending[d];
    }
  }

  /** A list that loses nothing still covers, if what a finished request was to add is there. */
  lemma StaysCovered(s: System, s': System, kind: Kind, key: nat, c: nat)
    requires key in s.lists.cached && key in s'.lists.cached && s'.lists.rows == s.lists.rows
    requires AlmostCovers(s, kind, key)
    requires forall u :: u in Unwrap(s.lists.cached[key]) ==> u in Unwrap(s'.lists.cached[key])
    requires forall d :: d in s.pending && d != c ==> d in s'.pending && s'.pending[d] == s.pending[d]
    requires forall u :: c in s.pending && (s.pending[c] == Checking(key, u) || s.pending[c] == Adding(key, u)) ==>
               u in Unwrap(s'.lists.cached[key]) || Awaited(s', key, u)
    ensures AlmostCovers(s', kind, key)
  {
    forall u | u in Take(Sorted(s'.lists.rows, key), kind.cap)
      ensures u in Unwrap(s'.lists.cached[key]) || Awaited(s', key, u)
    {
      if c !in s.pending || (s.pending[c] != Checking(key, u) && s.pending[c] != Adding(key, u)) {
        StillAwaited(s, s', key, u, c);
      }
    }
  }

  /** EXISTS: a list that is there is going to get the id, and one that is not there needs none. */
  lemma CheckTidy(s: System, kind: Kind, c: nat)
    requires Tidy(s, kind) && c in s.pending && s.pending[c].Checking?
    ensures Tidy(Finish(s, kind, c), kind)
  {
    var s' := Finish(s, kind, c);
    FinishSound(s, kind, c);
    var key, id := s.pending[c].key, s.pending[c].id;
    assert key in s.lists.cached ==> s'.pending[c] == Adding(key, id);
    forall k | k in s'.lists.cached ensures AlmostCovers(s', kind, k) {
      assert AlmostCovers(s, kind, k);
      StaysCovered(s, s', kind, k, c);
    }
  }

  /** ZADD: the id is in the list from now on. */
  lemma AddTidy(s: System, kind: Kind, c: nat)
    requires Tidy(s, kind) && c in s.pending && s.pending[c].Adding?
    ensures Tidy(Finish(s, kind, c), kind)
  {
    var s' := Finish(s, kind, c);
    FinishSound(s, kind, c);
    assert TidyPending(s.lists, kind, s.pending[c]);
    forall k | k in s'.lists.cached ensures AlmostCovers(s', kind, k) {
      AddCovers(s, kind, c, k);
    }
    forall d | d in s'.pending ensures TidyPending(s'.lists, kind, s'.pending[d]) {
      assert d in s.pending ==> TidyPending(s.lists, kind, s.pending[d]);
    }
  }

  lemma AddCovers(s: System, kind: Kind, c: nat, k: nat)
    requires Tidy(s, kind) && c in s.pending && s.pending[c].Adding? && k in s.lists.cached
    ensures AlmostCovers(Finish(s, kind, c), kind, k)
  {
    var key, id := s.pending[c].key, s.pending[c].id;
    assert SoundPending(s.lists.rows, s.pending[c]) && TidyPending(s.lists, kind, s.pending[c]);
    assert AlmostCovers(s, kind, k);
    AddedSound(s.lists.rows, s.lists.cached[key], key, kind, id);
    StaysCovered(s, Finish(s, kind, c), kind, k, c);
  }

  /** The write of a load brings the newest ids; it deletes a list only if there are none to be added. */
  lemma LoadTidy(s: System, kind: Kind, c: nat)
    requires Tidy(s, kind) && kind.cap > 0 && c in s.pending && s.pending[c].Loading?
    ensures Tidy(Finish(s, kind, c), kind)
  {
    var s' := Finish(s, kind, c);
    FinishSound(s, kind, c);
    LoadCovers(s, kind, c);
    forall k | k in s'.lists.cached ensures AlmostCovers(s', kind, k) {
      if k != s.pending[c].key {
        OtherStaysCovered(s, kind, c, k);
      }
    }
    forall d | d in s'.pending ensures TidyPending(s'.lists, kind, s'.pending[d]) {
      assert TidyPending(s.lists, kind, s.pending[d]);
    }
  }

  lemma OtherStaysCovered(s: System, kind: Kind, c: nat, k: nat)
    requires Tidy(s, kind) && c in s.pending && s.pending[c].Loading? && k != s.pending[c].key && k in s.lists.cached
    ensures AlmostCovers(Finish(s, kind, c), kind, k)
  {
    assert AlmostCovers(s, kind, k);
    StaysCovered(s, Finish(s, kind, c), kind, k, c);
  }

  lemma LoadCovers(s: System, kind: Kind, c: nat)
    requires Tidy(s, kind) && kind.cap > 0 && c in s.pending && s.pending[c].Loading?
    ensures var s', key := Finish(s, kind, c), s.pending[c].key;
            && (key in s'.lists.cached ==> AlmostCovers(s', kind, key))
            && (key !in s'.lists.cached ==>
                  forall d :: d in s.pending && s.pending[d].Adding? ==> s.pending[d].key != key)
  {
    assert TidyPending(s.lists, kind, s.pending[c]);
    var key, ids := s.pending[c].key, s.pending[c].ids;
    LoadIsTop(s.lists.rows, key, kind.cap);
    SortedIs(s.lists.rows, key);
    if ids != [] {
      assert SoundPending(s.lists.rows, s.pending[c]);
      LoadedSound(s.lists.rows, kind, key, ids);
    } else {
      NothingToAdd(s, kind, key);
    }
  }

  lemma NothingToAdd(s: System, kind: Kind, key: nat)
    requires Sound(s, kind) && Sorted(s.lists.rows, key) == []
    ensures forall c :: c in s.pending && s.pending[c].Adding? ==> s.pending[c].key != key
  {
    SortedIs(s.lists.rows, key);
    forall c | c in s.pending && s.pending[c].Adding? ensures s.pending[c].key != key {
      assert SoundPending(s.lists.rows, s.pending[c]);
    }
  }

  lemma QueryTidy(s: System, kind: Kind, c: nat, key: nat)
    requires Tidy(s, kind) && c !in s.pending
    ensures Tidy(SplitStep(s, kind, Query(c, key)), kind)
  {
    var s' := SplitStep(s, kind, Query(c, key));
    StepSound(s, kind, Query(c, key));
    forall k | k in s'.lists.cached ensures AlmostCovers(s', kind, k) {
      assert AlmostCovers(s, kind, k);
      StaysCovered(s, s', kind, k, c);
    }
  }

  lemma ExpireTidy(s: System, kind: Kind, key: nat)
    requires Tidy(s, kind) && !AboutToAdd(s, key)
    ensures Tidy(SplitStep(s, kind, Expire(key)), kind)
  {
    var s' := SplitStep(s, kind, Expire(key));
    forall k | k in s'.lists.cached ensures AlmostCovers(s', kind, k) {
      assert AlmostCovers(s, kind, k);
      assert forall u :: Awaited(s, k, u) ==> Awaited(s', k, u);
    }
    forall d | d in s'.pending ensures TidyPending(s'.lists, kind, s'.pending[d]) {
      assert d in s.pending ==> TidyPending(s.lists, kind, s.pending[d]);
    }
  }

  lemma StepTidy(s: System, kind: Kind, e: SplitEvent)
    requires Tidy(s, kind) && kind.cap > 0 && Undisturbed(s, e)
    ensures Tidy(SplitStep(s, kind, e), kind)
  {
    match e
    case InsertRow(c, key, id) => InsertTidy(s, kind, c, key, id);
    case Query(c, key) => QueryTidy(s, kind, c, key);
    case Next(c) =>
      if c in s.pending {
        match s.pending[c] {
          case Checking(_, _) => CheckTidy(s, kind, c);
          case Adding(_, _) => AddTidy(s, kind, c);
          case Loading(_, _) => LoadTidy(s, kind, c);
        }
      }
    case Expire(key) => ExpireTidy(s, kind, key);
  }

  lemma {:induction false} RunTidy(s: System, kind: Kind, es: seq<SplitEvent>)
    requires Tidy(s, kind) && kind.cap > 0 && UndisturbedRun(s, kind, es)
    ensures Tidy(SplitRun(s, kind, es), kind)
    decreases es
  {
    if es != [] {
      StepTidy(s, kind, es[0]);
      RunTidy(SplitStep(s, kind, es[0]), kind, es[1..]);
    }
  }

  lemma SoundHasIds(rows: seq<Listing>, z: LexSet, key: nat, kind: Kind)
    requires SoundList(rows, z, key, kind) && z != [Empty]
    ensures KeyIds(rows, key) != []
  {
    assert Unwrap(z)[0] in Unwrap(z);
  }

  /** With no creation of the key under way, its list is as the atomic operations keep it. */
  lemma TidyListOk(s: System, kind: Kind, key: nat)
    requires Tidy(s, kind) && kind.cap > 0 && key in s.lists.cached && forall u :: !Awaited(s, key, u)
    ensures ListOk(s.lists.rows, s.lists.cached[key], key, kind)
  {
    var top, z := Take(Sorted(s.lists.rows, key), kind.cap), s.lists.cached[key];
    SortedIs(s.lists.rows, key);
    UnwrapMarker();
    assert AlmostCovers(s, kind, key) && SoundList(s.lists.rows, z, key, kind);
    if z != [Empty] {
      SoundHasIds(s.lists.rows, z, key, kind);
    }
    if KeyIds(s.lists.rows, key) != [] {
      assert KeyIds(s.lists.rows, key)[0] in Sorted(s.lists.rows, key);
      assert top[0] in top && top[0] in Unwrap(z);
    }
  }

  /**
   Creations, loads and expiries step by step, from a cache without lists: after an undisturbed run,
   and once no creation of the key is under way, each page within what a load brings is that of
   the database.
   */
  lemma UndisturbedRefines(
    rows: seq<Listing>, kind: Kind, es: seq<SplitEvent>, key: nat, limit: nat, cursor: Option<Uuid>)
    requires kind.cap > 0
    requires var start := System(Lists(rows, map[]), map[]);
             UndisturbedRun(start, kind, es) && forall u :: !Awaited(SplitRun(start, kind, es), key, u)
    ensures var l := SplitRun(System(Lists(rows, map[]), map[]), kind, es).lists;
            && (key in l.cached ==> ListOk(l.rows, l.cached[key], key, kind))
            && (WithinCap(l.rows, kind, key, limit, cursor) ==>
                  ReadPage(l, kind, key, limit, cursor) == DbIds(l.rows, key, limit, cursor))
  {
    var start := System(Lists(rows, map[]), map[]);
    RunTidy(start, kind, es);
    var s := SplitRun(start, kind, es);
    var only: map<nat, LexSet> := map[];
    if key in s.lists.cached {
      TidyListOk(s, kind, key);
      only := map[key := s.lists.cached[key]];
    }
    if WithinCap(s.lists.rows, kind, key, limit, cursor) {
      PageAgrees(s.lists.(cached := only), kind, key, limit, cursor);
    }
  }
}
