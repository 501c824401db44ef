/**
 The cached id lists: the workspaces a user owns, the workspaces a user has joined, and the
 projects of a workspace.  Each is a sorted set with equal scores, so ordered by member, that
 stands in for a database query `id < cursor ORDER BY id DESC LIMIT n`.  The three copies
 differ in how much a load brings and in whether an empty list is marked.
 */
module ListCache {
  import opened Wrappers
  import opened Uuid
  import opened SortedSeq
  import opened ColumnCache

  /** A load brings at most `cap` ids; `marked` lists hold `__empty__` when there are none. */
  datatype Kind = Kind(cap: nat, marked: bool)

  const WORKSPACES := Kind(10000, true)
  const PROJECTS := Kind(1000, false)

  /** A row of the table: an id that belongs to a user or to a workspace, the `key`. */
  datatype Listing = Listing(key: nat, id: Uuid)

  lemma IdOrder()
    ensures StrictTotal(Less)
  {
  }

  /******* The query *******/

  function KeyIds(rows: seq<Listing>, key: nat): seq<Uuid> {
    if rows == [] then [] else (if rows[0].key == key then [rows[0].id] else []) + KeyIds(rows[1..], key)
  }

  function Sorted(rows: seq<Listing>, key: nat): seq<Uuid> {
    SortDesc(Less, KeyIds(rows, key))
  }

  predicate Before(u: Uuid, cursor: Option<Uuid>) {
    cursor.Some? ==> Less(u, cursor.value)
  }

  function Under(cursor: Option<Uuid>): Uuid -> bool {
    (u: Uuid) => Before(u, cursor)
  }

  /** `WHERE key = $1 [AND id < cursor] ORDER BY id DESC LIMIT limit` */
  function DbIds(rows: seq<Listing>, key: nat, limit: nat, cursor: Option<Uuid>): seq<Uuid> {
    Take(Filter(Under(cursor), Sorted(rows, key)), limit)
  }

  lemma SortedIs(rows: seq<Listing>, key: nat)
    ensures Descending(Less, Sorted(rows, key))
    ensures forall u :: u in Sorted(rows, key) <==> u in KeyIds(rows, key)
  {
    IdOrder();
    SortMembers(Less, KeyIds(rows, key));
    SortDescending(Less, KeyIds(rows, key));
  }

  lemma {:induction false} SortSize<A>(less: (A, A) -> bool, xs: seq<A>)
    ensures |SortDesc(less, xs)| <= |xs|
    decreases xs
  {
    if xs != [] {
      SortSize(less, xs[1..]);
      InsertMembers(less, SortDesc(less, xs[1..]), xs[0]);
    }
  }

  lemma {:induction false} KeyIdsAdd(rows: seq<Listing>, row: Listing, key: nat)
    ensures KeyIds(rows + [row], key) == KeyIds(rows, key) + (if row.key == key then [row.id] else [])
    decreases rows
  {
    var all, one := rows + [row], if row.key == key then [row.id] else [];
    if rows == [] {
      assert all == [row] && all[1..] == [];
    } else {
      var rest := KeyIds(rows[1..], key);
      KeyIdsAdd(rows[1..], row, key);
      assert all[1..] == rows[1..] + [row] && all[0] == rows[0];
      assert KeyIds(all[1..], key) == rest + one;
      var first := if rows[0].key == key then [rows[0].id] else [];
      assert first + (rest + one) == first + rest + one;
    }
  }

  /******* Sorted sets of ids *******/

  /** Members with equal scores, largest first. */
  type LexSet = seq<Member>

  function Wrap(ids: seq<Uuid>): (z: LexSet)
    ensures |z| == |ids| && forall i :: 0 <= i < |ids| ==> z[i] == Id(ids[i])
  {
    if ids == [] then [] else [Id(ids[0])] + Wrap(ids[1..])
  }

  function Unwrap(z: LexSet): seq<Uuid> {
    if z == [] then [] else (if z[0].Id? then [z[0].id] else []) + Unwrap(z[1..])
  }

  function LexUnder(cursor: Option<Uuid>): Member -> bool {
    (m: Member) => cursor.Some? ==> MemberLess(m, Id(cursor.value))
  }

  /** ZREVRANGEBYLEX with an exclusive upper bound and a count, without the marker. */
  function LexPage(z: LexSet, limit: nat, cursor: Option<Uuid>): seq<Uuid> {
    Unwrap(Take(Filter(LexUnder(cursor), z), limit))
  }

  lemma {:induction false} UnwrapWrap(ids: seq<Uuid>)
    ensures Unwrap(Wrap(ids)) == ids
    decreases ids
  {
    if ids != [] {
      UnwrapWrap(ids[1..]);
      assert Wrap(ids)[1..] == Wrap(ids[1..]);
    }
  }

  lemma {:induction false} InsertWrap(ids: seq<Uuid>, u: Uuid)
    ensures Insert(MemberLess, Wrap(ids), Id(u)) == Wrap(Insert(Less, ids, u))
    decreases ids
  {
    if ids != [] && ids[0] != u && !Less(ids[0], u) {
      InsertWrap(ids[1..], u);
      assert Wrap(ids)[1..] == Wrap(ids[1..]);
      assert Wrap([ids[0]] + Insert(Less, ids[1..], u)) == [Id(ids[0])] + Wrap(Insert(Less, ids[1..], u));
    } else {
      assert Wrap([u] + ids) == [Id(u)] + Wrap(ids);
    }
  }

  lemma {:induction false} SortWrap(ids: seq<Uuid>)
    ensures SortDesc(MemberLess, Wrap(ids)) == Wrap(SortDesc(Less, ids))
    decreases ids
  {
    if ids != [] {
      SortWrap(ids[1..]);
      assert Wrap(ids)[1..] == Wrap(ids[1..]);
      InsertWrap(SortDesc(Less, ids[1..]), ids[0]);
    }
  }

  lemma {:induction false} FilterWrap(ids: seq<Uuid>, cursor: Option<Uuid>)
    ensures Filter(LexUnder(cursor), Wrap(ids)) == Wrap(Filter(Under(cursor), ids))
    decreases ids
  {
    if ids != [] {
      FilterWrap(ids[1..], cursor);
      assert Wrap(ids)[1..] == Wrap(ids[1..]);
      var rest := Filter(Under(cursor), ids[1..]);
      assert Wrap([ids[0]] + rest) == [Id(ids[0])] + Wrap(rest);
    }
  }

  /** On ids, the page of the sorted set is the page of the list. */
  lemma LexPageWrap(ids: seq<Uuid>, limit: nat, cursor: Option<Uuid>)
    ensures LexPage(Wrap(ids), limit, cursor) == Take(Filter(Under(cursor), ids), limit)
  {
    FilterWrap(ids, cursor);
    var fs := Filter(Under(cursor), ids);
    assert Take(Wrap(fs), limit) == Wrap(Take(fs, limit));
    UnwrapWrap(Take(fs, limit));
  }

  lemma MarkerPage(limit: nat, cursor: Option<Uuid>)
    ensures LexPage([Empty], limit, cursor) == []
  {
    var z: LexSet := [Empty];
    var none: LexSet := [];
    assert z[1..] == none && Filter(LexUnder(cursor), none) == none;
    assert Filter(LexUnder(cursor), z) == z || Filter(LexUnder(cursor), z) == none;
    assert Unwrap(none) == [] && Unwrap(z) == [];
    assert Take(z, limit) == z || Take(z, limit) == none;
  }

  /******* States and atomic operations *******/

  datatype Lists = Lists(rows: seq<Listing>, cached: map<nat, LexSet>)

  /** ZREM of the marker and ZADD. */
  function Added(z: LexSet, id: Uuid, kind: Kind): LexSet {
    Insert(MemberLess, if kind.marked then Filter((m: Member) => m != Empty, z) else z, Id(id))
  }

  /** The row is inserted, and its id goes into a list that is cached. */
  function Create(l: Lists, kind: Kind, key: nat, id: Uuid): Lists {
    Lists(l.rows + [Listing(key, id)],
          if key in l.cached then l.cached[key := Added(l.cached[key], id, kind)] else l.cached)
  }

  function Load(cached: map<nat, LexSet>, kind: Kind, key: nat, ids: seq<Uuid>): map<nat, LexSet> {
    if ids != [] then cached[key := SortDesc(MemberLess, Wrap(ids))]
    else if kind.marked then cached[key := [Empty]]
    else cached - {key}
  }

  /** Reading loads a list that is not cached. */
  function AfterRead(l: Lists, kind: Kind, key: nat): Lists {
    if key in l.cached then l else l.(cached := Load(l.cached, kind, key, DbIds(l.rows, key, kind.cap, None)))
  }

  /** The page that is returned: cut from the cached list, or from what was just loaded. */
  function ReadPage(l: Lists, kind: Kind, key: nat, limit: nat, cursor: Option<Uuid>): seq<Uuid> {
    if key in l.cached then LexPage(l.cached[key], limit, cursor)
    else Take(Filter(Under(cursor), DbIds(l.rows, key, kind.cap, None)), limit)
  }

  datatype Event = Created(key: nat, id: Uuid) | Read(key: nat) | Expired(key: nat)

  function Step(l: Lists, kind: Kind, e: Event): Lists {
    match e
    case Created(key, id) => Create(l, kind, key, id)
    case Read(key) => AfterRead(l, kind, key)
    case Expired(key) => l.(cached := l.cached - {key})
  }

  function Run(l: Lists, kind: Kind, es: seq<Event>): Lists
    decreases es
  {
    if es == [] then l else Run(Step(l, kind, es[0]), kind, es[1..])
  }

  /******* The invariant *******/

  /** `ids` are ids of the key, and the newest `cap` of them are among them. */
  ghost predicate Covers(ids: seq<Uuid>, rows: seq<Listing>, key: nat, cap: nat) {
    && Descending(Less, ids)
    && (forall u :: u in ids ==> u in Sorted(rows, key))
    && (forall u :: u in Take(Sorted(rows, key), cap) ==> u in ids)
  }

  ghost predicate ListOk(rows: seq<Listing>, z: LexSet, key: nat, kind: Kind) {
    if KeyIds(rows, key) == [] then kind.marked && z == [Empty]
    else z == Wrap(Unwrap(z)) && Covers(Unwrap(z), rows, key, kind.cap)
  }

  ghost predicate ListsOk(l: Lists, kind: Kind) {
    forall key :: key in l.cached ==> ListOk(l.rows, l.cached[key], key, kind)
  }

  lemma NoFilterUnder(ids: seq<Uuid>)
    ensures Filter(Under(None), ids) == ids
  {
    FilterAll(Under(None), ids);
  }

  /** A load without a cursor brings the newest `cap` ids. */
  lemma LoadIsTop(rows: seq<Listing>, key: nat, cap: nat)
    ensures DbIds(rows, key, cap, None) == Take(Sorted(rows, key), cap)
  {
    NoFilterUnder(Sorted(rows, key));
  }

  lemma WrapHasNoMarker(ids: seq<Uuid>)
    ensures Filter((m: Member) => m != Empty, Wrap(ids)) == Wrap(ids)
  {
    FilterAll((m: Member) => m != Empty, Wrap(ids));
  }

  lemma CoversInsert(ids: seq<Uuid>, rows: seq<Listing>, key: nat, cap: nat, id: Uuid)
    requires Covers(ids, rows, key, cap)
    ensures Covers(Insert(Less, ids, id), rows + [Listing(key, id)], key, cap)
  {
    IdOrder();
    KeyIdsAdd(rows, Listing(key, id), key);
    InsertIsSort(Less, Sorted(rows, key), KeyIds(rows, key), id);
    SortedIs(rows, key);
    InsertMembers(Less, ids, id);
    InsertDescending(Less, ids, id);
    InsertMembers(Less, Sorted(rows, key), id);
    PruneInsert(Less, Sorted(rows, key), id, cap);
    InsertMembers(Less, Take(Sorted(rows, key), cap), id);
    forall u | u in Take(Sorted(rows + [Listing(key, id)], key), cap) ensures u in Insert(Less, ids, id) {
      assert u in Insert(Less, Take(Sorted(rows, key), cap), id);
    }
  }

  lemma AddedOk(rows: seq<Listing>, z: LexSet, key: nat, kind: Kind, id: Uuid)
    requires ListOk(rows, z, key, kind)
    ensures ListOk(rows + [Listing(key, id)], Added(z, id, kind), key, kind)
  {
    IdOrder();
    KeyIdsAdd(rows, Listing(key, id), key);
    var ids: seq<Uuid> := if KeyIds(rows, key) == [] then [] else Unwrap(z);
    if KeyIds(rows, key) == [] {
      FilterNone((m: Member) => m != Empty, z);
      assert Wrap(ids) == [];
      assert Sorted(rows, key) == [];
    } else {
      WrapHasNoMarker(ids);
    }
    assert Added(z, id, kind) == Insert(MemberLess, Wrap(ids), Id(id));
    InsertWrap(ids, id);
    UnwrapWrap(Insert(Less, ids, id));
    CoversInsert(ids, rows, key, kind.cap, id);
  }

  lemma CreateKeeps(l: Lists, kind: Kind, key: nat, id: Uuid)
    requires ListsOk(l, kind)
    ensures ListsOk(Create(l, kind, key, id), kind)
  {
    var l' := Create(l, kind, key, id);
    forall k | k in l'.cached ensures ListOk(l'.rows, l'.cached[k], k, kind) {
      KeyIdsAdd(l.rows, Listing(key, id), k);
      if k == key {
        AddedOk(l.rows, l.cached[k], k, kind, id);
      } else {
        assert KeyIds(l'.rows, k) == KeyIds(l.rows, k);
      }
    }
  }

  lemma LoadOk(rows: seq<Listing>, cached: map<nat, LexSet>, kind: Kind, key: nat)
    requires kind.cap > 0
    ensures var cached' := Load(cached, kind, key, DbIds(rows, key, kind.cap, None));
            && (key in cached' ==> ListOk(rows, cached'[key], key, kind))
            && (key in cached' <==> kind.marked || KeyIds(rows, key) != [])
  {
    IdOrder();
    SortedIs(rows, key);
    LoadIsTop(rows, key, kind.cap);
    var top := Take(Sorted(rows, key), kind.cap);
    if KeyIds(rows, key) != [] {
      assert KeyIds(rows, key)[0] in Sorted(rows, key);
      SortWrap(top);
      SortSorted(Less, top);
      UnwrapWrap(top);
    } else {
      assert Sorted(rows, key) == [];
    }
  }

  lemma ReadKeeps(l: Lists, kind: Kind, key: nat)
    requires ListsOk(l, kind) && kind.cap > 0
    ensures ListsOk(AfterRead(l, kind, key), kind)
  {
    LoadOk(l.rows, l.cached, kind, key);
  }

  lemma StepKeeps(l: Lists, kind: Kind, e: Event)
    requires ListsOk(l, kind) && kind.cap > 0
    ensures ListsOk(Step(l, kind, e), kind)
  {
    match e
    case Created(key, id) => CreateKeeps(l, kind, key, id);
    case Read(key) => ReadKeeps(l, kind, key);
    case Expired(_) =>
  }

  lemma {:induction false} RunKeeps(l: Lists, kind: Kind, es: seq<Event>)
    requires ListsOk(l, kind) && kind.cap > 0
    ensures ListsOk(Run(l, kind, es), kind)
    decreases es
  {
    if es != [] {
      StepKeeps(l, kind, es[0]);
      RunKeeps(Step(l, kind, es[0]), kind, es[1..]);
    }
  }

  /** Up to the load cap, a cached list is the id set of the database, and the marker means none. */
  lemma ListIsDatabase(l: Lists, kind: Kind, key: nat)
    requires ListsOk(l, kind) && key in l.cached && |KeyIds(l.rows, key)| <= kind.cap
    ensures Unwrap(l.cached[key]) == Sorted(l.rows, key)
    ensures l.cached[key] == [Empty] <==> KeyIds(l.rows, key) == []
    ensures Empty in l.cached[key] ==> kind.marked && l.cached[key] == [Empty]
  {
    IdOrder();
    SortedIs(l.rows, key);
    SortSize(Less, KeyIds(l.rows, key));
    if KeyIds(l.rows, key) == [] {
      var none: LexSet := [];
      assert l.cached[key][1..] == none && Unwrap(none) == [];
    } else {
      assert Take(Sorted(l.rows, key), kind.cap) == Sorted(l.rows, key);
      DescendingUnique(Less, Unwrap(l.cached[key]), Sorted(l.rows, key));
      assert l.cached[key][0].Id? by {
        assert KeyIds(l.rows, key)[0] in Sorted(l.rows, key);
      }
    }
  }

  /** The page of the database lies within what a load brings. */
  ghost predicate WithinCap(rows: seq<Listing>, kind: Kind, key: nat, limit: nat, cursor: Option<Uuid>) {
    forall u :: u in DbIds(rows, key, limit, cursor) ==> u in Take(Sorted(rows, key), kind.cap)
  }

  lemma SmallIsWithinCap(rows: seq<Listing>, kind: Kind, key: nat, limit: nat, cursor: Option<Uuid>)
    requires |KeyIds(rows, key)| <= kind.cap
    ensures WithinCap(rows, kind, key, limit, cursor)
  {
    SortSize(Less, KeyIds(rows, key));
    FilterMembers(Under(cursor), Sorted(rows, key));
    assert Take(Sorted(rows, key), kind.cap) == Sorted(rows, key);
  }

  /** Hit or miss, the page is that of the database query, wherever loads reach. */
  lemma PageAgrees(l: Lists, kind: Kind, key: nat, limit: nat, cursor: Option<Uuid>)
    requires ListsOk(l, kind) && WithinCap(l.rows, kind, key, limit, cursor)
    ensures ReadPage(l, kind, key, limit, cursor) == DbIds(l.rows, key, limit, cursor)
  {
    IdOrder();
    SortedIs(l.rows, key);
    var all := Sorted(l.rows, key);
    if key !in l.cached {
      LoadIsTop(l.rows, key, kind.cap);
      SubPage(Less, all, Take(all, kind.cap), Under(cursor), limit);
    } else if KeyIds(l.rows, key) == [] {
      MarkerPage(limit, cursor);
      assert Sorted(l.rows, key) == [];
    } else {
      var ids := Unwrap(l.cached[key]);
      LexPageWrap(ids, limit, cursor);
      SubPage(Less, all, ids, Under(cursor), limit);
    }
  }

  /** On a miss, no further. */
  lemma MissPageIff(l: Lists, kind: Kind, key: nat, limit: nat, cursor: Option<Uuid>)
    requires ListsOk(l, kind) && key !in l.cached
    ensures ReadPage(l, kind, key, limit, cursor) == DbIds(l.rows, key, limit, cursor)
        <==> WithinCap(l.rows, kind, key, limit, cursor)
  {
    if WithinCap(l.rows, kind, key, limit, cursor) {
      PageAgrees(l, kind, key, limit, cursor);
    } else {
      LoadIsTop(l.rows, key, kind.cap);
      FilterMembers(Under(cursor), Take(Sorted(l.rows, key), kind.cap));
      var u :| u in DbIds(l.rows, key, limit, cursor) && u !in Take(Sorted(l.rows, key), kind.cap);
      assert u !in ReadPage(l, kind, key, limit, cursor);
    }
  }

  /** On a hit, as far as the list has what the database has. */
  lemma HitPageIff(l: Lists, kind: Kind, key: nat, limit: nat, cursor: Option<Uuid>)
    requires ListsOk(l, kind) && key in l.cached
    ensures ReadPage(l, kind, key, limit, cursor) == DbIds(l.rows, key, limit, cursor)
        <==> forall u :: u in DbIds(l.rows, key, limit, cursor) ==> Id(u) in l.cached[key]
  {
    IdOrder();
    SortedIs(l.rows, key);
    assert ListOk(l.rows, l.cached[key], key, kind);
    if KeyIds(l.rows, key) == [] {
      MarkerPage(limit, cursor);
      assert Sorted(l.rows, key) == [];
    } else {
      var ids := Unwrap(l.cached[key]);
      LexPageWrap(ids, limit, cursor);
      WrapMembers(ids);
      if forall u :: u in DbIds(l.rows, key, limit, cursor) ==> Id(u) in l.cached[key] {
        SubPage(Less, Sorted(l.rows, key), ids, Under(cursor), limit);
      } else {
        FilterMembers(Under(cursor), ids);
      }
    }
  }

  lemma WrapMembers(ids: seq<Uuid>)
    ensures forall u :: Id(u) in Wrap(ids) <==> u in ids
  {
    forall u ensures Id(u) in Wrap(ids) <==> u in ids {
      if u in ids {
        var i :| 0 <= i < |ids| && ids[i] == u;
        assert Wrap(ids)[i] == Id(u);
      }
    }
  }

  /** With more ids than a load brings, the page behind the last of them is lost on a miss. */
  lemma BeyondCapDiffers(l: Lists, kind: Kind, key: nat, limit: nat)
    requires ListsOk(l, kind) && key !in l.cached && 0 < kind.cap < |Sorted(l.rows, key)| && limit > 0
    ensures var cursor := Some(Sorted(l.rows, key)[kind.cap - 1]);
            ReadPage(l, kind, key, limit, cursor) != DbIds(l.rows, key, limit, cursor)
  {
    IdOrder();
    SortedIs(l.rows, key);
    var all := Sorted(l.rows, key);
    var cursor := Some(all[kind.cap - 1]);
    FilterMembers(Under(cursor), all);
    assert all[kind.cap] in all && all[kind.cap] in Filter(Under(cursor), all);
    var page := DbIds(l.rows, key, limit, cursor);
    assert page[0] in Filter(Under(cursor), all);
    forall i | 0 <= i < kind.cap ensures all[i] != page[0] {
      assert i == kind.cap - 1 || Less(all[kind.cap - 1], all[i]);
    }
    assert page[0] in page && page[0] !in Take(all, kind.cap);
    MissPageIff(l, kind, key, limit, cursor);
  }

  /**
   The owned, joined and project lists, after any run of atomic operations from a cache without
   lists: as long as a key has no more ids than a load brings, each page is that of the database,
   a cached list is the database's id set, and only the workspace lists ever hold the marker.
   */
  lemma ListsRefineDatabase(
    rows: seq<Listing>, kind: Kind, es: seq<Event>, key: nat, limit: nat, cursor: Option<Uuid>)
    requires kind == WORKSPACES || kind == PROJECTS
    requires |KeyIds(Run(Lists(rows, map[]), kind, es).rows, key)| <= kind.cap
    ensures var l := Run(Lists(rows, map[]), kind, es);
            && ReadPage(l, kind, key, limit, cursor) == DbIds(l.rows, key, limit, cursor)
            && (key in l.cached ==>
                  && Unwrap(l.cached[key]) == Sorted(l.rows, key)
                  && (l.cached[key] == [Empty] <==> KeyIds(l.rows, key) == [])
                  && (Empty in l.cached[key] ==> kind == WORKSPACES))
  {
    var l := Run(Lists(rows, map[]), kind, es);
    RunKeeps(Lists(rows, map[]), kind, es);
    SmallIsWithinCap(l.rows, kind, key, limit, cursor);
    PageAgrees(l, kind, key, limit, cursor);
    if key in l.cached {
      ListIsDatabase(l, kind, key);
    }
  }
}
