/**
 What the pages of the cached lists and of the comments are, in terms of rows and ids.
 */
module ListMeaning {
  import opened Wrappers
  import opened Uuid
  import opened SortedSeq
  import opened ColumnCache
  import opened ListCache

  lemma {:induction false} KeyIdsIff(rows: seq<Listing>, key: nat)
    ensures forall u :: u in KeyIds(rows, key) <==> Listing(key, u) in rows
    decreases rows
  {
    if rows != [] {
      KeyIdsIff(rows[1..], key);
      assert rows == [rows[0]] + rows[1..];
      assert rows[0] == Listing(rows[0].key, rows[0].id);
    }
  }

  ghost function PlacesOf(rows: seq<Listing>, key: nat): set<nat> {
    set i: nat | i < |rows| && rows[i].key == key
  }

  /** How many rows the key has. */
  ghost function Count(rows: seq<Listing>, key: nat): nat {
    |PlacesOf(rows, key)|
  }

  lemma {:induction false} KeyIdsCount(rows: seq<Listing>, key: nat)
    ensures |KeyIds(rows, key)| == Count(rows, key)
    decreases |rows|
  {
    if rows == [] {
      assert PlacesOf(rows, key) == {};
    } else {
      var n := |rows| - 1;
      KeyIdsCount(rows[..n], key);
      KeyIdsAdd(rows[..n], rows[n], key);
      assert rows == rows[..n] + [rows[n]];
      PlacesAdd(rows[..n], rows[n], key);
    }
  }

  lemma PlacesAdd(rows: seq<Listing>, row: Listing, key: nat)
    ensures |PlacesOf(rows + [row], key)| == |PlacesOf(rows, key)| + (if row.key == key then 1 else 0)
  {
    var front, all := PlacesOf(rows, key), PlacesOf(rows + [row], key);
    forall i: nat ensures i in all <==> i in front || (i == |rows| && row.key == key) {
    }
    if row.key == key {
      assert all == front + {|rows|};
    } else {
      assert all == front;
    }
  }

  /** `ids` are the greatest of the key's ids below the cursor, at most `limit`, in descending order. */
  ghost predicate IsIdPage(ids: seq<Uuid>, rows: seq<Listing>, key: nat, limit: nat, cursor: Option<Uuid>) {
    && |ids| <= limit
    && (forall i, j :: 0 <= i < j < |ids| ==> Less(ids[j], ids[i]))
    && (forall u :: u in ids ==> Listing(key, u) in rows && (cursor.Some? ==> Less(u, cursor.value)))
    && (forall u :: Listing(key, u) in rows && (cursor.Some? ==> Less(u, cursor.value)) && u !in ids ==>
          |ids| == limit && forall v :: v in ids ==> Less(u, v))
  }

  lemma DbIdsMean(rows: seq<Listing>, key: nat, limit: nat, cursor: Option<Uuid>)
    ensures IsIdPage(DbIds(rows, key, limit, cursor), rows, key, limit, cursor)
  {
    var below := Filter(Under(cursor), Sorted(rows, key));
    SortedIs(rows, key);
    KeyIdsIff(rows, key);
    FilterMembers(Under(cursor), Sorted(rows, key));
    FilterDescending(Less, Under(cursor), Sorted(rows, key));
    TopMeans(below, limit);
  }

  /** The first ids of a list. */
  lemma TopMeans(below: seq<Uuid>, limit: nat)
    requires Descending(Less, below)
    ensures var ids := Take(below, limit);
            && |ids| <= limit && Descending(Less, ids) && (forall u :: u in ids ==> u in below)
            && forall u :: u in below && u !in ids ==> |ids| == limit && forall v :: v in ids ==> Less(u, v)
  {
    forall u | u in below && u !in Take(below, limit)
      ensures |Take(below, limit)| == limit && forall v :: v in Take(below, limit) ==> Less(u, v)
    {
      TakeIsTop(Less, below, limit, u);
    }
  }

  /** The last id of a full page is the next cursor. */
  ghost predicate IsNextId(next: Option<Uuid>, page: seq<Uuid>, limit: nat) {
    if |page| == limit && limit > 0 then next == Some(page[limit - 1]) else next == None
  }

  /**
   The cached list after a load: the newest `cap` ids, in order; with none, the marker in the lists
   that have one, and no list in the others.
   */
  ghost predicate IsLoaded(cached: map<nat, LexSet>, rows: seq<Listing>, kind: Kind, key: nat) {
    if exists r :: r in rows && r.key == key then
      key in cached &&
      exists ids: seq<Uuid> ::
        && |cached[key]| == |ids| && (forall i :: 0 <= i < |ids| ==> cached[key][i] == Id(ids[i]))
        && IsIdPage(ids, rows, key, kind.cap, None)
    else if kind.marked then key in cached && cached[key] == [Empty]
    else key !in cached
  }

  lemma LoadMeans(rows: seq<Listing>, cached: map<nat, LexSet>, kind: Kind, key: nat)
    requires kind.cap > 0
    ensures var cached' := Load(cached, kind, key, DbIds(rows, key, kind.cap, None));
            && IsLoaded(cached', rows, kind, key)
            && forall k :: k != key ==> (k in cached' <==> k in cached) && (k in cached ==> cached'[k] == cached[k])
  {
    var ids := DbIds(rows, key, kind.cap, None);
    DbIdsMean(rows, key, kind.cap, None);
    if ids != [] {
      IdPageHas(ids, rows, key, kind.cap, None);
    }
    if r :| r in rows && r.key == key {
      assert r == Listing(key, r.id);
      IdOrder();
      SortWrap(ids);
      SortSorted(Less, ids);
    }
  }

  lemma IdPageHas(ids: seq<Uuid>, rows: seq<Listing>, key: nat, limit: nat, cursor: Option<Uuid>)
    requires IsIdPage(ids, rows, key, limit, cursor) && ids != []
    ensures exists r :: r in rows && r.key == key
  {
    assert ids[0] in ids && Listing(key, ids[0]) in rows;
  }

  /** A key with no more rows than a load brings. */
  lemma ServedPageMeans(l: Lists, kind: Kind, key: nat, limit: nat, cursor: Option<Uuid>)
    requires ListsOk(l, kind) && Count(l.rows, key) <= kind.cap
    ensures IsIdPage(ReadPage(l, kind, key, limit, cursor), l.rows, key, limit, cursor)
  {
    KeyIdsCount(l.rows, key);
    SmallIsWithinCap(l.rows, kind, key, limit, cursor);
    PageAgrees(l, kind, key, limit, cursor);
    DbIdsMean(l.rows, key, limit, cursor);
  }

  lemma {:induction false} RowsOfRun(l: Lists, kind: Kind, es: seq<Event>)
    ensures forall r :: r in Run(l, kind, es).rows <==> r in l.rows || Created(r.key, r.id) in es
    decreases es
  {
    if es != [] {
      RowsOfRun(Step(l, kind, es[0]), kind, es[1..]);
      assert es == [es[0]] + es[1..];
      forall r ensures r in Step(l, kind, es[0]).rows <==> r in l.rows || Created(r.key, r.id) == es[0] {
        assert r == Listing(r.key, r.id);
      }
    }
  }

  /**
   The owned and joined workspaces of a user with at most ten thousand, after any run of creations,
   reads and expiries: each page is that of the rows that were there or were created.
   */
  lemma WorkspacePages(rows: seq<Listing>, es: seq<Event>, user: nat, limit: nat, cursor: Option<Uuid>)
    requires Count(Run(Lists(rows, map[]), WORKSPACES, es).rows, user) <= 10000
    ensures var l := Run(Lists(rows, map[]), WORKSPACES, es);
            && IsIdPage(ReadPage(l, WORKSPACES, user, limit, cursor), l.rows, user, limit, cursor)
            && (forall r :: r in l.rows <==> r in rows || Created(r.key, r.id) in es)
            && (user in l.cached ==>
                  (l.cached[user] == [Empty] <==> forall r :: r in l.rows ==> r.key != user))
  {
    var l := Run(Lists(rows, map[]), WORKSPACES, es);
    RunKeeps(Lists(rows, map[]), WORKSPACES, es);
    ServedPageMeans(l, WORKSPACES, user, limit, cursor);
    RowsOfRun(Lists(rows, map[]), WORKSPACES, es);
    if user in l.cached {
      KeyIdsCount(l.rows, user);
      ListIsDatabase(l, WORKSPACES, user);
      NoIdsIff(l.rows, user);
    }
  }

  lemma NoIdsIff(rows: seq<Listing>, key: nat)
    ensures KeyIds(rows, key) == [] <==> forall r :: r in rows ==> r.key != key
  {
    KeyIdsIff(rows, key);
    if KeyIds(rows, key) != [] {
      assert Listing(key, KeyIds(rows, key)[0]) in rows;
    }
    if r :| r in rows && r.key == key {
      assert Listing(key, r.id) in rows;
    }
  }

  /** The projects of a workspace with at most a thousand; their lists never hold the marker. */
  lemma ProjectPages(rows: seq<Listing>, es: seq<Event>, workspace: nat, limit: nat, cursor: Option<Uuid>)
    requires Count(Run(Lists(rows, map[]), PROJECTS, es).rows, workspace) <= 1000
    ensures var l := Run(Lists(rows, map[]), PROJECTS, es);
            && IsIdPage(ReadPage(l, PROJECTS, workspace, limit, cursor), l.rows, workspace, limit, cursor)
            && (forall r :: r in l.rows <==> r in rows || Created(r.key, r.id) in es)
            && (workspace in l.cached ==> Empty !in l.cached[workspace])
  {
    var l := Run(Lists(rows, map[]), PROJECTS, es);
    RunKeeps(Lists(rows, map[]), PROJECTS, es);
    ServedPageMeans(l, PROJECTS, workspace, limit, cursor);
    RowsOfRun(Lists(rows, map[]), PROJECTS, es);
    if workspace in l.cached {
      KeyIdsCount(l.rows, workspace);
      ListIsDatabase(l, PROJECTS, workspace);
    }
  }

  /** Neither bound is larger than what a load brings. */
  lemma CapsAre()
    ensures WORKSPACES.cap == 10000 && WORKSPACES.marked && PROJECTS.cap == 1000 && !PROJECTS.marked
  {
  }

  /** ZREM of the marker and ZADD: the list has its ids and the new one, in order, and no marker. */
  lemma AddedMeans(z: LexSet, ids: seq<Uuid>, id: Uuid, kind: Kind)
    requires Descending(Less, ids) && (z == Wrap(ids) || (kind.marked && ids == [] && z == [Empty]))
    ensures var z' := Added(z, id, kind);
            && (forall m :: m in z' <==> m == Id(id) || exists u :: u in ids && m == Id(u))
            && (forall i, j :: 0 <= i < j < |z'| ==> z'[i].Id? && z'[j].Id? && Less(z'[j].id, z'[i].id))
  {
    var all := Insert(Less, ids, id);
    var none: LexSet := [];
    IdOrder();
    InsertMembers(Less, ids, id);
    InsertDescending(Less, ids, id);
    InsertWrap(ids, id);
    if z == [Empty] {
      FilterNone((m: Member) => m != Empty, z);
      assert Wrap([]) == none;
    } else {
      WrapHasNoMarker(ids);
    }
    assert Added(z, id, kind) == Wrap(all);
    forall m ensures m in Wrap(all) <==> m == Id(id) || exists u :: u in ids && m == Id(u) {
      if m in Wrap(all) {
        var i :| 0 <= i < |Wrap(all)| && Wrap(all)[i] == m;
        assert all[i] in all;
      }
      WrapMembers(all);
    }
  }
}
