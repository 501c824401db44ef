/**
 The cached lists as the services keep them: the cache operations that add to, read and load a
 list, and the service operations that create an entry and return a page.
 */
module ListService {
  import opened Wrappers
  import opened Uuid
  import opened SortedSeq
  import opened ColumnCache
  import opened ColumnWalk
  import opened ListCache
  import opened ListMeaning

  predicate HasRow(rows: seq<Listing>, id: Uuid) {
    exists i :: 0 <= i < |rows| && rows[i].id == id
  }

  lemma {:induction false} KeyIdHasRow(rows: seq<Listing>, key: nat, u: Uuid)
    requires u in KeyIds(rows, key)
    ensures HasRow(rows, u)
    decreases rows
  {
    if rows[0].key == key && rows[0].id == u {
      assert rows[0].id == u;
    } else {
      KeyIdHasRow(rows[1..], key, u);
      var i :| 0 <= i < |rows[1..]| && rows[1..][i].id == u;
      assert rows[i + 1].id == u;
    }
  }

  /** The ids of a page that a list serves are in descending order and in the table. */
  lemma ServedIdsExist(l: Lists, kind: Kind, key: nat, limit: nat, cursor: Option<Uuid>)
    requires ListsOk(l, kind) && key in l.cached
    ensures var ids := LexPage(l.cached[key], limit, cursor);
            Descending(Less, ids) && forall u :: u in ids ==> HasRow(l.rows, u)
  {
    forall u | u in KeyIds(l.rows, key) ensures HasRow(l.rows, u) {
      KeyIdHasRow(l.rows, key, u);
    }
    SortedIs(l.rows, key);
    if KeyIds(l.rows, key) == [] {
      MarkerPage(limit, cursor);
    } else {
      var all := Unwrap(l.cached[key]);
      LexPageWrap(all, limit, cursor);
      FilterDescending(Less, Under(cursor), all);
      FilterMembers(Under(cursor), all);
    }
  }

  /** What a read may rely on and what it leaves. */
  lemma ReadIsRight(l: Lists, kind: Kind, key: nat, limit: nat, cursor: Option<Uuid>)
    requires ListsOk(l, kind) && kind.cap > 0
    ensures key in l.cached ==>
              var ids := LexPage(l.cached[key], limit, cursor);
              Descending(Less, ids) && forall u :: u in ids ==> HasRow(l.rows, u)
    ensures ListsOk(AfterRead(l, kind, key), kind)
    ensures WithinCap(l.rows, kind, key, limit, cursor) ==>
              ReadPage(l, kind, key, limit, cursor) == DbIds(l.rows, key, limit, cursor)
  {
    ReadKeeps(l, kind, key);
    if key in l.cached {
      ServedIdsExist(l, kind, key, limit, cursor);
    }
    if WithinCap(l.rows, kind, key, limit, cursor) {
      PageAgrees(l, kind, key, limit, cursor);
    }
  }

  lemma {:induction false} UnwrapAdd(z: LexSet, m: Member)
    ensures Unwrap(z + [m]) == Unwrap(z) + (if m.Id? then [m.id] else [])
    decreases z
  {
    if z == [] {
      assert z + [m] == [m];
      assert Unwrap([m][1..]) == [];
    } else {
      UnwrapAdd(z[1..], m);
      assert (z + [m])[1..] == z[1..] + [m] && (z + [m])[0] == z[0];
    }
  }

  class Service {
    const kind: Kind
    var rows: seq<Listing>
    var cached: map<nat, LexSet>
    /** The entries whose metadata hash is present. */
    var metas: set<Uuid>

    constructor (kind: Kind, rows: seq<Listing>)
      ensures this.kind == kind && this.rows == rows && cached == map[] && metas == {}
    {
      this.kind, this.rows, cached, metas := kind, rows, map[], {};
    }

    ghost function State(): Lists
      reads this
    {
      Lists(rows, cached)
    }

    /** AddOwnedWorkspaceID, AddJoinedWorkspaceID, AddProjectID */
    method AddID(key: nat, id: Uuid)
      modifies this`cached
      ensures cached ==
              if key in old(cached) then old(cached)[key := Added(old(cached)[key], id, kind)] else old(cached)
    {
      if key in cached {
        var z := cached[key];
        if kind.marked {
          z := Filter((m: Member) => m != Empty, z);
        }
        cached := cached[key := Insert(MemberLess, z, Id(id))];
      }
    }

    /** GetOwnedWorkspaceIDs, GetJoinedWorkspaceIDs, GetProjectIDs; `None` when there is no list. */
    method GetIDs(key: nat, limit: nat, cursor: Option<Uuid>) returns (filtered: Option<seq<Uuid>>)
      ensures filtered == if key in cached then Some(LexPage(cached[key], limit, cursor)) else None
    {
      if key !in cached {
        return None;
      }
      var members := Take(Filter(LexUnder(cursor), cached[key]), limit);
      var ids: seq<Uuid> := [];
      assert members[..0] == [];
      for i := 0 to |members|
        invariant ids == Unwrap(members[..i])
      {
        assert members[..i + 1] == members[..i] + [members[i]];
        UnwrapAdd(members[..i], members[i]);
        if members[i] != Empty {
          ids := ids + [members[i].id];
        }
      }
      assert members[..|members|] == members;
      filtered := Some(ids);
    }

    /** SetOwnedWorkspaceIDs, SetJoinedWorkspaceIDs, SetProjectIDs */
    method SetIDs(key: nat, ids: seq<Uuid>)
      modifies this`cached
      ensures cached == Load(old(cached), kind, key, ids)
    {
      ghost var before := cached;
      cached := cached - {key};
      if |ids| > 0 {
        var zMembers := seq(|ids|, _ => Empty);
        for i := 0 to |ids|
          invariant |zMembers| == |ids|
          invariant forall j :: 0 <= j < i ==> zMembers[j] == Id(ids[j])
        {
          zMembers := zMembers[i := Id(ids[i])];
        }
        assert zMembers == Wrap(ids);
        cached := cached[key := SortDesc(MemberLess, zMembers)];
        assert cached == before[key := SortDesc(MemberLess, Wrap(ids))];
      } else if kind.marked {
        cached := cached[key := [Empty]];
        assert cached == before[key := [Empty]];
      }
    }

    /** paginateWorkspaces, paginateProjectsInGo */
    method Paginate(ids: seq<Uuid>, cursor: Option<Uuid>, limit: nat) returns (page: seq<Uuid>)
      ensures page == Take(Filter(Under(cursor), ids), limit)
    {
      var filtered: seq<Uuid> := [];
      assert ids[..0] == [];
      for i := 0 to |ids|
        invariant filtered == Filter(Under(cursor), ids[..i])
      {
        assert ids[..i + 1] == ids[..i] + [ids[i]];
        FilterAdd(Under(cursor), ids[..i], ids[i]);
        if Before(ids[i], cursor) {
          filtered := filtered + [ids[i]];
        }
      }
      assert ids[..|ids|] == ids;
      page := if |filtered| > limit then filtered[..limit] else filtered;
    }

    /** The cache and database steps of CreateWorkspace, AcceptInvitation and CreateProject. */
    method CreateEntry(key: nat, id: Uuid)
      requires ListsOk(State(), kind)
      modifies this
      ensures State() == Create(old(State()), kind, key, id) && ListsOk(State(), kind)
      ensures metas == old(metas) + {id}
    {
      CreateKeeps(State(), kind, key, id);
      rows := rows + [Listing(key, id)];
      metas := metas + {id};
      AddID(key, id);
    }

    /** The entries of a served page: those with metadata first, the others from the table, then sorted. */
    method Metadata(ids: seq<Uuid>) returns (entries: seq<Uuid>)
      requires Descending(Less, ids) && forall u :: u in ids ==> HasRow(rows, u)
      modifies this`metas
      ensures entries == ids
      ensures metas == old(metas) + set u | u in ids
    {
      var missingIDs: seq<Uuid> := [];
      entries := [];
      for i := 0 to |ids|
        invariant forall u :: u in entries <==> u in ids[..i] && u in metas
        invariant forall u :: u in missingIDs <==> u in ids[..i] && u !in metas
      {
        if ids[i] in metas {
          entries := entries + [ids[i]];
        } else {
          missingIDs := missingIDs + [ids[i]];
        }
      }
      ghost var present := entries;
      for i := 0 to |missingIDs|
        invariant forall u :: u in entries <==> u in present || u in missingIDs[..i]
        invariant metas == old(metas) + set u | u in missingIDs[..i]
      {
        assert missingIDs[i] in missingIDs;
        if HasRow(rows, missingIDs[i]) {
          entries := entries + [missingIDs[i]];
          metas := metas + {missingIDs[i]};
        }
      }
      IdOrder();
      SortSame(Less, entries, ids);
      SortSorted(Less, ids);
      entries := SortDesc(Less, entries);
    }

    /**
     GetWorkspacesByOwner, GetWorkspacesByMember, GetProjectsByWorkspace: the ids of the page,
     and the cursor that GetProjectsByWorkspace returns with it.
     */
    method GetPage(key: nat, limit: nat, cursor: Option<Uuid>) returns (page: seq<Uuid>, next: Option<Uuid>)
      requires ListsOk(State(), kind) && kind.cap > 0
      modifies this
      ensures page == ReadPage(old(State()), kind, key, limit, cursor)
      ensures next == NextCursor(page, limit)
      ensures State() == AfterRead(old(State()), kind, key) && ListsOk(State(), kind)
      ensures WithinCap(rows, kind, key, limit, cursor) ==> page == DbIds(rows, key, limit, cursor)
      ensures rows == old(rows) && (Count(rows, key) <= kind.cap ==> IsIdPage(page, rows, key, limit, cursor))
      ensures IsNextId(next, page, limit)
      ensures key in old(cached) ==> cached == old(cached)
      ensures key !in old(cached) ==> IsLoaded(cached, rows, kind, key)
    {
      if Count(rows, key) <= kind.cap {
        ServedPageMeans(State(), kind, key, limit, cursor);
      }
      LoadMeans(rows, cached, kind, key);
      ReadIsRight(State(), kind, key, limit, cursor);
      page := Serve(key, limit, cursor);
      next := if |page| == limit && |page| > 0 then Some(page[|page| - 1]) else None;
    }

    /** A page from the list, or from what is loaded in its absence. */
    method Serve(key: nat, limit: nat, cursor: Option<Uuid>) returns (page: seq<Uuid>)
      requires key in cached ==>
                 var ids := LexPage(cached[key], limit, cursor);
                 Descending(Less, ids) && forall u :: u in ids ==> HasRow(rows, u)
      modifies this
      ensures page == ReadPage(old(State()), kind, key, limit, cursor)
      ensures State() == AfterRead(old(State()), kind, key)
    {
      var ids := GetIDs(key, limit, cursor);
      if ids.None? {
        page := LoadPage(key, limit, cursor);
      } else if |ids.value| == 0 {
        page := [];
      } else {
        page := Metadata(ids.value);
      }
    }

    /** On a miss the newest rows are loaded, cached, and cut to the page. */
    method LoadPage(key: nat, limit: nat, cursor: Option<Uuid>) returns (page: seq<Uuid>)
      modifies this
      ensures rows == old(rows) && cached == Load(old(cached), kind, key, DbIds(rows, key, kind.cap, None))
      ensures page == Take(Filter(Under(cursor), DbIds(rows, key, kind.cap, None)), limit)
    {
      var dbIDs := DbIds(rows, key, kind.cap, None);
      metas := metas + set u | u in dbIDs;
      SetIDs(key, dbIDs);
      page := SortedPage(key, dbIDs, cursor, limit);
    }

    /** The loaded rows, sorted (which they are already) and cut to the page. */
    method SortedPage(key: nat, dbIDs: seq<Uuid>, cursor: Option<Uuid>, limit: nat) returns (page: seq<Uuid>)
      requires dbIDs == DbIds(rows, key, kind.cap, None)
      ensures page == Take(Filter(Under(cursor), dbIDs), limit)
    {
      IdOrder();
      SortedIs(rows, key);
      LoadIsTop(rows, key, kind.cap);
      SortSorted(Less, dbIDs);
      page := Paginate(SortDesc(Less, dbIDs), cursor, limit);
    }
  }
}
