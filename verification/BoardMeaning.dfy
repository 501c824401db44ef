/**
 What the board shows and what moving a task does, in terms of rows, hashes and their fields.
 */
module BoardMeaning {
  import opened Wrappers
  import opened Uuid
  import opened SortedSeq
  import opened ColumnCache
  import opened ColumnRuns
  import opened ColumnMeaning
  import opened TaskViews
  import opened StatusMove

  /******* The query for a column *******/

  /** The newest rows of the column below the cursor, at most `limit`, the last created first. */
  ghost predicate IsQueryPage(
    page: seq<Task>, rows: seq<Task>, workspace: nat, project: nat, status: string, limit: nat, cursor: Option<Uuid>)
  {
    && |page| <= limit
    && (forall i, j :: 0 <= i < j < |page| ==>
          || page[i].created > page[j].created
          || (page[i].created == page[j].created && Less(page[j].id, page[i].id)))
    && (forall t :: t in page ==>
          && t in rows && t.workspace == workspace && t.project == project && t.status == status
          && (cursor.Some? ==> Less(t.id, cursor.value)))
    && (forall t :: t in rows && t.workspace == workspace && t.project == project && t.status == status
                    && (cursor.Some? ==> Less(t.id, cursor.value)) && t !in page ==>
          && |page| == limit
          && forall u :: u in page ==> u.created > t.created || (u.created == t.created && Less(t.id, u.id)))
  }

  lemma {:induction false} KeysAt(ts: seq<Task>)
    ensures |Keys(ts)| == |ts| && forall i :: 0 <= i < |ts| ==> Keys(ts)[i] == Key(ts[i].created, ts[i].id)
    decreases ts
  {
    if ts != [] {
      KeysAt(ts[1..]);
    }
  }

  lemma DbPageMeans(rows: seq<Task>, workspace: nat, project: nat, status: string, limit: nat, cursor: Option<Uuid>)
    requires PrimaryKey(rows)
    ensures IsQueryPage(DbPage(rows, workspace, project, status, limit, cursor),
                        rows, workspace, project, status, limit, cursor)
  {
    var page := DbPage(rows, workspace, project, status, limit, cursor);
    DbPageSize(rows, workspace, project, status, limit, cursor);
    DbPageKeys(rows, workspace, project, status, limit, cursor);
    DbPageRows(rows, workspace, project, status, limit, cursor);
    KeysAt(page);
    forall i, j | 0 <= i < j < |page|
      ensures || page[i].created > page[j].created
              || (page[i].created == page[j].created && Less(page[j].id, page[i].id))
    {
      assert KeyLess(Keys(page)[j], Keys(page)[i]);
    }
    forall t | t in rows && Matches(t, workspace, project, status, cursor) && t !in page
      ensures |page| == limit
      ensures forall u :: u in page ==> u.created > t.created || (u.created == t.created && Less(t.id, u.id))
    {
      NotOnPage(rows, workspace, project, status, limit, cursor, t);
    }
  }

  lemma NotOnPage(
    rows: seq<Task>, workspace: nat, project: nat, status: string, limit: nat, cursor: Option<Uuid>, t: Task)
    requires PrimaryKey(rows) && t in rows && Matches(t, workspace, project, status, cursor)
    requires t !in DbPage(rows, workspace, project, status, limit, cursor)
    ensures var page := DbPage(rows, workspace, project, status, limit, cursor);
            && |page| == limit
            && forall u :: u in page ==> u.created > t.created || (u.created == t.created && Less(t.id, u.id))
  {
    var page := DbPage(rows, workspace, project, status, limit, cursor);
    var selected := Selected(rows, workspace, project, status, cursor);
    var k := Key(t.created, t.id);
    KeyOrder();
    SelectedIs(rows, workspace, project, status, cursor);
    SortMembers(KeyLess, Keys(selected));
    SortDescending(KeyLess, Keys(selected));
    DbPageKeys(rows, workspace, project, status, limit, cursor);
    DbPageRows(rows, workspace, project, status, limit, cursor);
    KeyOnPage(rows, workspace, page, t);
    RowHasKey(selected, t);
    TakeIsTop(KeyLess, SortDesc(KeyLess, Keys(selected)), limit, k);
    KeysAt(page);
    forall u | u in page ensures u.created > t.created || (u.created == t.created && Less(t.id, u.id)) {
      var i :| 0 <= i < |page| && page[i] == u;
      assert Keys(page)[i] in Keys(page) && KeyLess(k, Keys(page)[i]);
    }
  }

  /******* What is to be seen of a task *******/

  /** Its hash if that is complete, whatever the table says; else its row in the workspace. */
  ghost predicate Sees(hashes: map<Uuid, Hash>, rows: seq<Task>, workspace: nat, id: Uuid, t: Task) {
    if id in hashes && hashes[id].Full? then t == hashes[id].task
    else t in rows && t.id == id && t.workspace == workspace
  }

  lemma {:induction false} FindByIDMeans(rows: seq<Task>, workspace: nat, id: Uuid)
    requires PrimaryKey(rows)
    ensures forall t ::
              FindByID(rows, workspace, id) == Some(t) <==> t in rows && t.id == id && t.workspace == workspace
    ensures FindByID(rows, workspace, id).None? <==> forall t :: t in rows ==> t.id != id || t.workspace != workspace
    decreases rows
  {
    if rows != [] {
      assert rows == [rows[0]] + rows[1..];
      assert forall i :: 0 <= i < |rows[1..]| ==> rows[1..][i] == rows[i + 1];
      FindByIDMeans(rows[1..], workspace, id);
      if rows[0].id == id && rows[0].workspace == workspace {
        forall t | t in rows[1..] ensures t.id != id || t.workspace != workspace {
          var i :| 0 <= i < |rows[1..]| && rows[1..][i] == t;
        }
      }
    }
  }

  lemma ViewMeans(hashes: map<Uuid, Hash>, rows: seq<Task>, workspace: nat, id: Uuid)
    requires PrimaryKey(rows)
    ensures forall t :: View(hashes, rows, workspace, id) == Some(t) <==> Sees(hashes, rows, workspace, id, t)
  {
    FindByIDMeans(rows, workspace, id);
  }

  /** `shown` is, in order, what is to be seen of the ids at `at`, and these are the ids with the status. */
  ghost predicate ShowsInOrder(
    shown: seq<Task>, hashes: map<Uuid, Hash>, rows: seq<Task>, workspace: nat, status: string, ids: seq<Uuid>,
    at: seq<nat>)
  {
    && |at| == |shown|
    && (forall x :: 0 <= x < |at| ==> at[x] < |ids|)
    && (forall x, y :: 0 <= x < y < |at| ==> at[x] < at[y])
    && (forall x :: 0 <= x < |at| ==>
          shown[x].status == status && Sees(hashes, rows, workspace, ids[at[x]], shown[x]))
    && (forall i, t :: 0 <= i < |ids| && Sees(hashes, rows, workspace, ids[i], t) && t.status == status ==> i in at)
  }

  lemma {:induction false} VisibleMeans(
    hashes: map<Uuid, Hash>, rows: seq<Task>, workspace: nat, status: string, ids: seq<Uuid>) returns (at: seq<nat>)
    requires PrimaryKey(rows)
    ensures ShowsInOrder(Visible(hashes, rows, workspace, status, ids), hashes, rows, workspace, status, ids, at)
    decreases |ids|
  {
    if ids == [] {
      at := [];
    } else {
      var n := |ids| - 1;
      var front := VisibleMeans(hashes, rows, workspace, status, ids[..n]);
      var shown := Visible(hashes, rows, workspace, status, ids[..n]);
      assert ids == ids[..n] + [ids[n]];
      ViewsAdd(hashes, rows, workspace, ids[..n], ids[n]);
      ViewMeans(hashes, rows, workspace, ids[n]);
      var v := View(hashes, rows, workspace, ids[n]);
      if v.Some? {
        WithStatusAdd(status, Views(hashes, rows, workspace, ids[..n]), v.value);
      } else {
        assert Views(hashes, rows, workspace, ids[..n]) + [] == Views(hashes, rows, workspace, ids[..n]);
      }
      at := if v.Some? && v.value.status == status then front + [n] else front;
      assert Visible(hashes, rows, workspace, status, ids) ==
             if v.Some? && v.value.status == status then shown + [v.value] else shown;
      if v.Some? && v.value.status == status {
        ShowsLast(shown, hashes, rows, workspace, status, ids[..n], front, ids[n], v.value);
      } else {
        forall t | Sees(hashes, rows, workspace, ids[n], t) ensures t.status != status {
          assert v == Some(t);
        }
        HidesLast(shown, hashes, rows, workspace, status, ids[..n], front, ids[n]);
      }
    }
  }

  lemma ShowsLast(
    shown: seq<Task>, hashes: map<Uuid, Hash>, rows: seq<Task>, workspace: nat, status: string, ids: seq<Uuid>,
    at: seq<nat>, last: Uuid, t: Task)
    requires ShowsInOrder(shown, hashes, rows, workspace, status, ids, at)
    requires Sees(hashes, rows, workspace, last, t) && t.status == status
    ensures ShowsInOrder(shown + [t], hashes, rows, workspace, status, ids + [last], at + [|ids|])
  {
    var at' := at + [|ids|];
    assert at'[|at|] == |ids| && forall i :: i in at ==> i in at';
    forall i, u | 0 <= i < |ids + [last]| && Sees(hashes, rows, workspace, (ids + [last])[i], u) && u.status == status
      ensures i in at'
    {
      if i < |ids| {
        assert Sees(hashes, rows, workspace, ids[i], u);
      }
    }
  }

  lemma HidesLast(
    shown: seq<Task>, hashes: map<Uuid, Hash>, rows: seq<Task>, workspace: nat, status: string, ids: seq<Uuid>,
    at: seq<nat>, last: Uuid)
    requires ShowsInOrder(shown, hashes, rows, workspace, status, ids, at)
    requires forall t :: Sees(hashes, rows, workspace, last, t) ==> t.status != status
    ensures ShowsInOrder(shown, hashes, rows, workspace, status, ids + [last], at)
  {
    forall i, u | 0 <= i < |ids + [last]| && Sees(hashes, rows, workspace, (ids + [last])[i], u) && u.status == status
      ensures i in at
    {
      if i < |ids| {
        assert Sees(hashes, rows, workspace, ids[i], u);
      }
    }
  }

  /** The hashes that a hit sets: of the given ids, those that have a row, to that row. */
  lemma {:induction false} RepairedMeans(r: Redis, rows: seq<Task>, workspace: nat, ids: seq<Uuid>, id: Uuid)
    requires PrimaryKey(rows)
    ensures var r' := Repaired(r, rows, workspace, ids);
            && r'.zsets == r.zsets
            && (forall t :: id in ids && t in rows && t.id == id && t.workspace == workspace ==>
                  id in r'.hashes && r'.hashes[id] == Full(t))
            && (id !in ids || (forall t :: t in rows ==> t.id != id || t.workspace != workspace) ==>
                  (id in r'.hashes <==> id in r.hashes) && (id in r.hashes ==> r'.hashes[id] == r.hashes[id]))
    decreases |ids|
  {
    if ids != [] {
      var n := |ids| - 1;
      assert ids == ids[..n] + [ids[n]];
      RepairedAdd(r, rows, workspace, ids[..n], ids[n]);
      RepairedMeans(r, rows, workspace, ids[..n], id);
      FindByIDMeans(rows, workspace, ids[n]);
      FindByIDFirst(rows, workspace, ids[n]);
    }
  }

  /******* A column of the board *******/

  /** The page of a cached column: its tasks behind the cursor, at most `limit`, the greatest id first. */
  ghost predicate IsColumnPage(ids: seq<Uuid>, z: ZSet, limit: nat, cursor: Option<Uuid>) {
    && |ids| <= limit
    && (forall i, j :: 0 <= i < j < |ids| ==> Less(ids[j], ids[i]))
    && (forall id :: id in ids ==> id in IdsIn(z) && Behind(id, cursor))
    && (forall id :: id in IdsIn(z) && Behind(id, cursor) && id !in ids ==>
          |ids| == limit && forall u :: u in ids ==> Less(id, u))
  }

  ghost predicate AreIdsOf(ids: seq<Uuid>, page: seq<Task>) {
    |ids| == |page| && forall i :: 0 <= i < |ids| ==> ids[i] == page[i].id
  }

  /** The last id of a full page is the next cursor, and there is none behind a page that is not full. */
  ghost predicate IsNext(next: Option<Uuid>, ids: seq<Uuid>, limit: nat) {
    if |ids| == limit && limit > 0 then next == Some(ids[limit - 1]) else next == None
  }

  /** A column that is not cached shows what is to be seen of the rows of the query. */
  ghost predicate ShowsQuery(
    shown: seq<Task>, next: Option<Uuid>, hashes: map<Uuid, Hash>, rows: seq<Task>, workspace: nat, project: nat,
    status: string, limit: nat, cursor: Option<Uuid>)
  {
    exists page, ids, at ::
      && IsQueryPage(page, rows, workspace, project, status, limit, cursor) && AreIdsOf(ids, page)
      && ShowsInOrder(shown, hashes, rows, workspace, status, ids, at) && IsNext(next, ids, limit)
  }

  /** A cached column shows what is to be seen of the ids of its page. */
  ghost predicate ShowsSortedSet(
    shown: seq<Task>, next: Option<Uuid>, hashes: map<Uuid, Hash>, rows: seq<Task>, workspace: nat, z: ZSet,
    status: string, limit: nat, cursor: Option<Uuid>)
  {
    exists ids, at ::
      && IsColumnPage(ids, z, limit, cursor)
      && ShowsInOrder(shown, hashes, rows, workspace, status, ids, at) && IsNext(next, ids, limit)
  }

  lemma ShowsQueryMeans(
    hashes: map<Uuid, Hash>, rows: seq<Task>, workspace: nat, project: nat, status: string, limit: nat,
    cursor: Option<Uuid>, next: Option<Uuid>)
    requires PrimaryKey(rows)
    requires IsNext(next, RowIds(DbPage(rows, workspace, project, status, limit, cursor)), limit)
    ensures ShowsQuery(
              Visible(hashes, rows, workspace, status,
                      RowIds(DbPage(rows, workspace, project, status, limit, cursor))),
              next, hashes, rows, workspace, project, status, limit, cursor)
  {
    var page := DbPage(rows, workspace, project, status, limit, cursor);
    DbPageMeans(rows, workspace, project, status, limit, cursor);
    assert AreIdsOf(RowIds(page), page);
    var at := VisibleMeans(hashes, rows, workspace, status, RowIds(page));
  }

  lemma ShowsSortedSetMeans(
    hashes: map<Uuid, Hash>, rows: seq<Task>, workspace: nat, z: ZSet, status: string, limit: nat,
    cursor: Option<Uuid>, next: Option<Uuid>)
    requires PrimaryKey(rows) && ColumnOk(z) && IsNext(next, PageIds(z, limit, cursor), limit)
    ensures ShowsSortedSet(Visible(hashes, rows, workspace, status, PageIds(z, limit, cursor)),
                           next, hashes, rows, workspace, z, status, limit, cursor)
  {
    PageMeans(z, limit, cursor);
    assert IsColumnPage(PageIds(z, limit, cursor), z, limit, cursor);
    var at := VisibleMeans(hashes, rows, workspace, status, PageIds(z, limit, cursor));
  }

  /******* Looking a task up *******/

  /**
   What getTaskByID is to find: the complete hash if it is of the workspace, whatever the table
   says, and else the row of the id in the workspace.
   */
  ghost predicate IsLocal(hashes: map<Uuid, Hash>, rows: seq<Task>, workspace: nat, id: Uuid, t: Task) {
    if id in hashes && hashes[id].Full? && hashes[id].task.workspace == workspace then t == hashes[id].task
    else t in rows && t.id == id && t.workspace == workspace
  }

  lemma {:induction false} FindByIDFirst(rows: seq<Task>, workspace: nat, id: Uuid)
    ensures var t := FindByID(rows, workspace, id);
            && (t.Some? ==> t.value in rows && t.value.id == id && t.value.workspace == workspace)
            && (t.None? <==> forall row :: row in rows ==> row.id != id || row.workspace != workspace)
    decreases rows
  {
    if rows != [] {
      FindByIDFirst(rows[1..], workspace, id);
      assert rows == [rows[0]] + rows[1..];
    }
  }

  lemma LocalIsLocal(hashes: map<Uuid, Hash>, rows: seq<Task>, workspace: nat, id: Uuid)
    ensures var t := LocalTask(hashes, rows, workspace, id);
            && (t.Some? ==> IsLocal(hashes, rows, workspace, id, t.value))
            && (t.None? <==> forall u :: !IsLocal(hashes, rows, workspace, id, u))
  {
    FindByIDFirst(rows, workspace, id);
    var t := LocalTask(hashes, rows, workspace, id);
    assert t.Some? ==> IsLocal(hashes, rows, workspace, id, t.value);
  }

  lemma LocalTaskMeans(hashes: map<Uuid, Hash>, rows: seq<Task>, workspace: nat, id: Uuid)
    requires PrimaryKey(rows)
    ensures forall t :: LocalTask(hashes, rows, workspace, id) == Some(t) <==> IsLocal(hashes, rows, workspace, id, t)
  {
    FindByIDMeans(rows, workspace, id);
  }

  /** A lookup leaves the cache alone, unless it has read the row, which it then caches. */
  lemma LookedUpMeans(r: Redis, rows: seq<Task>, workspace: nat, id: Uuid, t: Task)
    requires PrimaryKey(rows) && IsLocal(r.hashes, rows, workspace, id, t) && RedisOk(r)
    ensures var l := LookedUp(r, rows, workspace, id);
            && l.zsets == r.zsets && RedisOk(l)
            && l.hashes == if id in r.hashes && r.hashes[id].Full? && r.hashes[id].task.workspace == workspace
                           then r.hashes else r.hashes[id := Full(t)]
  {
    LocalTaskMeans(r.hashes, rows, workspace, id);
  }

  /******* Moving a task *******/

  /** The cache on which the move works, when the column was not cached. */
  lemma WarmMeans(r: Redis, rows: seq<Task>, workspace: nat, id: Uuid, t: Task, k: Column)
    requires RedisOk(r) && PrimaryKey(rows) && IsLocal(r.hashes, rows, workspace, id, t) && k !in r.zsets
    ensures var w := Prewarmed(LookedUp(r, rows, workspace, id), rows, workspace, k);
            var page := DbPage(rows, workspace, k.0, k.1, 100, None);
            && RedisOk(w) && id in w.hashes && w.hashes[id].Full?
            && (k in w.zsets <==> page == [] || ScoredIds(page) != {})
            && IdsIn(w.Zset(k)) == ScoredIds(page)
            && (forall k' :: k' != k ==> (k' in w.zsets <==> k' in r.zsets) && w.Zset(k') == r.Zset(k'))
  {
    var l := LookedUp(r, rows, workspace, id);
    LookedUpMeans(r, rows, workspace, id, t);
    PrewarmedKeeps(l, rows, workspace, k, id);
    LoadedIds(l, k, DbPage(rows, workspace, k.0, k.1, 100, None));
    HSetAllKeepsZsets(l, DbPage(rows, workspace, k.0, k.1, 100, None));
  }

  /**
   What an update of a version 7 task has done when nobody interfered, where `t` is the task that
   the lookup is to find: the hash has the new status; the task has left the column of its old
   status, which has lost nothing else; the new column, if it was cached, holds the hundred newest of
   its tasks and this one; if it was not, of the hundred newest rows of the table and this one.
   */
  ghost predicate HasMoved(
    r: Redis, r': Redis, rows: seq<Task>, workspace: nat, id: Uuid, t: Task, status: string)
  {
    var from, to := (t.project, t.status), (t.project, status);
    && id in r'.hashes && r'.hashes[id].Full? && r'.hashes[id].task.status == status
    && (to in r.zsets ==> r'.hashes == r.hashes[id := Full(t.(status := status))])
    && (from != to ==> forall e :: e in r'.Zset(from) <==> e in r.Zset(from) && e.member != Id(id))
    && (to in r.zsets ==> to in r'.zsets && Newest(r'.zsets[to], IdsIn(r.zsets[to]) + {id}))
    && (to !in r.zsets ==>
          exists page ::
            && IsQueryPage(page, rows, workspace, t.project, status, 100, None)
            && (to in r'.zsets <==> page == [] || ScoredIds(page) != {})
            && (to in r'.zsets ==> Newest(r'.zsets[to], ScoredIds(page) + {id})))
    && (forall k :: k != from && k != to ==> (k in r'.zsets <==> k in r.zsets) && r'.Zset(k) == r.Zset(k))
  }

  lemma MovesToCached(r: Redis, rows: seq<Task>, workspace: nat, id: Uuid, t: Task, status: string)
    requires RedisOk(r) && IsV7(id) && PrimaryKey(rows) && IsLocal(r.hashes, rows, workspace, id, t)
    requires (t.project, status) in r.zsets
    requires LocalTask(r.hashes, rows, workspace, id) == Some(t)
    ensures HasMoved(r, StatusUpdated(r, rows, workspace, id, status), rows, workspace, id, t, status)
  {
    MovedHashes(r, rows, workspace, id, t, status);
    LookedUpMeans(r, rows, workspace, id, t);
    MoveColumns(LookedUp(r, rows, workspace, id), t.project, id, t.status, status);
  }

  lemma MovedHashes(r: Redis, rows: seq<Task>, workspace: nat, id: Uuid, t: Task, status: string)
    requires RedisOk(r) && IsV7(id) && PrimaryKey(rows) && IsLocal(r.hashes, rows, workspace, id, t)
    requires (t.project, status) in r.zsets
    requires LocalTask(r.hashes, rows, workspace, id) == Some(t)
    ensures StatusUpdated(r, rows, workspace, id, status).hashes == r.hashes[id := Full(t.(status := status))]
  {
    var l := LookedUp(r, rows, workspace, id);
    LookedUpMeans(r, rows, workspace, id, t);
    MoveHashes(l, t.project, id, t.status, status);
    assert l.hashes[id] == Full(t);
    assert l.HSetStatus(id, status).hashes == r.hashes[id := Full(t.(status := status))];
  }

  lemma MovesToLoaded(r: Redis, rows: seq<Task>, workspace: nat, id: Uuid, t: Task, status: string)
    requires RedisOk(r) && IsV7(id) && PrimaryKey(rows) && IsLocal(r.hashes, rows, workspace, id, t)
    requires (t.project, status) !in r.zsets
    requires LocalTask(r.hashes, rows, workspace, id) == Some(t)
    ensures HasMoved(r, StatusUpdated(r, rows, workspace, id, status), rows, workspace, id, t, status)
  {
    var to := (t.project, status);
    var w := Prewarmed(LookedUp(r, rows, workspace, id), rows, workspace, to);
    DbPageMeans(rows, workspace, t.project, status, 100, None);
    WarmMeans(r, rows, workspace, id, t, to);
    MoveMeans(w, t.project, id, t.status, status);
  }

  lemma MoveIsMeant(r: Redis, rows: seq<Task>, workspace: nat, id: Uuid, t: Task, status: string)
    requires RedisOk(r) && IsV7(id) && PrimaryKey(rows) && IsLocal(r.hashes, rows, workspace, id, t)
    ensures LocalTask(r.hashes, rows, workspace, id) == Some(t)
    ensures HasMoved(r, StatusUpdated(r, rows, workspace, id, status), rows, workspace, id, t, status)
  {
    LocalTaskMeans(r.hashes, rows, workspace, id);
    if (t.project, status) in r.zsets {
      MovesToCached(r, rows, workspace, id, t, status);
    } else {
      MovesToLoaded(r, rows, workspace, id, t, status);
    }
  }
}
