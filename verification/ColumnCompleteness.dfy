/**
 How much of a column the board shows.  A miss caches the one page that it shows, and later
 requests are answered from that page: this module says exactly when nothing is lost by that.
 */
module ColumnCompleteness {
  import opened Wrappers
  import opened Uuid
  import opened SortedSeq
  import opened ColumnCache
  import opened ColumnRuns
  import opened ColumnWalk
  import opened TaskViews
  import opened TaskBoard

  /** A cached column in order, with tasks only or the marker only. */
  ghost predicate Present(r: Redis, k: Column) {
    k in r.zsets && OwnScores(r.zsets[k]) && (NoMarker(r.zsets[k]) || r.zsets[k] == [Entry(-1, Empty)])
  }

  /** The next request of a walk over a cached column has fewer entries below its cursor. */
  lemma HitAdvances(r: Redis, rows: seq<Task>, workspace: nat, k: Column, limit: nat, cursor: Option<Uuid>)
    requires HashesOk(r.hashes) && Present(r, k) && (cursor.Some? ==> IsV7(cursor.value))
    requires NextCursor(PageIds(r.zsets[k], limit, cursor), limit).Some?
    ensures var next := NextCursor(PageIds(r.zsets[k], limit, cursor), limit);
            && IsV7(next.value)
            && |Below(r.zsets[k], ScoreBound(next))| < |Below(r.zsets[k], ScoreBound(cursor))|
    ensures var r' := AfterShow(r, rows, workspace, k.0, k.1, limit, cursor);
            && r'.zsets == r.zsets && HashesOk(r'.hashes) && SameViews(r.hashes, r'.hashes, rows, workspace)
  {
    AfterShowKeeps(r, rows, workspace, k.0, k.1, limit, cursor);
    MarkerShowsNothing(limit, cursor);
    BelowShrinks(r.zsets[k], cursor, limit);
  }

  /** What a client sees who asks for pages of a cached column as long as a cursor comes back. */
  ghost function HitWalk(
    r: Redis, rows: seq<Task>, workspace: nat, k: Column, limit: nat, cursor: Option<Uuid>): seq<Task>
    requires HashesOk(r.hashes) && Present(r, k) && (cursor.Some? ==> IsV7(cursor.value))
    decreases |Below(r.zsets[k], ScoreBound(cursor))|
  {
    var next := NextCursor(PageIds(r.zsets[k], limit, cursor), limit);
    Shown(r, rows, workspace, k.0, k.1, limit, cursor) +
    if next.None? then []
    else
      HitAdvances(r, rows, workspace, k, limit, cursor);
      HitWalk(AfterShow(r, rows, workspace, k.0, k.1, limit, cursor), rows, workspace, k, limit, next)
  }

  /** A page of a cached column shows tasks of its sorted set only. */
  lemma PageInColumn(z: ZSet, limit: nat, cursor: Option<Uuid>)
    requires OwnScores(z) && (NoMarker(z) || z == [Entry(-1, Empty)]) && (cursor.Some? ==> IsV7(cursor.value))
    ensures forall id :: id in PageIds(z, limit, cursor) ==> Own(id) in z
  {
    if NoMarker(z) {
      BoundOnPage(z, cursor, limit);
    } else {
      MarkerShowsNothing(limit, cursor);
    }
  }

  lemma {:induction false} HitWalkShows(
    r: Redis, rows: seq<Task>, workspace: nat, k: Column, limit: nat, cursor: Option<Uuid>, t: Task)
    requires HashesOk(r.hashes) && Present(r, k) && (cursor.Some? ==> IsV7(cursor.value))
    requires t in HitWalk(r, rows, workspace, k, limit, cursor)
    ensures Own(t.id) in r.zsets[k] && View(r.hashes, rows, workspace, t.id) == Some(t) && t.status == k.1
    decreases |Below(r.zsets[k], ScoreBound(cursor))|
  {
    var next := NextCursor(PageIds(r.zsets[k], limit, cursor), limit);
    if t in Shown(r, rows, workspace, k.0, k.1, limit, cursor) {
      PageInColumn(r.zsets[k], limit, cursor);
      VisibleMembers(r.hashes, rows, workspace, k.1, PageIds(r.zsets[k], limit, cursor), t);
    } else {
      HitAdvances(r, rows, workspace, k, limit, cursor);
      HitWalkShows(AfterShow(r, rows, workspace, k.0, k.1, limit, cursor), rows, workspace, k, limit, next, t);
    }
  }

  /******* One miss, then hits *******/

  /** A row of the column below the cursor whose effective view still has the column's status. */
  ghost predicate Waiting(r: Redis, rows: seq<Task>, workspace: nat, k: Column, cursor: Option<Uuid>, row: Task) {
    && row in rows && Matches(row, workspace, k.0, k.1, cursor)
    && var v := View(r.hashes, rows, workspace, row.id); v.Some? && v.value.status == k.1
  }

  ghost predicate Seen(ts: seq<Task>, id: Uuid) {
    exists t :: t in ts && t.id == id
  }

  ghost predicate AllSeen(
    r: Redis, rows: seq<Task>, workspace: nat, k: Column, cursor: Option<Uuid>, ts: seq<Task>)
  {
    forall row :: Waiting(r, rows, workspace, k, cursor, row) ==> Seen(ts, row.id)
  }

  ghost predicate V7Column(rows: seq<Task>, workspace: nat, k: Column) {
    forall row :: row in rows && Matches(row, workspace, k.0, k.1, None) ==> IsV7(row.id)
  }

  lemma {:induction false} EntriesFrom(tasks: seq<Task>)
    ensures forall e :: e in Entries(tasks) ==> e.member.Id? && e == Own(e.member.id) && Seen(tasks, e.member.id)
    decreases tasks
  {
    if tasks != [] {
      EntriesFrom(tasks[1..]);
      assert tasks[0] in tasks && forall t :: t in tasks[1..] ==> t in tasks;
    }
  }

  lemma {:induction false} EntriesPresent(tasks: seq<Task>)
    requires tasks != [] && IsV7(tasks[0].id)
    ensures Entries(tasks) != []
  {
  }

  /** The page that a miss shows: effective views of its rows. */
  lemma MissShows(r: Redis, rows: seq<Task>, workspace: nat, k: Column, limit: nat, cursor: Option<Uuid>)
    requires HashesOk(r.hashes) && PrimaryKey(rows) && V7Column(rows, workspace, k) && k !in r.zsets
    ensures var page := DbPage(rows, workspace, k.0, k.1, limit, cursor);
            && (forall t :: t in page ==> t in rows && Matches(t, workspace, k.0, k.1, cursor) && IsV7(t.id))
            && (forall t :: t in Shown(r, rows, workspace, k.0, k.1, limit, cursor) ==>
                  t.id in RowIds(page) && IsV7(t.id))
  {
    var page := DbPage(rows, workspace, k.0, k.1, limit, cursor);
    DbPageRows(rows, workspace, k.0, k.1, limit, cursor);
    forall t | t in page ensures IsV7(t.id) {
      assert Matches(t, workspace, k.0, k.1, None);
    }
    forall t | t in Shown(r, rows, workspace, k.0, k.1, limit, cursor) ensures t.id in RowIds(page) && IsV7(t.id) {
      VisibleMembers(r.hashes, rows, workspace, k.1, RowIds(page), t);
      var i :| 0 <= i < |RowIds(page)| && RowIds(page)[i] == t.id;
      assert page[i] in page;
    }
  }

  /** A miss leaves the column cached, with exactly the ids it has shown. */
  lemma MissLoads(r: Redis, rows: seq<Task>, workspace: nat, k: Column, limit: nat, cursor: Option<Uuid>)
    requires HashesOk(r.hashes) && PrimaryKey(rows) && V7Column(rows, workspace, k) && k !in r.zsets
    ensures var r' := AfterShow(r, rows, workspace, k.0, k.1, limit, cursor);
            && HashesOk(r'.hashes) && Present(r', k) && SameViews(r.hashes, r'.hashes, rows, workspace)
            && forall id :: Own(id) in r'.zsets[k] ==> Seen(Shown(r, rows, workspace, k.0, k.1, limit, cursor), id)
  {
    AfterShowKeeps(r, rows, workspace, k.0, k.1, limit, cursor);
    MissShows(r, rows, workspace, k, limit, cursor);
    var shown := Shown(r, rows, workspace, k.0, k.1, limit, cursor);
    EntriesOwn(shown);
    EntriesFrom(shown);
    ZAddAllKeeps([], Entries(shown));
    if shown != [] {
      assert shown[0] in shown;
      EntriesPresent(shown);
      assert Entries(shown)[0] in ZAddAll([], Entries(shown));
    }
  }

  /** What a client sees from the first request, a miss, to the last. */
  ghost function MissWalk(
    r: Redis, rows: seq<Task>, workspace: nat, k: Column, limit: nat, cursor: Option<Uuid>): seq<Task>
    requires HashesOk(r.hashes) && PrimaryKey(rows) && V7Column(rows, workspace, k) && k !in r.zsets
  {
    var next := NextCursor(PageSource(r, rows, workspace, k.0, k.1, limit, cursor), limit);
    Shown(r, rows, workspace, k.0, k.1, limit, cursor) +
    if next.None? then []
    else
      MissLoads(r, rows, workspace, k, limit, cursor);
      NextIsV7(r, rows, workspace, k, limit, cursor);
      HitWalk(AfterShow(r, rows, workspace, k.0, k.1, limit, cursor), rows, workspace, k, limit, next)
  }

  lemma NextIsV7(r: Redis, rows: seq<Task>, workspace: nat, k: Column, limit: nat, cursor: Option<Uuid>)
    requires HashesOk(r.hashes) && PrimaryKey(rows) && V7Column(rows, workspace, k) && k !in r.zsets
    ensures var next := NextCursor(PageSource(r, rows, workspace, k.0, k.1, limit, cursor), limit);
            next.Some? ==> IsV7(next.value)
  {
    MissShows(r, rows, workspace, k, limit, cursor);
    var page := DbPage(rows, workspace, k.0, k.1, limit, cursor);
    assert page != [] ==> page[|page| - 1] in page;
  }

  /** The whole walk shows nothing that its first page has not shown. */
  lemma OnlyFirstPage(r: Redis, rows: seq<Task>, workspace: nat, k: Column, limit: nat, cursor: Option<Uuid>, id: Uuid)
    requires HashesOk(r.hashes) && PrimaryKey(rows) && V7Column(rows, workspace, k) && k !in r.zsets
    ensures Seen(MissWalk(r, rows, workspace, k, limit, cursor), id) <==>
            Seen(Shown(r, rows, workspace, k.0, k.1, limit, cursor), id)
  {
    var walk := MissWalk(r, rows, workspace, k, limit, cursor);
    var shown := Shown(r, rows, workspace, k.0, k.1, limit, cursor);
    assert forall t :: t in shown ==> t in walk;
    if Seen(walk, id) && !Seen(shown, id) {
      var t :| t in walk && t.id == id;
      var next := NextCursor(PageSource(r, rows, workspace, k.0, k.1, limit, cursor), limit);
      MissLoads(r, rows, workspace, k, limit, cursor);
      NextIsV7(r, rows, workspace, k, limit, cursor);
      HitWalkShows(AfterShow(r, rows, workspace, k.0, k.1, limit, cursor), rows, workspace, k, limit, next, t);
    }
  }

  lemma WaitingOnPageIsSeen(
    r: Redis, rows: seq<Task>, workspace: nat, k: Column, limit: nat, cursor: Option<Uuid>, row: Task)
    requires HashesOk(r.hashes) && PrimaryKey(rows) && k !in r.zsets
    requires Waiting(r, rows, workspace, k, cursor, row)
    ensures Seen(Shown(r, rows, workspace, k.0, k.1, limit, cursor), row.id) <==>
            row in DbPage(rows, workspace, k.0, k.1, limit, cursor)
  {
    var page := DbPage(rows, workspace, k.0, k.1, limit, cursor);
    var shown := Shown(r, rows, workspace, k.0, k.1, limit, cursor);
    DbPageRows(rows, workspace, k.0, k.1, limit, cursor);
    FindByIDFinds(rows, workspace, row);
    if row in page {
      RowIdsHave(page);
      VisibleHas(r.hashes, rows, workspace, k.1, RowIds(page), row.id);
    }
    if Seen(shown, row.id) {
      var t :| t in shown && t.id == row.id;
      VisibleMembers(r.hashes, rows, workspace, k.1, RowIds(page), t);
      var i :| 0 <= i < |RowIds(page)| && RowIds(page)[i] == t.id;
      assert page[i] in page;
    }
  }

  lemma {:induction false} VisibleHas(
    hashes: map<Uuid, Hash>, rows: seq<Task>, workspace: nat, status: string, ids: seq<Uuid>, id: Uuid)
    requires HashesOk(hashes) && id in ids
    requires var v := View(hashes, rows, workspace, id); v.Some? && v.value.status == status
    ensures Seen(Visible(hashes, rows, workspace, status, ids), id)
  {
    var t := View(hashes, rows, workspace, id).value;
    FindByIDId(rows, workspace, id);
    ViewsHave(hashes, rows, workspace, ids, id);
    FilterMembers((t: Task) => t.status == status, Views(hashes, rows, workspace, ids));
    assert t in Visible(hashes, rows, workspace, status, ids);
  }

  lemma {:induction false} ViewsHave(hashes: map<Uuid, Hash>, rows: seq<Task>, workspace: nat, ids: seq<Uuid>, id: Uuid)
    requires id in ids && View(hashes, rows, workspace, id).Some?
    ensures View(hashes, rows, workspace, id).value in Views(hashes, rows, workspace, ids)
    decreases ids
  {
    if ids[0] != id {
      ViewsHave(hashes, rows, workspace, ids[1..], id);
    }
  }

  /**
   A walk that starts with a miss shows every task that waits in the column if and only if all
   of them are on the page of the first request: the later pages are cut from that page.
   */
  lemma MissWalkIff(r: Redis, rows: seq<Task>, workspace: nat, k: Column, limit: nat, cursor: Option<Uuid>)
    requires HashesOk(r.hashes) && PrimaryKey(rows) && V7Column(rows, workspace, k) && k !in r.zsets
    ensures AllSeen(r, rows, workspace, k, cursor, MissWalk(r, rows, workspace, k, limit, cursor)) <==>
            forall row :: Waiting(r, rows, workspace, k, cursor, row) ==>
              row in DbPage(rows, workspace, k.0, k.1, limit, cursor)
  {
    forall row | Waiting(r, rows, workspace, k, cursor, row)
      ensures Seen(MissWalk(r, rows, workspace, k, limit, cursor), row.id) <==>
              row in DbPage(rows, workspace, k.0, k.1, limit, cursor)
    {
      OnlyFirstPage(r, rows, workspace, k, limit, cursor, row.id);
      WaitingOnPageIsSeen(r, rows, workspace, k, limit, cursor, row);
    }
  }

  /**
   Where the hashes have no newer statuses than the table, that is so if and only if the column
   has at most `limit` rows below the cursor of the first request.
   */
  lemma MissWalkCompleteIff(r: Redis, rows: seq<Task>, workspace: nat, k: Column, limit: nat, cursor: Option<Uuid>)
    requires HashesOk(r.hashes) && PrimaryKey(rows) && V7Column(rows, workspace, k) && k !in r.zsets
    requires forall row :: row in rows && Matches(row, workspace, k.0, k.1, cursor) ==>
               Waiting(r, rows, workspace, k, cursor, row)
    ensures AllSeen(r, rows, workspace, k, cursor, MissWalk(r, rows, workspace, k, limit, cursor)) <==>
            |Selected(rows, workspace, k.0, k.1, cursor)| <= limit
  {
    MissWalkIff(r, rows, workspace, k, limit, cursor);
    AllOnPageIff(rows, workspace, k.0, k.1, limit, cursor);
    SelectedIs(rows, workspace, k.0, k.1, cursor);
  }

  /******* EXISTS, expiry, MULTI *******/

  /**
   After an addition whose column expired between EXISTS and MULTI, a walk over the column shows
   every task that waits in it if and only if there is no other than the added one.
   */
  lemma FragmentWalkIff(
    r: Redis, rows: seq<Task>, workspace: nat, t: Task, limit: nat, r': Redis)
    requires HashesOk(r.hashes) && IsV7(t.id) && (t.project, t.status) in r.zsets && limit > 0
    requires r' == Run(System(r, map[]), [AddCheck(0, t), ExpireColumn((t.project, t.status)), Exec(0)]).redis
    ensures var k := (t.project, t.status);
            && HashesOk(r'.hashes) && Present(r', k)
            && (AllSeen(r', rows, workspace, k, None, HitWalk(r', rows, workspace, k, limit, None)) <==>
                forall row :: Waiting(r', rows, workspace, k, None, row) ==> row.id == t.id)
  {
    var k := (t.project, t.status);
    ExpiryLeavesFragment(r, t);
    FragmentHashes(r, t);
    var z := r'.Zset(k);
    assert z == [Own(t.id)] && k in r'.zsets;
    var walk := HitWalk(r', rows, workspace, k, limit, None);
    forall row | Waiting(r', rows, workspace, k, None, row) ensures Seen(walk, row.id) <==> row.id == t.id {
      if Seen(walk, row.id) {
        var u :| u in walk && u.id == row.id;
        HitWalkShows(r', rows, workspace, k, limit, None, u);
      }
      if row.id == t.id {
        FragmentPage(t.id, limit);
        var ids := PageIds(z, limit, None);
        assert ids == [t.id] && t.id in ids;
        VisibleHas(r'.hashes, rows, workspace, k.1, ids, t.id);
        var u :| u in Shown(r', rows, workspace, k.0, k.1, limit, None) && u.id == t.id;
        assert u in walk;
      }
    }
  }

  lemma FragmentHashes(r: Redis, t: Task)
    requires HashesOk(r.hashes) && IsV7(t.id) && (t.project, t.status) in r.zsets
    ensures HashesOk(Run(System(r, map[]), [AddCheck(0, t), ExpireColumn((t.project, t.status)), Exec(0)]).redis.hashes)
  {
    var es := [AddCheck(0, t), ExpireColumn((t.project, t.status)), Exec(0)];
    var s0 := System(r, map[]);
    var none: seq<Event> := [];
    assert es[1..] == [es[1], es[2]] && [es[1], es[2]][1..] == [es[2]] && [es[2]][1..] == none;
    var s3 := Step(Step(Step(s0, es[0]), es[1]), es[2]);
    assert Run(Step(Step(s0, es[0]), es[1]), [es[2]]) == Run(s3, none) == s3;
    assert Run(s0, es) == Run(Step(s0, es[0]), [es[1], es[2]]) == s3;
  }

  lemma FragmentPage(id: Uuid, limit: nat)
    requires limit > 0 && IsV7(id)
    ensures PageIds([Own(id)], limit, None) == [id]
  {
    var z: ZSet := [Own(id)];
    EntryOrder();
    BelowKeeps(z, None);
    DescendingUnique(EntryLess, Below(z, None), z);
    BoundOnPage(z, None, limit);
  }
}
