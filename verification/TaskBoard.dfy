/**
 The board of a project: GetTasksByProject and UpdateTaskStatus of the task service, on top of
 the column cache and the `tasks` table.
 */
module TaskBoard {
  import opened Wrappers
  import opened Uuid
  import opened SortedSeq
  import opened ColumnCache
  import opened ColumnRuns
  import opened ColumnWalk
  import opened TaskViews
  import opened StatusMove
  import opened BoardMeaning

  /******* Showing a column *******/

  /** The ids of the page of a column: from its sorted set, or from the table. */
  function PageSource(
    r: Redis, rows: seq<Task>, workspace: nat, project: nat, status: string, limit: nat, cursor: Option<Uuid>
  ): seq<Uuid>
  {
    if (project, status) in r.zsets then PageIds(r.zsets[(project, status)], limit, cursor)
    else RowIds(DbPage(rows, workspace, project, status, limit, cursor))
  }

  lemma RowIdsHave(ts: seq<Task>)
    ensures forall t :: t in ts ==> t.id in RowIds(ts)
  {
    forall t | t in ts ensures t.id in RowIds(ts) {
      var i :| 0 <= i < |ts| && ts[i] == t;
      assert RowIds(ts)[i] == t.id;
    }
  }

  function Shown(
    r: Redis, rows: seq<Task>, workspace: nat, project: nat, status: string, limit: nat, cursor: Option<Uuid>
  ): seq<Task>
  {
    Visible(r.hashes, rows, workspace, status, PageSource(r, rows, workspace, project, status, limit, cursor))
  }

  /** The statuses that are asked for: all, or the valid ones among those given. */
  function FilterStatuses(statuses: seq<string>): seq<string> {
    if statuses == [] then STATUSES else Filter((st: string) => st in STATUSES, statuses)
  }

  /** The four statuses, or those of them that are given. */
  lemma FilterStatusesMean(statuses: seq<string>)
    ensures forall st :: st in FilterStatuses(statuses) <==>
              && (st == "TODO" || st == "IN_PROGRESS" || st == "REVIEW" || st == "DONE")
              && (statuses == [] || st in statuses)
    ensures statuses == [] || Distinct(statuses) ==> Distinct(FilterStatuses(statuses))
  {
    ColumnMeaning.FourStatuses();
    FilterMembers((st: string) => st in STATUSES, statuses);
    if statuses != [] && Distinct(statuses) {
      FilterDistinct((st: string) => st in STATUSES, statuses);
    }
  }

  lemma {:induction false} FilterDistinct(p: string -> bool, statuses: seq<string>)
    requires Distinct(statuses)
    ensures Distinct(Filter(p, statuses))
    decreases statuses
  {
    if statuses != [] {
      var first, rest := statuses[0], statuses[1..];
      assert forall i :: 0 <= i < |rest| ==> rest[i] == statuses[i + 1];
      FilterDistinct(p, rest);
      FilterMembers(p, rest);
      forall j | 0 <= j < |Filter(p, rest)| ensures Filter(p, rest)[j] != first {
        assert Filter(p, rest)[j] in rest;
        var i :| 0 <= i < |rest| && rest[i] == Filter(p, rest)[j];
        assert statuses[0] != statuses[i + 1];
      }
    }
  }

  ghost predicate Distinct(statuses: seq<string>) {
    forall i, j :: 0 <= i < j < |statuses| ==> statuses[i] != statuses[j]
  }

  /** `found` are the complete hashes of `ids`. */
  ghost predicate AreMetas(hashes: map<Uuid, Hash>, ids: seq<Uuid>, found: seq<Task>) {
    && (forall t :: t in found ==> Meta(hashes, t.id) == Some(t))
    && (forall id :: id in ids && Meta(hashes, id).Some? ==>
          Meta(hashes, id).value in found && Meta(hashes, id).value.id == id)
  }

  lemma {:induction false} FoundMetasAre(hashes: map<Uuid, Hash>, ids: seq<Uuid>)
    requires HashesOk(hashes)
    ensures AreMetas(hashes, ids, FoundMetas(hashes, ids))
    ensures forall id :: id in MissingMetas(hashes, ids) <==> id in ids && Meta(hashes, id).None?
    decreases ids
  {
    if ids != [] {
      FoundMetasAre(hashes, ids[1..]);
      assert ids == [ids[0]] + ids[1..];
    }
  }

  lemma {:induction false} ViewsOfRows(hashes: map<Uuid, Hash>, rows: seq<Task>, workspace: nat, page: seq<Task>)
    requires forall t :: t in page ==> View(hashes, rows, workspace, t.id) == Some(t)
    ensures Views(hashes, rows, workspace, RowIds(page)) == page
    decreases page
  {
    if page != [] {
      assert page[0] in page;
      ViewsOfRows(hashes, rows, workspace, page[1..]);
      assert RowIds(page)[1..] == RowIds(page[1..]);
    }
  }

  /** Where no hash is known, the rows themselves are shown. */
  lemma NoneCachedShowsRows(hashes: map<Uuid, Hash>, rows: seq<Task>, workspace: nat, status: string, page: seq<Task>)
    requires HashesOk(hashes) && FoundMetas(hashes, RowIds(page)) == []
    requires forall t :: t in page ==> t.status == status && FindByID(rows, workspace, t.id) == Some(t)
    ensures Visible(hashes, rows, workspace, status, RowIds(page)) == page
  {
    FoundMetasAre(hashes, RowIds(page));
    RowIdsHave(page);
    ViewsOfRows(hashes, rows, workspace, page);
    FilterAll((t: Task) => t.status == status, page);
  }

  /** What becomes of a row when cached metadata may override it. */
  function Override(cachedMap: map<Uuid, Task>, status: string, dt: Task): seq<Task> {
    if dt.id !in cachedMap then [dt]
    else if cachedMap[dt.id].status == status then [cachedMap[dt.id]] else []
  }

  lemma OverrideShowsView(
    h: map<Uuid, Hash>, rows: seq<Task>, workspace: nat, status: string, page: seq<Task>, cached: seq<Task>,
    cachedMap: map<Uuid, Task>)
    requires AreMetas(h, RowIds(page), cached)
    requires forall t :: t in page ==> t.status == status && FindByID(rows, workspace, t.id) == Some(t)
    requires forall id :: id in cachedMap ==> cachedMap[id] in cached && cachedMap[id].id == id
    requires forall t :: t in cached ==> t.id in cachedMap
    ensures forall t :: t in page ==> Override(cachedMap, status, t) == VisibleAt(h, rows, workspace, status, t.id)
  {
    RowIdsHave(page);
    forall t | t in page ensures Override(cachedMap, status, t) == VisibleAt(h, rows, workspace, status, t.id) {
      if t.id in cachedMap {
        assert Meta(h, t.id) == Some(cachedMap[t.id]);
      } else {
        assert Meta(h, t.id).None?;
      }
    }
  }

  /** What filling the columns `done` has done to the cache: nothing to any view, and nothing elsewhere. */
  ghost predicate CacheSoFar(r0: Redis, r: Redis, rows: seq<Task>, workspace: nat, project: nat, done: seq<string>) {
    && HashesOk(r.hashes) && SameViews(r0.hashes, r.hashes, rows, workspace)
    && forall k: Column :: k.0 != project || k.1 !in done ==>
         (k in r.zsets <==> k in r0.zsets) && r.Zset(k) == r0.Zset(k)
  }

  /** Every task shown has the status it is shown under, and is the effective view of its id. */
  ghost predicate Sound(h: map<Uuid, Hash>, rows: seq<Task>, workspace: nat, result: map<string, seq<Task>>) {
    forall st, t :: st in result && t in result[st] ==> t.status == st && View(h, rows, workspace, t.id) == Some(t)
  }

  /** No id is shown under two statuses. */
  ghost predicate NoIdTwice(result: map<string, seq<Task>>) {
    forall s, s', t, t' :: s in result && s' in result && s != s' && t in result[s] && t' in result[s'] ==>
      t.id != t'.id
  }

  /** Each column is the visible part of its page, with the cursor that follows the page. */
  ghost predicate Exact(
    r0: Redis, rows: seq<Task>, workspace: nat, project: nat, limit: nat, cursor: Option<Uuid>,
    result: map<string, seq<Task>>, nextCursors: map<string, Option<Uuid>>)
  {
    forall st :: st in result && st in nextCursors ==>
      && result[st] == Shown(r0, rows, workspace, project, st, limit, cursor)
      && nextCursors[st] == NextCursor(PageSource(r0, rows, workspace, project, st, limit, cursor), limit)
  }

  lemma SoundHasNoIdTwice(h: map<Uuid, Hash>, rows: seq<Task>, workspace: nat, result: map<string, seq<Task>>)
    requires Sound(h, rows, workspace, result)
    ensures NoIdTwice(result)
  {
  }

  lemma DistinctFront(done: seq<string>, st: string)
    requires Distinct(done + [st])
    ensures Distinct(done) && st !in done
  {
    forall i, j | 0 <= i < j < |done| ensures done[i] != done[j] {
      assert (done + [st])[i] != (done + [st])[j];
    }
    forall i | 0 <= i < |done| ensures done[i] != st {
      assert (done + [st])[i] != (done + [st])[|done|];
    }
  }

  /** What a column shows depends on its own sorted set and on the effective views only. */
  lemma ShownSame(
    r0: Redis, r: Redis, rows: seq<Task>, workspace: nat, project: nat, st: string, limit: nat, cursor: Option<Uuid>)
    requires SameViews(r0.hashes, r.hashes, rows, workspace)
    requires (project, st) in r.zsets <==> (project, st) in r0.zsets
    requires r.Zset((project, st)) == r0.Zset((project, st))
    ensures PageSource(r, rows, workspace, project, st, limit, cursor)
         == PageSource(r0, rows, workspace, project, st, limit, cursor)
    ensures Shown(r, rows, workspace, project, st, limit, cursor)
         == Shown(r0, rows, workspace, project, st, limit, cursor)
  {
    ViewsSame(r0.hashes, r.hashes, rows, workspace, PageSource(r0, rows, workspace, project, st, limit, cursor));
  }

  lemma ShownMembers(
    r: Redis, rows: seq<Task>, workspace: nat, project: nat, st: string, limit: nat, cursor: Option<Uuid>)
    requires HashesOk(r.hashes)
    ensures forall t :: t in Shown(r, rows, workspace, project, st, limit, cursor) ==>
              t.status == st && View(r.hashes, rows, workspace, t.id) == Some(t)
  {
    forall t | t in Shown(r, rows, workspace, project, st, limit, cursor)
      ensures t.status == st && View(r.hashes, rows, workspace, t.id) == Some(t)
    {
      VisibleMembers(r.hashes, rows, workspace, st, PageSource(r, rows, workspace, project, st, limit, cursor), t);
    }
  }

  /** What processing one column does to the cache. */
  ghost predicate ColumnStep(r: Redis, r': Redis, rows: seq<Task>, workspace: nat, key: Column) {
    && HashesOk(r'.hashes) && SameViews(r.hashes, r'.hashes, rows, workspace)
    && forall k: Column :: k != key ==> (k in r'.zsets <==> k in r.zsets) && r'.Zset(k) == r.Zset(k)
  }

  lemma CacheGrows(
    r0: Redis, r: Redis, r': Redis, rows: seq<Task>, workspace: nat, project: nat, done: seq<string>, st: string)
    requires CacheSoFar(r0, r, rows, workspace, project, done)
    requires ColumnStep(r, r', rows, workspace, (project, st))
    ensures CacheSoFar(r0, r', rows, workspace, project, done + [st])
  {
    forall id ensures View(r'.hashes, rows, workspace, id) == View(r0.hashes, rows, workspace, id) {
      assert View(r.hashes, rows, workspace, id) == View(r0.hashes, rows, workspace, id);
    }
    forall k: Column | k.0 != project || k.1 !in done + [st]
      ensures (k in r'.zsets <==> k in r0.zsets) && r'.Zset(k) == r0.Zset(k)
    {
      assert st in done + [st] && forall x :: x in done ==> x in done + [st];
      assert k != (project, st);
    }
  }

  lemma {:induction false} SoundGrows(
    r0: Redis, r: Redis, rows: seq<Task>, workspace: nat, project: nat, limit: nat, cursor: Option<Uuid>,
    done: seq<string>, result: map<string, seq<Task>>, st: string)
    requires CacheSoFar(r0, r, rows, workspace, project, done) && Sound(r0.hashes, rows, workspace, result)
    ensures Sound(r0.hashes, rows, workspace, result[st := Shown(r, rows, workspace, project, st, limit, cursor)])
  {
    var shown := Shown(r, rows, workspace, project, st, limit, cursor);
    ShownMembers(r, rows, workspace, project, st, limit, cursor);
    forall t | t in shown ensures t.status == st && View(r0.hashes, rows, workspace, t.id) == Some(t) {
      assert View(r.hashes, rows, workspace, t.id) == View(r0.hashes, rows, workspace, t.id);
    }
    SoundWith(r0.hashes, rows, workspace, result, st, shown);
  }

  lemma SoundWith(
    h: map<Uuid, Hash>, rows: seq<Task>, workspace: nat, result: map<string, seq<Task>>, st: string, shown: seq<Task>)
    requires Sound(h, rows, workspace, result)
    requires forall t :: t in shown ==> t.status == st && View(h, rows, workspace, t.id) == Some(t)
    ensures Sound(h, rows, workspace, result[st := shown])
  {
  }

  lemma ExactWith(
    r0: Redis, rows: seq<Task>, workspace: nat, project: nat, limit: nat, cursor: Option<Uuid>,
    result: map<string, seq<Task>>, nextCursors: map<string, Option<Uuid>>,
    st: string, shown: seq<Task>, next: Option<Uuid>)
    requires Exact(r0, rows, workspace, project, limit, cursor, result, nextCursors)
    requires shown == Shown(r0, rows, workspace, project, st, limit, cursor)
    requires next == NextCursor(PageSource(r0, rows, workspace, project, st, limit, cursor), limit)
    ensures Exact(r0, rows, workspace, project, limit, cursor, result[st := shown], nextCursors[st := next])
  {
  }

  lemma ExactGrows(
    r0: Redis, r: Redis, rows: seq<Task>, workspace: nat, project: nat, limit: nat, cursor: Option<Uuid>,
    done: seq<string>, result: map<string, seq<Task>>, nextCursors: map<string, Option<Uuid>>, st: string)
    requires CacheSoFar(r0, r, rows, workspace, project, done) && Distinct(done + [st])
    requires Distinct(done) ==> Exact(r0, rows, workspace, project, limit, cursor, result, nextCursors)
    ensures Exact(r0, rows, workspace, project, limit, cursor,
                  result[st := Shown(r, rows, workspace, project, st, limit, cursor)],
                  nextCursors[st := NextCursor(PageSource(r, rows, workspace, project, st, limit, cursor), limit)])
  {
    DistinctFront(done, st);
    ShownSame(r0, r, rows, workspace, project, st, limit, cursor);
    ExactWith(r0, rows, workspace, project, limit, cursor, result, nextCursors, st,
              Shown(r, rows, workspace, project, st, limit, cursor),
              NextCursor(PageSource(r, rows, workspace, project, st, limit, cursor), limit));
  }

  /** The cache after a column was shown: loaded on a miss, with missing hashes set on a hit. */
  function AfterShow(
    r: Redis, rows: seq<Task>, workspace: nat, project: nat, st: string, limit: nat, cursor: Option<Uuid>
  ): Redis
  {
    if (project, st) in r.zsets then
      Repaired(r, rows, workspace, MissingMetas(r.hashes, PageSource(r, rows, workspace, project, st, limit, cursor)))
    else SetColumnExec(r, (project, st), Shown(r, rows, workspace, project, st, limit, cursor))
  }

  /** Showing a column changes no view, and no other column; on a hit not even this one. */
  lemma AfterShowKeeps(
    r: Redis, rows: seq<Task>, workspace: nat, project: nat, st: string, limit: nat, cursor: Option<Uuid>)
    requires HashesOk(r.hashes)
    ensures ColumnStep(r, AfterShow(r, rows, workspace, project, st, limit, cursor), rows, workspace, (project, st))
    ensures (project, st) in r.zsets ==> AfterShow(r, rows, workspace, project, st, limit, cursor).zsets == r.zsets
  {
    var ids := PageSource(r, rows, workspace, project, st, limit, cursor);
    if (project, st) in r.zsets {
      FoundMetasAre(r.hashes, ids);
      RepairedKeeps(r, rows, workspace, MissingMetas(r.hashes, ids));
    } else {
      var shown := Shown(r, rows, workspace, project, st, limit, cursor);
      ShownMembers(r, rows, workspace, project, st, limit, cursor);
      HSetAllKeepsViews(r, shown, rows, workspace);
      HSetAllKeepsZsets(r, shown);
    }
  }

  /** The board after the columns `done`. */
  ghost predicate BoardSoFar(
    r0: Redis, r: Redis, rows: seq<Task>, workspace: nat, project: nat, limit: nat, cursor: Option<Uuid>,
    done: seq<string>, result: map<string, seq<Task>>, nextCursors: map<string, Option<Uuid>>)
  {
    && (forall st :: st in result <==> st in done) && nextCursors.Keys == result.Keys
    && CacheSoFar(r0, r, rows, workspace, project, done)
    && Sound(r0.hashes, rows, workspace, result)
    && (Distinct(done) ==> Exact(r0, rows, workspace, project, limit, cursor, result, nextCursors))
  }

  lemma BoardStarts(r: Redis, rows: seq<Task>, workspace: nat, project: nat, limit: nat, cursor: Option<Uuid>)
    requires HashesOk(r.hashes)
    ensures BoardSoFar(r, r, rows, workspace, project, limit, cursor, [], map[], map[])
  {
  }

  /** One column more. */
  lemma BoardGrows(
    r0: Redis, r: Redis, r': Redis, rows: seq<Task>, workspace: nat, project: nat, limit: nat, cursor: Option<Uuid>,
    done: seq<string>, result: map<string, seq<Task>>, nextCursors: map<string, Option<Uuid>>,
    st: string, shown: seq<Task>, next: Option<Uuid>)
    requires BoardSoFar(r0, r, rows, workspace, project, limit, cursor, done, result, nextCursors)
    requires ColumnStep(r, r', rows, workspace, (project, st))
    requires shown == Shown(r, rows, workspace, project, st, limit, cursor)
    requires next == NextCursor(PageSource(r, rows, workspace, project, st, limit, cursor), limit)
    ensures BoardSoFar(r0, r', rows, workspace, project, limit, cursor, done + [st],
                       result[st := shown], nextCursors[st := next])
  {
    CacheGrows(r0, r, r', rows, workspace, project, done, st);
    SoundGrows(r0, r, rows, workspace, project, limit, cursor, done, result, st);
    if Distinct(done + [st]) {
      ExactGrows(r0, r, rows, workspace, project, limit, cursor, done, result, nextCursors, st);
    }
    forall x ensures x in result[st := shown] <==> x in done + [st] {
    }
  }

  /** What the board shows, in terms of rows and hashes. */
  ghost predicate BoardMeans(
    r0: Redis, r: Redis, rows: seq<Task>, workspace: nat, project: nat, limit: nat, cursor: Option<Uuid>,
    result: map<string, seq<Task>>, nextCursors: map<string, Option<Uuid>>, distinct: bool)
    requires nextCursors.Keys == result.Keys
  {
    && (forall st, t :: st in result && t in result[st] ==>
          t.status == st && Sees(r0.hashes, rows, workspace, t.id, t))
    && (forall id, t :: Sees(r.hashes, rows, workspace, id, t) <==> Sees(r0.hashes, rows, workspace, id, t))
    && (forall k: Column :: k.0 != project || k.1 !in result ==>
          (k in r.zsets <==> k in r0.zsets) && (k in r.zsets ==> r.zsets[k] == r0.zsets[k]))
    && (distinct ==> forall st :: st in result ==>
          && ((project, st) !in r0.zsets ==>
                ShowsQuery(result[st], nextCursors[st], r0.hashes, rows, workspace, project, st, limit, cursor))
          && ((project, st) in r0.zsets && ColumnOk(r0.zsets[(project, st)]) ==>
                ShowsSortedSet(result[st], nextCursors[st], r0.hashes, rows, workspace, r0.zsets[(project, st)],
                               st, limit, cursor)))
  }

  lemma NextMeans(ids: seq<Uuid>, limit: nat)
    requires limit > 0
    ensures IsNext(NextCursor(ids, limit), ids, limit)
  {
  }

  lemma ColumnShows(
    r0: Redis, rows: seq<Task>, workspace: nat, project: nat, limit: nat, cursor: Option<Uuid>, st: string,
    shown: seq<Task>, next: Option<Uuid>)
    requires limit > 0 && PrimaryKey(rows)
    requires shown == Shown(r0, rows, workspace, project, st, limit, cursor)
    requires next == NextCursor(PageSource(r0, rows, workspace, project, st, limit, cursor), limit)
    ensures (project, st) !in r0.zsets ==>
              ShowsQuery(shown, next, r0.hashes, rows, workspace, project, st, limit, cursor)
    ensures (project, st) in r0.zsets && ColumnOk(r0.zsets[(project, st)]) ==>
              ShowsSortedSet(shown, next, r0.hashes, rows, workspace, r0.zsets[(project, st)], st, limit, cursor)
  {
    NextMeans(PageSource(r0, rows, workspace, project, st, limit, cursor), limit);
    if (project, st) !in r0.zsets {
      ShowsQueryMeans(r0.hashes, rows, workspace, project, st, limit, cursor, next);
    } else if ColumnOk(r0.zsets[(project, st)]) {
      ShowsSortedSetMeans(r0.hashes, rows, workspace, r0.zsets[(project, st)], st, limit, cursor, next);
    }
  }

  lemma ViewsMean(r0: Redis, r: Redis, rows: seq<Task>, workspace: nat)
    requires PrimaryKey(rows) && SameViews(r0.hashes, r.hashes, rows, workspace)
    ensures forall id, t :: Sees(r.hashes, rows, workspace, id, t) <==> Sees(r0.hashes, rows, workspace, id, t)
  {
    forall id, t ensures Sees(r.hashes, rows, workspace, id, t) <==> Sees(r0.hashes, rows, workspace, id, t) {
      ViewMeans(r0.hashes, rows, workspace, id);
      ViewMeans(r.hashes, rows, workspace, id);
      assert View(r.hashes, rows, workspace, id) == View(r0.hashes, rows, workspace, id);
    }
  }

  lemma SoundMeans(h: map<Uuid, Hash>, rows: seq<Task>, workspace: nat, result: map<string, seq<Task>>)
    requires PrimaryKey(rows) && Sound(h, rows, workspace, result)
    ensures forall st, t :: st in result && t in result[st] ==> t.status == st && Sees(h, rows, workspace, t.id, t)
  {
    forall st, t | st in result && t in result[st] ensures t.status == st && Sees(h, rows, workspace, t.id, t) {
      ViewMeans(h, rows, workspace, t.id);
    }
  }

  lemma BoardIsMeant(
    r0: Redis, r: Redis, rows: seq<Task>, workspace: nat, project: nat, limit: nat, cursor: Option<Uuid>,
    done: seq<string>, result: map<string, seq<Task>>, nextCursors: map<string, Option<Uuid>>)
    requires limit > 0 && PrimaryKey(rows)
    requires BoardSoFar(r0, r, rows, workspace, project, limit, cursor, done, result, nextCursors)
    ensures BoardMeans(r0, r, rows, workspace, project, limit, cursor, result, nextCursors, Distinct(done))
  {
    SoundMeans(r0.hashes, rows, workspace, result);
    ViewsMean(r0, r, rows, workspace);
    forall k: Column | k.0 != project || k.1 !in result
      ensures (k in r.zsets <==> k in r0.zsets) && (k in r.zsets ==> r.zsets[k] == r0.zsets[k])
    {
      assert r.Zset(k) == r0.Zset(k);
    }
    if Distinct(done) {
      forall st | st in result
        ensures (project, st) !in r0.zsets ==>
                  ShowsQuery(result[st], nextCursors[st], r0.hashes, rows, workspace, project, st, limit, cursor)
        ensures (project, st) in r0.zsets && ColumnOk(r0.zsets[(project, st)]) ==>
                  ShowsSortedSet(result[st], nextCursors[st], r0.hashes, rows, workspace, r0.zsets[(project, st)],
                                 st, limit, cursor)
      {
        ColumnShows(r0, rows, workspace, project, limit, cursor, st, result[st], nextCursors[st]);
      }
    }
  }

  class TaskService {
    const cache: TaskCache
    var rows: seq<Task>

    constructor (cache: TaskCache, rows: seq<Task>)
      ensures this.cache == cache && this.rows == rows
    {
      this.cache := cache;
      this.rows := rows;
    }

    /** A column that is not cached: the page of the table, corrected by the hashes, and cached. */
    method ShowFromTable(workspace: nat, project: nat, st: string, limit: nat, cursor: Option<Uuid>)
      returns (filteredTasks: seq<Task>, next: Option<Uuid>)
      requires limit > 0 && PrimaryKey(rows) && HashesOk(cache.redis.hashes)
      modifies cache
      ensures var ids := RowIds(DbPage(rows, workspace, project, st, limit, cursor));
              && filteredTasks == Visible(old(cache.redis).hashes, rows, workspace, st, ids)
              && next == NextCursor(ids, limit)
      ensures cache.redis == SetColumnExec(old(cache.redis), (project, st), filteredTasks)
    {
      var dbTasks := DbPage(rows, workspace, project, st, limit, cursor);
      DbPageSize(rows, workspace, project, st, limit, cursor);
      DbPageRows(rows, workspace, project, st, limit, cursor);
      filteredTasks := CorrectPage(workspace, st, dbTasks);
      cache.SetColumnCache(project, st, filteredTasks);
      next := if |dbTasks| == limit then Some(dbTasks[|dbTasks| - 1].id) else None;
    }

    /** Cached metadata overrides the rows of a page. */
    method CorrectPage(workspace: nat, st: string, dbTasks: seq<Task>) returns (filteredTasks: seq<Task>)
      requires HashesOk(cache.redis.hashes)
      requires forall t :: t in dbTasks ==> t.status == st && FindByID(rows, workspace, t.id) == Some(t)
      ensures filteredTasks == Visible(cache.redis.hashes, rows, workspace, st, RowIds(dbTasks))
    {
      filteredTasks := [];
      if |dbTasks| > 0 {
        var dbTaskIDs := RowIds(dbTasks);
        var cachedTasks, _ := cache.GetTaskMetas(dbTaskIDs);
        if |cachedTasks| > 0 {
          FoundMetasAre(cache.redis.hashes, dbTaskIDs);
          filteredTasks := Corrected(workspace, st, dbTasks, cachedTasks, cache.redis.hashes);
        } else {
          NoneCachedShowsRows(cache.redis.hashes, rows, workspace, st, dbTasks);
          filteredTasks := dbTasks;
        }
      }
    }

    /** The loop that indexes cached tasks by their ids. */
    method MapById(cachedTasks: seq<Task>) returns (cachedMap: map<Uuid, Task>)
      ensures forall id :: id in cachedMap ==> cachedMap[id] in cachedTasks && cachedMap[id].id == id
      ensures forall t :: t in cachedTasks ==> t.id in cachedMap
    {
      cachedMap := map[];
      for i := 0 to |cachedTasks|
        invariant forall id :: id in cachedMap ==> cachedMap[id] in cachedTasks && cachedMap[id].id == id
        invariant forall j :: 0 <= j < i ==> cachedTasks[j].id in cachedMap
      {
        cachedMap := cachedMap[cachedTasks[i].id := cachedTasks[i]];
      }
    }

    /** The loops that let cached metadata override the rows of a page. */
    method Corrected(workspace: nat, st: string, dbTasks: seq<Task>, cachedTasks: seq<Task>, ghost h: map<Uuid, Hash>)
      returns (filteredTasks: seq<Task>)
      requires AreMetas(h, RowIds(dbTasks), cachedTasks)
      requires forall t :: t in dbTasks ==> t.status == st && FindByID(rows, workspace, t.id) == Some(t)
      ensures filteredTasks == Visible(h, rows, workspace, st, RowIds(dbTasks))
    {
      var cachedMap := MapById(cachedTasks);
      OverrideShowsView(h, rows, workspace, st, dbTasks, cachedTasks, cachedMap);
      filteredTasks := [];
      for i := 0 to |dbTasks|
        invariant filteredTasks == Visible(h, rows, workspace, st, RowIds(dbTasks[..i]))
      {
        var dt := dbTasks[i];
        assert dt in dbTasks;
        VisibleRowAdd(h, rows, workspace, st, dbTasks, i);
        if dt.id in cachedMap {
          var ct := cachedMap[dt.id];
          if ct.status == st {
            filteredTasks := filteredTasks + [ct];
          }
        } else {
          filteredTasks := filteredTasks + [dt];
        }
      }
      assert dbTasks[..|dbTasks|] == dbTasks;
    }

    /** The loop that reads the tasks whose hash is missing, and caches them. */
    method LoadMissing(workspace: nat, missingIDs: seq<Uuid>) returns (missingTasksMap: map<Uuid, Task>)
      modifies cache
      ensures forall id :: id in missingTasksMap ==> FindByID(rows, workspace, id) == Some(missingTasksMap[id])
      ensures forall id :: id in missingIDs && FindByID(rows, workspace, id).Some? ==> id in missingTasksMap
      ensures cache.redis == Repaired(old(cache.redis), rows, workspace, missingIDs)
    {
      ghost var r := cache.redis;
      missingTasksMap := map[];
      assert missingIDs[..0] == [];
      for i := 0 to |missingIDs|
        invariant forall id :: id in missingTasksMap ==> FindByID(rows, workspace, id) == Some(missingTasksMap[id])
        invariant forall j :: 0 <= j < i && FindByID(rows, workspace, missingIDs[j]).Some? ==>
                    missingIDs[j] in missingTasksMap
        invariant cache.redis == Repaired(r, rows, workspace, missingIDs[..i])
      {
        var id := missingIDs[i];
        var dbTask := FindByID(rows, workspace, id);
        assert missingIDs[..i + 1] == missingIDs[..i] + [id];
        RepairedAdd(r, rows, workspace, missingIDs[..i], id);
        if dbTask.Some? {
          missingTasksMap := missingTasksMap[id := dbTask.value];
          cache.SetTaskMeta(dbTask.value);
        }
      }
      assert missingIDs[..|missingIDs|] == missingIDs;
    }

    /** A cached column: its ids in order, each by its hash or else by its row. */
    method ShowFromCache(workspace: nat, st: string, taskIDs: seq<Uuid>)
      returns (filteredOrderedTasks: seq<Task>)
      requires HashesOk(cache.redis.hashes)
      modifies cache
      ensures filteredOrderedTasks == Visible(old(cache.redis).hashes, rows, workspace, st, taskIDs)
      ensures cache.redis == Repaired(old(cache.redis), rows, workspace, MissingMetas(old(cache.redis).hashes, taskIDs))
    {
      ghost var h := cache.redis.hashes;
      var cachedTasks, missingIDs := cache.GetTaskMetas(taskIDs);
      FoundMetasAre(h, taskIDs);
      var orderedTasks: seq<Task>;
      if |missingIDs| > 0 {
        var missingTasksMap := LoadMissing(workspace, missingIDs);
        orderedTasks := InOrder(workspace, taskIDs, cachedTasks, missingTasksMap, h);
      } else {
        orderedTasks := FromMetas(workspace, taskIDs, cachedTasks, h);
      }
      filteredOrderedTasks := OnlyStatus(st, orderedTasks);
    }

    /** The loop that drops tasks whose cached metadata has another status. */
    method OnlyStatus(st: string, orderedTasks: seq<Task>) returns (filteredOrderedTasks: seq<Task>)
      ensures filteredOrderedTasks == WithStatus(st, orderedTasks)
    {
      filteredOrderedTasks := [];
      assert orderedTasks[..0] == [];
      for i := 0 to |orderedTasks|
        invariant filteredOrderedTasks == WithStatus(st, orderedTasks[..i])
      {
        assert orderedTasks[..i + 1] == orderedTasks[..i] + [orderedTasks[i]];
        WithStatusAdd(st, orderedTasks[..i], orderedTasks[i]);
        if orderedTasks[i].status == st {
          filteredOrderedTasks := filteredOrderedTasks + [orderedTasks[i]];
        }
      }
      assert orderedTasks[..|orderedTasks|] == orderedTasks;
    }

    /** The inner loop of the search for a cached task. */
    method SearchCached(cachedTasks: seq<Task>, id: Uuid) returns (ct: Option<Task>)
      ensures ct.Some? ==> ct.value in cachedTasks && ct.value.id == id
      ensures ct.None? ==> forall t :: t in cachedTasks ==> t.id != id
    {
      for j := 0 to |cachedTasks|
        invariant forall l :: 0 <= l < j ==> cachedTasks[l].id != id
      {
        if cachedTasks[j].id == id {
          return Some(cachedTasks[j]);
        }
      }
      ct := None;
    }

    /** For each id the cached task of that id, searched for, or else the loaded row. */
    method InOrder(
      workspace: nat, taskIDs: seq<Uuid>, cachedTasks: seq<Task>, missingTasksMap: map<Uuid, Task>,
      ghost h: map<Uuid, Hash>)
      returns (orderedTasks: seq<Task>)
      requires AreMetas(h, taskIDs, cachedTasks)
      requires forall id :: id in missingTasksMap ==> FindByID(rows, workspace, id) == Some(missingTasksMap[id])
      requires forall id :: id in taskIDs && Meta(h, id).None? && FindByID(rows, workspace, id).Some? ==>
                 id in missingTasksMap
      ensures orderedTasks == Views(h, rows, workspace, taskIDs)
    {
      orderedTasks := [];
      assert taskIDs[..0] == [];
      for i := 0 to |taskIDs|
        invariant orderedTasks == Views(h, rows, workspace, taskIDs[..i])
      {
        var id := taskIDs[i];
        assert taskIDs[..i + 1] == taskIDs[..i] + [id];
        ViewsAdd(h, rows, workspace, taskIDs[..i], id);
        assert id in taskIDs;
        var ct := SearchCached(cachedTasks, id);
        if ct.Some? {
          orderedTasks := orderedTasks + [ct.value];
        } else if id in missingTasksMap {
          orderedTasks := orderedTasks + [missingTasksMap[id]];
        }
      }
      assert taskIDs[..|taskIDs|] == taskIDs;
    }

    /** When every hash is there, a map from the ids serves. */
    method FromMetas(workspace: nat, taskIDs: seq<Uuid>, cachedTasks: seq<Task>, ghost h: map<Uuid, Hash>)
      returns (orderedTasks: seq<Task>)
      requires AreMetas(h, taskIDs, cachedTasks) && forall id :: id in taskIDs ==> Meta(h, id).Some?
      ensures orderedTasks == Views(h, rows, workspace, taskIDs)
    {
      var taskMap := MapById(cachedTasks);
      orderedTasks := [];
      assert taskIDs[..0] == [];
      for i := 0 to |taskIDs|
        invariant orderedTasks == Views(h, rows, workspace, taskIDs[..i])
      {
        var id := taskIDs[i];
        assert taskIDs[..i + 1] == taskIDs[..i] + [id];
        ViewsAdd(h, rows, workspace, taskIDs[..i], id);
        assert id in taskIDs;
        orderedTasks := orderedTasks + [taskMap[id]];
      }
      assert taskIDs[..|taskIDs|] == taskIDs;
    }

    /** One column of the board. */
    method ShowColumn(workspace: nat, project: nat, st: string, limit: nat, cursor: Option<Uuid>)
      returns (shown: seq<Task>, next: Option<Uuid>)
      requires limit > 0 && PrimaryKey(rows) && HashesOk(cache.redis.hashes)
      modifies cache
      ensures shown == Shown(old(cache.redis), rows, workspace, project, st, limit, cursor)
      ensures next == NextCursor(PageSource(old(cache.redis), rows, workspace, project, st, limit, cursor), limit)
      ensures cache.redis == AfterShow(old(cache.redis), rows, workspace, project, st, limit, cursor)
    {
      var taskIDs := cache.GetTaskIDs(project, st, limit, cursor);
      if taskIDs.None? {
        shown, next := ShowFromTable(workspace, project, st, limit, cursor);
      } else if |taskIDs.value| == 0 {
        shown, next := [], None;
      } else {
        shown := ShowFromCache(workspace, st, taskIDs.value);
        next := if |taskIDs.value| == limit then Some(taskIDs.value[|taskIDs.value| - 1]) else None;
      }
    }

    /**
     GetTasksByProject behind its access check.  Every task shown under a status has that status
     and is what is to be seen of its id, no id is shown under two statuses, and the writes into the
     cache change nothing that is to be seen.  For distinct statuses, a column that is not cached
     shows the newest rows of the table below the cursor, and a cached one its greatest ids.
     */
    method GetTasksByProject(workspace: nat, project: nat, statuses: seq<string>, limit: nat, cursor: Option<Uuid>)
      returns (result: map<string, seq<Task>>, nextCursors: map<string, Option<Uuid>>)
      requires limit > 0 && PrimaryKey(rows) && HashesOk(cache.redis.hashes)
      modifies cache
      ensures forall st :: st in result <==>
                && (st == "TODO" || st == "IN_PROGRESS" || st == "REVIEW" || st == "DONE")
                && (statuses == [] || st in statuses)
      ensures nextCursors.Keys == result.Keys
      ensures NoIdTwice(result)
      ensures BoardMeans(old(cache.redis), cache.redis, rows, workspace, project, limit, cursor, result, nextCursors,
                         statuses == [] || Distinct(statuses))
      ensures BoardSoFar(old(cache.redis), cache.redis, rows, workspace, project, limit, cursor,
                         FilterStatuses(statuses), result, nextCursors)
    {
      result, nextCursors := FillColumns(workspace, project, FilterStatuses(statuses), limit, cursor);
      FilterStatusesMean(statuses);
      SoundHasNoIdTwice(old(cache.redis).hashes, rows, workspace, result);
      BoardIsMeant(old(cache.redis), cache.redis, rows, workspace, project, limit, cursor,
                   FilterStatuses(statuses), result, nextCursors);
    }

    /** The loop over the columns. */
    method FillColumns(workspace: nat, project: nat, filterStatuses: seq<string>, limit: nat, cursor: Option<Uuid>)
      returns (result: map<string, seq<Task>>, nextCursors: map<string, Option<Uuid>>)
      requires limit > 0 && PrimaryKey(rows) && HashesOk(cache.redis.hashes)
      modifies cache
      ensures BoardSoFar(old(cache.redis), cache.redis, rows, workspace, project, limit, cursor,
                         filterStatuses, result, nextCursors)
    {
      ghost var r := cache.redis;
      result, nextCursors := map[], map[];
      BoardStarts(r, rows, workspace, project, limit, cursor);
      assert filterStatuses[..0] == [];
      for i := 0 to |filterStatuses|
        invariant BoardSoFar(r, cache.redis, rows, workspace, project, limit, cursor,
                             filterStatuses[..i], result, nextCursors)
      {
        result, nextCursors := FillColumn(workspace, project, filterStatuses[i], limit, cursor,
                                          r, filterStatuses[..i], result, nextCursors);
        assert filterStatuses[..i + 1] == filterStatuses[..i] + [filterStatuses[i]];
      }
      assert filterStatuses[..|filterStatuses|] == filterStatuses;
    }

    /** The body of that loop. */
    method FillColumn(
      workspace: nat, project: nat, st: string, limit: nat, cursor: Option<Uuid>,
      ghost r0: Redis, ghost done: seq<string>, result: map<string, seq<Task>>, nextCursors: map<string, Option<Uuid>>)
      returns (result': map<string, seq<Task>>, nextCursors': map<string, Option<Uuid>>)
      requires limit > 0 && PrimaryKey(rows)
      requires BoardSoFar(r0, cache.redis, rows, workspace, project, limit, cursor, done, result, nextCursors)
      modifies cache
      ensures BoardSoFar(r0, cache.redis, rows, workspace, project, limit, cursor, done + [st], result', nextCursors')
    {
      ghost var before := cache.redis;
      AfterShowKeeps(cache.redis, rows, workspace, project, st, limit, cursor);
      var shown, next := ShowColumn(workspace, project, st, limit, cursor);
      result', nextCursors' := result[st := shown], nextCursors[st := next];
      BoardGrows(r0, before, cache.redis, rows, workspace, project, limit, cursor,
                 done, result, nextCursors, st, shown, next);
    }

    /**
     getTaskByID: the cached task if its hash is complete and of the workspace, and else the row,
     which is then cached.
     */
    method GetTaskByID(workspace: nat, id: Uuid) returns (t: Option<Task>)
      requires HashesOk(cache.redis.hashes)
      modifies cache
      ensures var h := old(cache.redis).hashes;
              if id in h && h[id].Full? && h[id].task.workspace == workspace
              then t == Some(h[id].task) && cache.redis == old(cache.redis)
              else
                && (t.Some? ==> t.value in rows && t.value.id == id && t.value.workspace == workspace
                                && cache.redis == old(cache.redis).(hashes := h[id := Full(t.value)]))
                && (t.None? <==> forall row :: row in rows ==> row.id != id || row.workspace != workspace)
                && (t.None? ==> cache.redis == old(cache.redis))
      ensures t == LocalTask(old(cache.redis).hashes, rows, workspace, id)
      ensures cache.redis == LookedUp(old(cache.redis), rows, workspace, id)
    {
      var tasks, missingIDs := cache.GetTaskMetas([id]);
      OneMeta(cache.redis.hashes, id);
      if |missingIDs| == 0 && |tasks| > 0 {
        if tasks[0].workspace == workspace {
          return Some(tasks[0]);
        }
      }
      FindByIDFirst(rows, workspace, id);
      t := FindByID(rows, workspace, id);
      if t.Some? {
        cache.SetTaskMeta(t.value);
      }
    }

    /**
     UpdateTaskStatus.  `allowed` is the outcome of the assignee and access check, `published`
     that of the Kafka write.  The task is the one that getTaskByID finds; only a published update
     moves it, from the status that is recorded there.
     */
    method UpdateTaskStatus(workspace: nat, taskID: Uuid, status: string, allowed: bool, published: bool)
      returns (outcome: UpdateOutcome)
      requires HashesOk(cache.redis.hashes)
      modifies cache
      ensures outcome == NotFound <==>
              forall t :: !IsLocal(old(cache.redis).hashes, rows, workspace, taskID, t)
      ensures outcome != NotFound ==>
                outcome == if !allowed then Forbidden else if !published then Unavailable else Updated
      ensures outcome == NotFound ==> cache.redis == old(cache.redis)
      ensures outcome == Forbidden || outcome == Unavailable ==>
                && cache.redis.zsets == old(cache.redis).zsets
                && exists t :: IsLocal(old(cache.redis).hashes, rows, workspace, taskID, t)
                               && cache.redis.hashes == old(cache.redis).hashes[taskID := Full(t)]
      ensures outcome == Updated && PrimaryKey(rows) && RedisOk(old(cache.redis)) && IsV7(taskID) ==>
                exists t :: && IsLocal(old(cache.redis).hashes, rows, workspace, taskID, t)
                            && HasMoved(old(cache.redis), cache.redis, rows, workspace, taskID, t, status)
      ensures outcome == NotFound <==> LocalTask(old(cache.redis).hashes, rows, workspace, taskID).None?
      ensures cache.redis ==
              if outcome == Updated then StatusUpdated(old(cache.redis), rows, workspace, taskID, status)
              else LookedUp(old(cache.redis), rows, workspace, taskID)
    {
      FindByIDFirst(rows, workspace, taskID);
      LocalIsLocal(cache.redis.hashes, rows, workspace, taskID);
      var t := GetTaskByID(workspace, taskID);
      if t.None? {
        return NotFound;
      }
      if !allowed {
        return Forbidden;
      }
      if !published {
        return Unavailable;
      }
      var column := cache.GetTaskIDs(t.value.project, status, 1, None);
      if column.None? {
        var dbTasks := DbPage(rows, workspace, t.value.project, status, 100, None);
        cache.SetColumnCache(t.value.project, status, dbTasks);
      }
      var _ := cache.UpdateTaskStatus(t.value.project, taskID, t.value.status, status);
      outcome := Updated;
      if PrimaryKey(rows) && RedisOk(old(cache.redis)) && IsV7(taskID) {
        MoveIsMeant(old(cache.redis), rows, workspace, taskID, t.value, status);
      }
    }
  }
}
