/**
 Moving a task to another column: what UpdateTaskStatus of the service does to the cache when
 nothing interferes, as a function of the state, and what this achieves.
 */
module StatusMove {
  import opened Wrappers
  import opened Uuid
  import opened SortedSeq
  import opened ColumnCache
  import opened ColumnRuns
  import opened TaskViews

  datatype UpdateOutcome = NotFound | Forbidden | Unavailable | Updated

  /** What getTaskByID finds: the cached task, unless it is of another workspace, or else the row. */
  function LocalTask(hashes: map<Uuid, Hash>, rows: seq<Task>, workspace: nat, id: Uuid): Option<Task> {
    var t := Meta(hashes, id);
    if t.Some? && t.value.workspace == workspace then t else FindByID(rows, workspace, id)
  }

  /** A row that was read is cached. */
  function LookedUp(r: Redis, rows: seq<Task>, workspace: nat, id: Uuid): Redis {
    var t := Meta(r.hashes, id);
    if t.Some? && t.value.workspace == workspace then r
    else match FindByID(rows, workspace, id)
      case None => r
      case Some(row) => r.HSet(row)
  }

  /** A target column that is not cached is loaded from the table, up to a hundred rows. */
  function Prewarmed(r: Redis, rows: seq<Task>, workspace: nat, k: Column): Redis {
    if k in r.zsets then r else SetColumnExec(r, k, DbPage(rows, workspace, k.0, k.1, 100, None))
  }

  function StatusUpdated(r: Redis, rows: seq<Task>, workspace: nat, id: Uuid, status: string): Redis
    requires LocalTask(r.hashes, rows, workspace, id).Some?
  {
    var t := LocalTask(r.hashes, rows, workspace, id).value;
    var k := (t.project, status);
    var w := Prewarmed(LookedUp(r, rows, workspace, id), rows, workspace, k);
    if IsV7(id) then MoveExec(w, t.project, id, t.status, status, k in w.zsets) else w
  }

  lemma OneMeta(hashes: map<Uuid, Hash>, id: Uuid)
    ensures MissingMetas(hashes, [id]) == (if Meta(hashes, id).None? then [id] else [])
    ensures FoundMetas(hashes, [id]) == (if Meta(hashes, id).Some? then [Meta(hashes, id).value] else [])
  {
    var none: seq<Uuid> := [];
    assert [id] == none + [id];
    MetasAdd(hashes, none, id);
  }

  /** The tasks of a column that rank above `id`. */
  function Higher(z: ZSet, id: Uuid): ZSet {
    Filter((e: Entry) => EntryLess(Own(id), e), TaskEntries(z))
  }

  /** What becomes of the target column, also when the task comes from there. */
  lemma TargetColumn(r: Redis, project: nat, id: Uuid, oldStatus: string, newStatus: string)
    requires RedisOk(r) && IsV7(id) && (project, newStatus) in r.zsets
    ensures var k, r' := (project, newStatus), MoveExec(r, project, id, oldStatus, newStatus, true);
            && k in r'.zsets
            && TaskEntries(r'.zsets[k]) == Take(Insert(EntryLess, TaskEntries(r.zsets[k]), Own(id)), KEPT)
            && (Own(id) in r'.zsets[k] <==> |Higher(r.zsets[k], id)| < KEPT)
  {
    var k := (project, newStatus);
    var r' := MoveExec(r, project, id, oldStatus, newStatus, true);
    ArriveInserts(r, k, Moved(id, oldStatus));
    assert Moved(id, oldStatus).Entry() == [Own(id)];
    EntryOrder();
    ZRemKeeps(r.zsets[k], Empty);
    ZRemKeeps(r'.zsets[k], Empty);
    SurvivesIff(EntryLess, TaskEntries(r.zsets[k]), Own(id), KEPT, (e: Entry) => EntryLess(Own(id), e));
  }

  /** The task leaves the column it was recorded in, and every other column stays as it was. */
  lemma OtherColumns(r: Redis, project: nat, id: Uuid, oldStatus: string, newStatus: string, existed: bool, k: Column)
    requires RedisOk(r) && k != (project, newStatus)
    ensures var r' := MoveExec(r, project, id, oldStatus, newStatus, existed);
            && (k == (project, oldStatus) ==> Own(id) !in r'.Zset(k))
            && (k != (project, oldStatus) ==> r'.Zset(k) == r.Zset(k))
  {
    if k == (project, oldStatus) {
      ZsetOk(r, k);
      ZRemKeeps(r.Zset(k), Id(id));
    }
  }

  /** A hash that is complete stays complete, and gets the new status. */
  lemma MovedHash(r: Redis, project: nat, id: Uuid, oldStatus: string, newStatus: string, existed: bool)
    requires Meta(r.hashes, id).Some?
    ensures Meta(MoveExec(r, project, id, oldStatus, newStatus, existed).hashes, id)
         == Some(Meta(r.hashes, id).value.(status := newStatus))
    ensures forall id' :: id' != id ==>
              Meta(MoveExec(r, project, id, oldStatus, newStatus, existed).hashes, id') == Meta(r.hashes, id')
  {
    var r' := r.HSetStatus(id, newStatus);
    assert MoveExec(r, project, id, oldStatus, newStatus, existed).hashes == r'.hashes;
  }

  lemma {:induction false} HSetAllStaysFull(r: Redis, tasks: seq<Task>, id: Uuid)
    requires Meta(r.hashes, id).Some?
    ensures Meta(HSetAll(r, tasks).hashes, id).Some?
    decreases tasks
  {
    if tasks != [] {
      HSetAllStaysFull(if IsV7(tasks[0].id) then r.HSet(tasks[0]) else r, tasks[1..], id);
    }
  }

  lemma LookedUpKeeps(r: Redis, rows: seq<Task>, workspace: nat, id: Uuid)
    requires RedisOk(r)
    ensures RedisOk(LookedUp(r, rows, workspace, id))
    ensures LookedUp(r, rows, workspace, id).zsets == r.zsets
    ensures LocalTask(r.hashes, rows, workspace, id).Some? ==> Meta(LookedUp(r, rows, workspace, id).hashes, id).Some?
    ensures forall id' :: id' != id ==> Meta(LookedUp(r, rows, workspace, id).hashes, id') == Meta(r.hashes, id')
  {
    FindByIDId(rows, workspace, id);
  }

  lemma PrewarmedKeeps(r: Redis, rows: seq<Task>, workspace: nat, k: Column, id: Uuid)
    requires RedisOk(r) && Meta(r.hashes, id).Some?
    ensures RedisOk(Prewarmed(r, rows, workspace, k)) && Meta(Prewarmed(r, rows, workspace, k).hashes, id).Some?
    ensures forall k' :: k' != k ==> Prewarmed(r, rows, workspace, k).Zset(k') == r.Zset(k')
  {
    if k !in r.zsets {
      var page := DbPage(rows, workspace, k.0, k.1, 100, None);
      DbPageSize(rows, workspace, k.0, k.1, 100, None);
      LoadKeeps(r, k, page);
      HSetAllStaysFull(r, page, id);
      HSetAllKeepsZsets(r, page);
    }
  }

  /**
   After a successful update of a version 7 task that no one interferes with, where `t` is the task
   of its complete hash in the workspace, or else its row: whatever the workspace, its effective
   status is the new one; it is in no sorted set of the column it was recorded in, if that is another
   one; and in the new column, which is the cached or pre-warmed one, it is present if and only if
   fewer than a hundred of that column's tasks rank above it.
   */
  lemma StatusMoves(
    r: Redis, rows: seq<Task>, workspace: nat, id: Uuid, status: string, anyWorkspace: nat, t: Task)
    requires RedisOk(r) && IsV7(id)
    requires if id in r.hashes && r.hashes[id].Full? && r.hashes[id].task.workspace == workspace
             then t == r.hashes[id].task else FindByID(rows, workspace, id) == Some(t)
    ensures LocalTask(r.hashes, rows, workspace, id) == Some(t)
    ensures var k, r' := (t.project, status), StatusUpdated(r, rows, workspace, id, status);
            var w := Prewarmed(LookedUp(r, rows, workspace, id), rows, workspace, k);
            && RedisOk(r')
            && View(r'.hashes, rows, anyWorkspace, id).Some?
            && View(r'.hashes, rows, anyWorkspace, id).value.status == status
            && (t.status != status ==> Own(id) !in r'.Zset((t.project, t.status)))
            && (k in r'.zsets <==> k in w.zsets)
            && (k in w.zsets ==> (Own(id) in r'.zsets[k] <==> |Higher(w.zsets[k], id)| < 100))
  {
    var k := (t.project, status);
    LookedUpKeeps(r, rows, workspace, id);
    var l := LookedUp(r, rows, workspace, id);
    PrewarmedKeeps(l, rows, workspace, k, id);
    MoveSettles(Prewarmed(l, rows, workspace, k), t.project, id, t.status, status);
  }

  lemma MoveSettles(w: Redis, project: nat, id: Uuid, oldStatus: string, newStatus: string)
    requires RedisOk(w) && IsV7(id) && Meta(w.hashes, id).Some?
    ensures var k := (project, newStatus);
            var r' := MoveExec(w, project, id, oldStatus, newStatus, k in w.zsets);
            && RedisOk(r')
            && Meta(r'.hashes, id).Some? && Meta(r'.hashes, id).value.status == newStatus
            && (oldStatus != newStatus ==> Own(id) !in r'.Zset((project, oldStatus)))
            && (k in r'.zsets <==> k in w.zsets)
            && (k in w.zsets ==> (Own(id) in r'.zsets[k] <==> |Higher(w.zsets[k], id)| < 100))
  {
    var k := (project, newStatus);
    MoveKeeps(w, project, id, oldStatus, newStatus, k in w.zsets);
    MovedHash(w, project, id, oldStatus, newStatus, k in w.zsets);
    if oldStatus != newStatus {
      OtherColumns(w, project, id, oldStatus, newStatus, k in w.zsets, (project, oldStatus));
    }
    if k in w.zsets {
      TargetColumn(w, project, id, oldStatus, newStatus);
    }
  }

  lemma {:induction false} EntriesHave(tasks: seq<Task>)
    ensures Entries(tasks) != [] <==> exists t :: t in tasks && IsV7(t.id)
    decreases tasks
  {
    if tasks != [] {
      EntriesHave(tasks[1..]);
      assert tasks == [tasks[0]] + tasks[1..];
    }
  }

  /** Pre-warming leaves the column absent exactly if the table offers rows, but none of version 7. */
  lemma PrewarmedIsPresent(r: Redis, rows: seq<Task>, workspace: nat, k: Column)
    requires RedisOk(r)
    ensures k in Prewarmed(r, rows, workspace, k).zsets <==>
            var page := DbPage(rows, workspace, k.0, k.1, 100, None);
            k in r.zsets || page == [] || exists t :: t in page && IsV7(t.id)
  {
    var page := DbPage(rows, workspace, k.0, k.1, 100, None);
    var es := Entries(page);
    EntriesHave(page);
    EntriesOwn(page);
    ZAddAllKeeps([], es);
    if es != [] {
      assert es[0] in es && es[0] in ZAddAll([], es);
    }
    HSetAllKeepsZsets(r, page);
  }

  lemma {:induction false} HSetAllElsewhere(r: Redis, tasks: seq<Task>, id: Uuid)
    requires forall t :: t in tasks && IsV7(t.id) ==> t.id != id
    ensures Meta(HSetAll(r, tasks).hashes, id) == Meta(r.hashes, id)
    decreases tasks
  {
    if tasks != [] {
      assert tasks[0] in tasks;
      HSetAllElsewhere(if IsV7(tasks[0].id) then r.HSet(tasks[0]) else r, tasks[1..], id);
    }
  }

  /**
   The update changes no other task's view, in any workspace, unless it has to pre-warm the
   target column and the other task is on the page that it loads.
   */
  lemma OthersKeepTheirViews(
    r: Redis, rows: seq<Task>, workspace: nat, id: Uuid, status: string, other: Uuid, anyWorkspace: nat)
    requires RedisOk(r) && LocalTask(r.hashes, rows, workspace, id).Some? && other != id
    requires var k := (LocalTask(r.hashes, rows, workspace, id).value.project, status);
             || k in r.zsets
             || forall row :: row in DbPage(rows, workspace, k.0, k.1, 100, None) && IsV7(row.id) ==> row.id != other
    ensures View(StatusUpdated(r, rows, workspace, id, status).hashes, rows, anyWorkspace, other)
         == View(r.hashes, rows, anyWorkspace, other)
  {
    var t := LocalTask(r.hashes, rows, workspace, id).value;
    var k := (t.project, status);
    LookedUpKeeps(r, rows, workspace, id);
    var l := LookedUp(r, rows, workspace, id);
    PrewarmedKeeps(l, rows, workspace, k, id);
    if k !in r.zsets {
      HSetAllElsewhere(l, DbPage(rows, workspace, k.0, k.1, 100, None), other);
    }
    if IsV7(id) {
      var w := Prewarmed(l, rows, workspace, k);
      MovedHash(w, t.project, id, t.status, status, k in w.zsets);
    }
  }

  lemma {:induction false} HSetAllSetsRow(r: Redis, tasks: seq<Task>, t: Task)
    requires IsV7(t.id) && forall u :: u in tasks && u.id == t.id ==> u == t
    ensures t in tasks || Meta(r.hashes, t.id) == Some(t) ==> Meta(HSetAll(r, tasks).hashes, t.id) == Some(t)
    decreases tasks
  {
    if tasks != [] {
      assert tasks == [tasks[0]] + tasks[1..];
      HSetAllSetsRow(if IsV7(tasks[0].id) then r.HSet(tasks[0]) else r, tasks[1..], t);
    }
  }

  /**
   On that page it is otherwise: pre-warming writes the raw rows, so every other task on the
   loaded page is back at its row, whatever newer state its hash held.
   */
  lemma PrewarmingRestoresRows(r: Redis, rows: seq<Task>, workspace: nat, id: Uuid, status: string, row: Task)
    requires RedisOk(r) && PrimaryKey(rows) && LocalTask(r.hashes, rows, workspace, id).Some?
    requires var k := (LocalTask(r.hashes, rows, workspace, id).value.project, status);
             k !in r.zsets && row in DbPage(rows, workspace, k.0, k.1, 100, None)
    requires IsV7(row.id) && row.id != id
    ensures View(StatusUpdated(r, rows, workspace, id, status).hashes, rows, workspace, row.id) == Some(row)
  {
    var t := LocalTask(r.hashes, rows, workspace, id).value;
    var k := (t.project, status);
    LookedUpKeeps(r, rows, workspace, id);
    var l := LookedUp(r, rows, workspace, id);
    DbPageRows(rows, workspace, k.0, k.1, 100, None);
    HSetAllSetsRow(l, DbPage(rows, workspace, k.0, k.1, 100, None), row);
    PrewarmedKeeps(l, rows, workspace, k, id);
    var w := Prewarmed(l, rows, workspace, k);
    MovedHash(w, t.project, id, t.status, status, k in w.zsets);
  }

  /**
   So another task's view stays as it is if and only if nothing has to be pre-warmed, or the task is
   not on the page that is loaded, or is there with a row that its view agrees with already.
   */
  lemma OthersViewIff(r: Redis, rows: seq<Task>, workspace: nat, id: Uuid, status: string, other: Uuid)
    requires RedisOk(r) && PrimaryKey(rows) && LocalTask(r.hashes, rows, workspace, id).Some? && other != id
    ensures var k := (LocalTask(r.hashes, rows, workspace, id).value.project, status);
            View(StatusUpdated(r, rows, workspace, id, status).hashes, rows, workspace, other)
              == View(r.hashes, rows, workspace, other)
            <==>
            || k in r.zsets
            || forall row :: row in DbPage(rows, workspace, k.0, k.1, 100, None) && row.id == other && IsV7(other) ==>
                 View(r.hashes, rows, workspace, other) == Some(row)
  {
    var k := (LocalTask(r.hashes, rows, workspace, id).value.project, status);
    var page := DbPage(rows, workspace, k.0, k.1, 100, None);
    if k !in r.zsets && exists row :: row in page && row.id == other && IsV7(other) {
      var row :| row in page && row.id == other && IsV7(other);
      PrewarmingRestoresRows(r, rows, workspace, id, status, row);
      DbPageRows(rows, workspace, k.0, k.1, 100, None);
      assert forall row' :: row' in page && row'.id == other ==> Some(row') == FindByID(rows, workspace, other);
    } else {
      OthersKeepTheirViews(r, rows, workspace, id, status, other, workspace);
    }
  }

  lemma FilterTwo<A>(p: A -> bool, a: A, b: A)
    ensures |Filter(p, [a, b])| <= 2
  {
    assert [a, b][1..] == [b];
  }

  /**
   The failing side is reached: the row of `b` still has the status that its hash has left behind,
   and `a` moves there.  The status of `b` is the old one again.
   */
  lemma PrewarmingRevertsMove(a: Task, b: Task, newer: string)
    requires a.workspace == b.workspace && a.project == b.project && a.id != b.id && IsV7(b.id)
    requires newer != b.status
    ensures var r, rows := Redis(map[], map[b.id := Full(b.(status := newer))]), [a, b];
            && RedisOk(r) && PrimaryKey(rows) && LocalTask(r.hashes, rows, a.workspace, a.id).Some?
            && View(r.hashes, rows, a.workspace, b.id) == Some(b.(status := newer))
            && View(StatusUpdated(r, rows, a.workspace, a.id, b.status).hashes, rows, a.workspace, b.id) == Some(b)
  {
    var r, rows := Redis(map[], map[b.id := Full(b.(status := newer))]), [a, b];
    assert rows[0] == a && rows[1] == b;
    SelectedIs(rows, a.workspace, a.project, b.status, None);
    AllOnPageIff(rows, a.workspace, a.project, b.status, 100, None);
    FilterTwo((t: Task) => Matches(t, a.workspace, a.project, b.status, None), a, b);
    PrewarmingRestoresRows(r, rows, a.workspace, a.id, b.status, b);
  }
}
