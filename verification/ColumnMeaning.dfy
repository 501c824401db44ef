/**
 What the operations of the column cache do, in terms of ids, timestamps and statuses, for every
 cache that keeps the invariant of the columns.
 */
module ColumnMeaning {
  import opened Wrappers
  import opened Uuid
  import opened SortedSeq
  import opened ColumnCache
  import opened ColumnRuns
  import opened ColumnWalk

  /******* Adding and moving *******/

  /**
   `z` is in descending order of timestamp and id, and holds the hundred greatest of the tasks in
   `all`: it leaves one out only if it has a hundred, all greater.
   */
  ghost predicate Newest(z: ZSet, all: set<Uuid>) {
    && |z| <= 100
    && (forall e :: e in z ==> e.member.Id? && e.member.id in all && e.score == e.member.id.ms)
    && (forall i, j :: 0 <= i < j < |z| ==> Younger(z[i], z[j]))
    && (forall id :: id in all && Entry(id.ms, Id(id)) !in z ==>
          |z| == 100 && forall e :: e in z ==> Younger(e, Entry(id.ms, Id(id))))
  }

  ghost predicate Younger(a: Entry, b: Entry) {
    a.score > b.score || (a.score == b.score && a.member.Id? && b.member.Id? && Less(b.member.id, a.member.id))
  }

  /** The ids of a column. */
  ghost function IdsIn(z: ZSet): set<Uuid> {
    set e | e in z && e.member.Id? :: e.member.id
  }

  lemma OwnIsIn(z: ZSet, id: Uuid)
    requires OwnScores(z)
    ensures Own(id) in z <==> id in IdsIn(z)
  {
    assert Own(id).member.Id? && Own(id).member.id == id;
    if id in IdsIn(z) {
      var e :| e in z && e.member.Id? && e.member.id == id;
      assert e == Own(id);
    }
  }

  lemma TakeIsNewest(all: ZSet)
    requires OwnScores(all) && NoMarker(all)
    ensures Newest(Take(all, KEPT), IdsIn(all))
  {
    var z := Take(all, KEPT);
    forall i, j | 0 <= i < j < |z| ensures Younger(z[i], z[j]) {
      assert EntryLess(all[j], all[i]) && all[i] in all && all[j] in all;
    }
    forall id | id in IdsIn(all) && Own(id) !in z
      ensures |z| == 100 && forall e :: e in z ==> Younger(e, Own(id))
    {
      OwnIsIn(all, id);
      TakeIsTop(EntryLess, all, KEPT, Own(id));
      assert forall e :: e in z ==> EntryLess(Own(id), e) && e in all;
    }
    assert forall e :: e in z ==> e in all && e.member.id in IdsIn(all);
  }

  /** ZREM of the marker, ZADD and pruning. */
  lemma AddAndPruneMeans(r: Redis, k: Column, id: Uuid)
    requires OwnScores(r.Zset(k)) && IsV7(id)
    ensures var r' := r.AddAndPrune(k, id);
            && k in r'.zsets && Newest(r'.zsets[k], IdsIn(r.Zset(k)) + {id})
            && r'.hashes == r.hashes
            && (forall k' :: k' != k ==> (k' in r'.zsets <==> k' in r.zsets))
            && (forall k' :: k' != k && k' in r.zsets ==> r'.zsets[k'] == r.zsets[k'])
  {
    var tasks := ZRem(r.Zset(k), Empty);
    var all := ZAdd(tasks, Own(id));
    ZRemKeeps(r.Zset(k), Empty);
    ZAddKeeps(tasks, id);
    TakeIsNewest(all);
    assert IdsIn(all) == IdsIn(r.Zset(k)) + {id} by {
      forall u ensures u in IdsIn(all) <==> u in IdsIn(r.Zset(k)) + {id} {
        OwnIsIn(all, u);
        OwnIsIn(r.Zset(k), u);
      }
    }
  }

  /**
   AddTask without an interruption: the hash holds the task, a cached column holds the hundred
   newest of its tasks and this one, and a column that is not cached stays so.
   */
  lemma AddTaskMeans(r: Redis, t: Task)
    requires RedisOk(r) && IsV7(t.id)
    ensures var k := (t.project, t.status);
            var r' := AddTaskExec(r, t, k in r.zsets);
            && r'.hashes == r.hashes[t.id := Full(t)]
            && r'.zsets.Keys == r.zsets.Keys
            && (k in r.zsets ==> Newest(r'.zsets[k], IdsIn(r.zsets[k]) + {t.id}))
            && (forall k' :: k' != k && k' in r.zsets ==> r'.zsets[k'] == r.zsets[k'])
  {
    var k := (t.project, t.status);
    if k in r.zsets {
      AddAndPruneMeans(r.HSet(t), k, t.id);
    }
  }

  /** What is left of a column when a task leaves it. */
  lemma RemoveMeans(r: Redis, k: Column, id: Uuid)
    requires RedisOk(r)
    ensures var r' := r.Store(k, ZRem(r.Zset(k), Id(id)));
            && r'.hashes == r.hashes && RedisOk(r')
            && (forall k' :: k' != k ==> (k' in r'.zsets <==> k' in r.zsets) && r'.Zset(k') == r.Zset(k'))
            && (k in r'.zsets <==> exists e :: e in r.Zset(k) && e.member != Id(id))
            && (forall e :: e in r'.Zset(k) <==> e in r.Zset(k) && e.member != Id(id))
            && IdsIn(r'.Zset(k)) == IdsIn(r.Zset(k)) - {id}
  {
    var z := ZRem(r.Zset(k), Id(id));
    ZsetOk(r, k);
    ZRemKeeps(r.Zset(k), Id(id));
    if z != [] {
      assert z[0] in z;
    }
    if r.Zset(k) == [Entry(-1, Empty)] {
      assert z == r.Zset(k);
    }
    StoreKeeps(r, k, z);
    assert r.Store(k, z).Zset(k) == z;
  }

  /**
   UpdateTaskStatus of the cache without an interruption: the hash gets the status, the task
   leaves the old column, and a new column that is cached holds the hundred newest of its tasks
   and this one.
   */
  lemma MoveMeans(r: Redis, project: nat, id: Uuid, oldStatus: string, newStatus: string)
    requires RedisOk(r) && IsV7(id)
    ensures var old_, k := (project, oldStatus), (project, newStatus);
            var r' := MoveExec(r, project, id, oldStatus, newStatus, k in r.zsets);
            && r'.hashes == r.hashes[id := if id in r.hashes && r.hashes[id].Full?
                                           then Full(r.hashes[id].task.(status := newStatus))
                                           else StatusOnly(newStatus)]
            && (k in r.zsets ==> k in r'.zsets && Newest(r'.zsets[k], IdsIn(r.zsets[k]) + {id}))
            && (k !in r.zsets ==> k !in r'.zsets)
            && (old_ != k ==> forall e :: e in r'.Zset(old_) <==> e in r.Zset(old_) && e.member != Id(id))
            && (forall k' :: k' != old_ && k' != k ==> (k' in r'.zsets <==> k' in r.zsets) && r'.Zset(k') == r.Zset(k'))
  {
    MoveHashes(r, project, id, oldStatus, newStatus);
    MoveColumns(r, project, id, oldStatus, newStatus);
  }

  lemma MoveHashes(r: Redis, project: nat, id: Uuid, oldStatus: string, newStatus: string)
    ensures MoveExec(r, project, id, oldStatus, newStatus, (project, newStatus) in r.zsets).hashes
         == r.HSetStatus(id, newStatus).hashes
  {
  }

  lemma MoveColumns(r: Redis, project: nat, id: Uuid, oldStatus: string, newStatus: string)
    requires RedisOk(r) && IsV7(id)
    ensures var old_, k := (project, oldStatus), (project, newStatus);
            var r' := MoveExec(r, project, id, oldStatus, newStatus, k in r.zsets);
            && (k in r.zsets ==> k in r'.zsets && Newest(r'.zsets[k], IdsIn(r.zsets[k]) + {id}))
            && (k !in r.zsets ==> k !in r'.zsets)
            && (old_ != k ==> forall e :: e in r'.Zset(old_) <==> e in r.Zset(old_) && e.member != Id(id))
            && (forall k' :: k' != old_ && k' != k ==> (k' in r'.zsets <==> k' in r.zsets) && r'.Zset(k') == r.Zset(k'))
  {
    var old_, k := (project, oldStatus), (project, newStatus);
    var r1 := r.HSetStatus(id, newStatus);
    assert RedisOk(r1);
    RemoveMeans(r1, old_, id);
    if k in r.zsets {
      var r2 := r1.Store(old_, ZRem(r1.Zset(old_), Id(id)));
      ZsetOk(r2, k);
      AddAndPruneMeans(r2, k, id);
      assert IdsIn(r2.Zset(k)) + {id} == IdsIn(r.zsets[k]) + {id};
    }
  }

  /******* Loading and invalidating *******/

  lemma {:induction false} EntriesOf(tasks: seq<Task>)
    ensures forall e :: e in Entries(tasks) <==> exists t :: t in tasks && IsV7(t.id) && e == Entry(t.id.ms, Id(t.id))
    decreases tasks
  {
    if tasks != [] {
      EntriesOf(tasks[1..]);
      assert tasks == [tasks[0]] + tasks[1..];
    }
  }

  lemma {:induction false} HSetAllMeans(r: Redis, tasks: seq<Task>, id: Uuid)
    requires forall t, u :: t in tasks && u in tasks && t.id == u.id ==> t == u
    ensures forall t :: t in tasks && t.id == id && IsV7(id) ==>
              id in HSetAll(r, tasks).hashes && HSetAll(r, tasks).hashes[id] == Full(t)
    ensures (forall t :: t in tasks && IsV7(t.id) ==> t.id != id) ==>
              && (id in HSetAll(r, tasks).hashes <==> id in r.hashes)
              && (id in r.hashes ==> HSetAll(r, tasks).hashes[id] == r.hashes[id])
    decreases |tasks|
  {
    if tasks != [] {
      var n := |tasks| - 1;
      assert tasks == tasks[..n] + [tasks[n]];
      HSetAllAdd(r, tasks[..n], tasks[n]);
      HSetAllMeans(r, tasks[..n], id);
    }
  }

  /**
   SetColumnCache with tasks of different ids: the column is exactly the given tasks of version 7 in
   descending order, or the marker if there are no tasks at all, or deleted if none has a score;
   their hashes hold them, and nothing else changes.
   */
  lemma LoadMeans(r: Redis, k: Column, tasks: seq<Task>)
    requires forall t, u :: t in tasks && u in tasks && t.id == u.id ==> t == u
    ensures var r' := SetColumnExec(r, k, tasks);
            && (tasks == [] ==> k in r'.zsets && r'.zsets[k] == [Entry(-1, Empty)])
            && (tasks != [] ==>
                  && (k in r'.zsets <==> exists t :: t in tasks && IsV7(t.id))
                  && (forall e :: e in r'.Zset(k) <==>
                        exists t :: t in tasks && IsV7(t.id) && e == Entry(t.id.ms, Id(t.id)))
                  && (forall i, j :: 0 <= i < j < |r'.Zset(k)| ==> Younger(r'.Zset(k)[i], r'.Zset(k)[j])))
            && (forall k' :: k' != k ==> (k' in r'.zsets <==> k' in r.zsets) && r'.Zset(k') == r.Zset(k'))
            && (forall t :: t in tasks && IsV7(t.id) ==> t.id in r'.hashes && r'.hashes[t.id] == Full(t))
            && (forall id :: (forall t :: t in tasks && IsV7(t.id) ==> t.id != id) ==>
                  && (id in r'.hashes <==> id in r.hashes)
                  && (id in r.hashes ==> r'.hashes[id] == r.hashes[id]))
  {
    LoadColumns(r, k, tasks);
    forall id
      ensures forall t :: t in tasks && t.id == id && IsV7(id) ==>
                id in SetColumnExec(r, k, tasks).hashes && SetColumnExec(r, k, tasks).hashes[id] == Full(t)
      ensures (forall t :: t in tasks && IsV7(t.id) ==> t.id != id) ==>
                && (id in SetColumnExec(r, k, tasks).hashes <==> id in r.hashes)
                && (id in r.hashes ==> SetColumnExec(r, k, tasks).hashes[id] == r.hashes[id])
    {
      HSetAllMeans(r, tasks, id);
    }
  }

  lemma LoadColumns(r: Redis, k: Column, tasks: seq<Task>)
    ensures var r' := SetColumnExec(r, k, tasks);
            && (tasks == [] ==> k in r'.zsets && r'.zsets[k] == [Entry(-1, Empty)])
            && (tasks != [] ==>
                  && (k in r'.zsets <==> exists t :: t in tasks && IsV7(t.id))
                  && (forall e :: e in r'.Zset(k) <==>
                        exists t :: t in tasks && IsV7(t.id) && e == Entry(t.id.ms, Id(t.id)))
                  && (forall i, j :: 0 <= i < j < |r'.Zset(k)| ==> Younger(r'.Zset(k)[i], r'.Zset(k)[j])))
            && (forall k' :: k' != k ==> (k' in r'.zsets <==> k' in r.zsets) && r'.Zset(k') == r.Zset(k'))
  {
    if tasks != [] {
      var z := ZAddAll([], Entries(tasks));
      EntriesOwn(tasks);
      EntriesOf(tasks);
      ZAddAllKeeps([], Entries(tasks));
      HSetAllKeepsZsets(r, tasks);
      assert SetColumnExec(r, k, tasks).Zset(k) == z;
      forall i, j | 0 <= i < j < |z| ensures Younger(z[i], z[j]) {
        assert EntryLess(z[j], z[i]) && z[i] in z && z[j] in z;
      }
      LoadedOrDeleted(tasks, z);
    }
  }

  lemma LoadedOrDeleted(tasks: seq<Task>, z: ZSet)
    requires forall e :: e in z <==> exists t :: t in tasks && IsV7(t.id) && e == Entry(t.id.ms, Id(t.id))
    ensures z != [] <==> exists t :: t in tasks && IsV7(t.id)
  {
    if z != [] {
      assert z[0] in z;
    }
    if t :| t in tasks && IsV7(t.id) {
      assert Entry(t.id.ms, Id(t.id)) in z;
    }
  }

  /** The version 7 ids of a list of tasks. */
  ghost function ScoredIds(tasks: seq<Task>): set<Uuid> {
    set t | t in tasks && t.id.version == 7 :: t.id
  }

  /** The ids of a loaded column. */
  lemma LoadedIds(r: Redis, k: Column, tasks: seq<Task>)
    ensures var r' := SetColumnExec(r, k, tasks);
            && IdsIn(r'.Zset(k)) == ScoredIds(tasks)
            && (k in r'.zsets <==> tasks == [] || ScoredIds(tasks) != {})
  {
    var r' := SetColumnExec(r, k, tasks);
    if tasks == [] {
      assert r'.Zset(k) == [Entry(-1, Empty)];
    } else {
      EntriesOwn(tasks);
      EntriesOf(tasks);
      ZAddAllKeeps([], Entries(tasks));
      LoadedOrDeleted(tasks, ZAddAll([], Entries(tasks)));
      HSetAllKeepsZsets(r, tasks);
      SameIds(ZAddAll([], Entries(tasks)), tasks);
      assert r'.Zset(k) == ZAddAll([], Entries(tasks));
      if t :| t in tasks && IsV7(t.id) {
        assert t.id in ScoredIds(tasks);
      }
    }
  }

  lemma SameIds(z: ZSet, tasks: seq<Task>)
    requires forall e :: e in z <==> exists t :: t in tasks && IsV7(t.id) && e == Entry(t.id.ms, Id(t.id))
    ensures IdsIn(z) == ScoredIds(tasks)
  {
    forall id ensures id in IdsIn(z) <==> id in ScoredIds(tasks) {
      if id in ScoredIds(tasks) {
        assert Entry(id.ms, Id(id)) in z && Entry(id.ms, Id(id)).member.id == id;
      }
    }
  }

  /** InvalidateTasks deletes the project's columns of the four statuses. */
  lemma InvalidateMeans(r: Redis, project: nat)
    ensures var r' := InvalidateExec(r, project);
            && r'.hashes == r.hashes
            && (forall k: Column :: k in r'.zsets <==>
                  k in r.zsets && !(k.0 == project &&
                                    (k.1 == "TODO" || k.1 == "IN_PROGRESS" || k.1 == "REVIEW" || k.1 == "DONE")))
            && (forall k :: k in r'.zsets ==> r'.zsets[k] == r.zsets[k])
  {
    FourStatuses();
    forall k: Column
      ensures k in InvalidateExec(r, project).zsets <==> k in r.zsets && !(k.0 == project && k.1 in STATUSES)
    {
    }
  }

  lemma FourStatuses()
    ensures forall st :: st in STATUSES <==> st == "TODO" || st == "IN_PROGRESS" || st == "REVIEW" || st == "DONE"
    ensures |STATUSES| == 4
  {
  }

  /******* Reading a page *******/

  /** Whether a task of the column comes behind the cursor: a cursor without a timestamp bounds nothing. */
  ghost predicate Behind(id: Uuid, cursor: Option<Uuid>) {
    cursor.Some? && cursor.value.version == 7 ==> id.ms < cursor.value.ms
  }

  /**
   A page of a cached column: in descending order, tasks of the column behind the cursor, and one of
   those is left out only if the page is full and all on it are greater.
   */
  lemma PageMeans(z: ZSet, limit: nat, cursor: Option<Uuid>)
    requires ColumnOk(z)
    ensures var page := PageIds(z, limit, cursor);
            && |page| <= limit
            && (forall i, j :: 0 <= i < j < |page| ==> Less(page[j], page[i]))
            && (forall id :: id in page ==> id in IdsIn(z) && Behind(id, cursor))
            && (forall id :: id in IdsIn(z) && Behind(id, cursor) && id !in page ==>
                  |page| == limit && forall u :: u in page ==> Less(id, u))
  {
    var page := PageIds(z, limit, cursor);
    if z == [Entry(-1, Empty)] {
      MarkerShowsNothing(limit, cursor);
      assert IdsIn(z) == {};
    } else {
      var below := Below(z, Bound(z, cursor));
      BoundMeans(z, cursor);
      BelowKeeps(z, Bound(z, cursor));
      assert page == Ids(Take(below, limit));
      TopIds(below, limit);
      forall id ensures Own(id) in below <==> id in IdsIn(z) && Behind(id, cursor) {
        OwnIsIn(z, id);
      }
    }
  }

  /** The ids of the first entries. */
  lemma TopIds(below: ZSet, limit: nat)
    requires OwnScores(below) && NoMarker(below)
    ensures var page := Ids(Take(below, limit));
            && |page| <= limit
            && (forall i, j :: 0 <= i < j < |page| ==> Less(page[j], page[i]))
            && (forall id :: id in page ==> Own(id) in below)
            && (forall id :: Own(id) in below && id !in page ==>
                  |page| == limit && forall u :: u in page ==> Less(id, u))
  {
    var es := Take(below, limit);
    var page := Ids(es);
    assert forall e :: e in es ==> e in below;
    IdsAt(es);
    forall i, j | 0 <= i < j < |page| ensures Less(page[j], page[i]) {
      assert EntryLess(below[j], below[i]) && es[i] in es && es[j] in es;
    }
    forall id | id in page ensures Own(id) in below {
      var i :| 0 <= i < |page| && page[i] == id;
      assert es[i] in es && es[i] == Own(id);
    }
    forall id | Own(id) in below && id !in page
      ensures |page| == limit && forall u :: u in page ==> Less(id, u)
    {
      LeftOut(below, limit, id, page);
    }
  }

  lemma OnPage(es: ZSet, id: Uuid)
    requires NoMarker(es)
    ensures Own(id) in es ==> id in Ids(es)
  {
    IdsAt(es);
    if Own(id) in es {
      var i :| 0 <= i < |es| && es[i] == Own(id);
      assert Ids(es)[i] == id;
    }
  }

  lemma LeftOut(below: ZSet, limit: nat, id: Uuid, page: seq<Uuid>)
    requires OwnScores(below) && NoMarker(below) && Own(id) in below && page == Ids(Take(below, limit)) && id !in page
    ensures |page| == limit && forall u :: u in page ==> Less(id, u)
  {
    var es := Take(below, limit);
    IdsAt(es);
    OnPage(es, id);
    TakeIsTop(EntryLess, below, limit, Own(id));
    forall u | u in page ensures Less(id, u) {
      var i :| 0 <= i < |page| && page[i] == u;
      assert es[i] in es && es[i] in below && es[i] == Own(u);
    }
  }

  lemma BoundMeans(z: ZSet, cursor: Option<Uuid>)
    requires OwnScores(z)
    ensures Bound(z, cursor) == if cursor.Some? && cursor.value.version == 7 then Some(cursor.value.ms) else None
  {
    if cursor.Some? {
      ScoreFound(z, cursor.value);
    }
  }

  /******* Reading hashes *******/

  /** GetTaskMetas: the tasks of complete hashes, and the ids of the others, each in order. */
  lemma {:induction false} MetasMean(hashes: map<Uuid, Hash>, ids: seq<Uuid>)
    ensures |FoundMetas(hashes, ids)| + |MissingMetas(hashes, ids)| == |ids|
    ensures forall id :: id in MissingMetas(hashes, ids) <==> id in ids && !(id in hashes && hashes[id].Full?)
    ensures forall t :: t in FoundMetas(hashes, ids) <==>
              exists id :: id in ids && id in hashes && hashes[id].Full? && hashes[id].task == t
    decreases ids
  {
    if ids != [] {
      MetasMean(hashes, ids[1..]);
      assert ids == [ids[0]] + ids[1..];
    }
  }
}
