/**
 The task cache: one Redis sorted set per board column (project and status) and one hash per
 task.  The Redis commands are functions on their values; the cache operations are methods
 that issue them in the order of the code, and each is also given as a function of the state,
 so that operations can be cut into steps and interleaved.
 */
module ColumnCache {
  import opened Wrappers
  import opened Uuid
  import opened SortedSeq

  /** A task: the fields the cache logic looks at, and the others as one. */
  datatype Task = Task(
    id: Uuid, workspace: nat, project: nat, status: string, created: int, assignee: nat, details: string)

  /** A member of a column: a task id, or the `__empty__` marker. */
  datatype Member = Empty | Id(id: Uuid)

  datatype Entry = Entry(score: int, member: Member)

  /** The first of the twelve digits of the timestamp. */
  function FirstDigit(u: Uuid): nat {
    u.ms / 0x1000_0000_0000
  }

  /** Members compare as strings: the marker's underscore is above the digits 0-9 and below a-f. */
  predicate MemberLess(a: Member, b: Member) {
    match (a, b)
    case (Id(u), Id(v)) => Less(u, v)
    case (Id(u), Empty) => FirstDigit(u) < 10
    case (Empty, Id(v)) => FirstDigit(v) >= 10
    case (Empty, Empty) => false
  }

  /** The order of a sorted set: by score, then by member. */
  predicate EntryLess(a: Entry, b: Entry) {
    a.score < b.score || (a.score == b.score && MemberLess(a.member, b.member))
  }

  lemma MemberOrder()
    ensures StrictTotal(MemberLess)
  {
    forall x, y, z | MemberLess(x, y) && MemberLess(y, z) ensures MemberLess(x, z) {
    }
    forall x, y ensures MemberLess(x, y) || x == y || MemberLess(y, x) {
    }
  }

  lemma EntryOrder()
    ensures StrictTotal(EntryLess)
  {
    MemberOrder();
    forall x, y ensures EntryLess(x, y) || x == y || EntryLess(y, x) {
      assert MemberLess(x.member, y.member) || x.member == y.member || MemberLess(y.member, x.member);
    }
  }

  /******* Redis *******/

  /** A sorted set, largest entry first. */
  type ZSet = seq<Entry>

  function ZRem(z: ZSet, m: Member): ZSet {
    Filter((e: Entry) => e.member != m, z)
  }

  function ZAdd(z: ZSet, e: Entry): ZSet {
    Insert(EntryLess, ZRem(z, e.member), e)
  }

  function ZAddAll(z: ZSet, es: seq<Entry>): ZSet
    decreases es
  {
    if es == [] then z else ZAddAll(ZAdd(z, es[0]), es[1..])
  }

  /** ZREVRANGEBYSCORE with an exclusive upper bound and a count. */
  function ZRevRangeByScore(z: ZSet, max: Option<int>, count: nat): ZSet {
    Take(Filter((e: Entry) => max.None? || e.score < max.value, z), count)
  }

  function ZScore(z: ZSet, m: Member): Option<int> {
    if z == [] then None else if z[0].member == m then Some(z[0].score) else ZScore(z[1..], m)
  }

  /** ZREMRANGEBYRANK key 0 -101 leaves the hundred largest. */
  const KEPT: nat := 100

  /** A task hash: all fields, or only the status that UpdateTaskStatus sets on a missing hash. */
  datatype Hash = Full(task: Task) | StatusOnly(status: string)

  type Column = (nat, string)

  datatype Redis = Redis(zsets: map<Column, ZSet>, hashes: map<Uuid, Hash>) {
    function Zset(k: Column): ZSet {
      if k in zsets then zsets[k] else []
    }

    /** A sorted set that becomes empty is deleted. */
    function Store(k: Column, z: ZSet): Redis {
      this.(zsets := if z == [] then zsets - {k} else zsets[k := z])
    }

    function HSet(t: Task): Redis {
      this.(hashes := hashes[t.id := Full(t)])
    }

    function HSetStatus(id: Uuid, status: string): Redis {
      var h := if id in hashes && hashes[id].Full? then Full(hashes[id].task.(status := status))
               else StatusOnly(status);
      this.(hashes := hashes[id := h])
    }

    /** ZREM of the marker, ZADD of the task, and pruning, as one transaction does them. */
    function AddAndPrune(k: Column, id: Uuid): Redis {
      Store(k, Take(ZAdd(ZRem(Zset(k), Empty), Entry(id.ms, Id(id))), KEPT))
    }
  }

  /** The entries of the tasks that have a score. */
  function Entries(tasks: seq<Task>): seq<Entry> {
    if tasks == [] then [] else EntryOf(tasks[0].id) + Entries(tasks[1..])
  }

  function EntryOf(id: Uuid): seq<Entry> {
    if IsV7(id) then [Entry(id.ms, Id(id))] else []
  }

  function HSetAll(r: Redis, tasks: seq<Task>): Redis
    decreases tasks
  {
    if tasks == [] then r
    else HSetAll(if IsV7(tasks[0].id) then r.HSet(tasks[0]) else r, tasks[1..])
  }

  /******* The transactions *******/

  /** The MULTI of AddTask; `existed` is what EXISTS had returned before. */
  function AddTaskExec(r: Redis, t: Task, existed: bool): Redis {
    if existed then r.HSet(t).AddAndPrune((t.project, t.status), t.id) else r.HSet(t)
  }

  /** The MULTI of UpdateTaskStatus. */
  function MoveExec(r: Redis, project: nat, id: Uuid, oldStatus: string, newStatus: string, newExisted: bool): Redis {
    var r1 := r.HSetStatus(id, newStatus);
    var r2 := r1.Store((project, oldStatus), ZRem(r1.Zset((project, oldStatus)), Id(id)));
    if newExisted then r2.AddAndPrune((project, newStatus), id) else r2
  }

  /** The MULTI of SetColumnCache. */
  function SetColumnExec(r: Redis, k: Column, tasks: seq<Task>): Redis {
    if tasks == [] then r.Store(k, [Entry(-1, Empty)])
    else HSetAll(r, tasks).Store(k, ZAddAll([], Entries(tasks)))
  }

  const STATUSES: seq<string> := ["TODO", "IN_PROGRESS", "REVIEW", "DONE"]

  function InvalidateExec(r: Redis, project: nat): Redis {
    r.(zsets := r.zsets - set st | st in STATUSES :: (project, st))
  }

  /******* The cache object *******/

  /** A task hash as GetTaskMetas reads it: a hash without an id counts as missing. */
  function Meta(hashes: map<Uuid, Hash>, id: Uuid): Option<Task> {
    if id in hashes && hashes[id].Full? then Some(hashes[id].task) else None
  }

  function FoundMetas(hashes: map<Uuid, Hash>, ids: seq<Uuid>): seq<Task> {
    if ids == [] then []
    else (if Meta(hashes, ids[0]).Some? then [Meta(hashes, ids[0]).value] else []) + FoundMetas(hashes, ids[1..])
  }

  function MissingMetas(hashes: map<Uuid, Hash>, ids: seq<Uuid>): seq<Uuid> {
    if ids == [] then []
    else (if Meta(hashes, ids[0]).None? then [ids[0]] else []) + MissingMetas(hashes, ids[1..])
  }

  /** The bound that a cursor stands for: the score of its entry, else the timestamp in the
      cursor itself, else none. */
  function Bound(z: ZSet, cursor: Option<Uuid>): Option<int> {
    if cursor.None? then None
    else match ZScore(z, Id(cursor.value))
      case Some(score) => Some(score)
      case None => if IsV7(cursor.value) then Some(cursor.value.ms) else None
  }

  function IdOf(e: Entry): seq<Uuid> {
    if e.member.Id? then [e.member.id] else []
  }

  /** The ids of a list of entries, without the marker. */
  function Ids(es: seq<Entry>): seq<Uuid> {
    if es == [] then [] else IdOf(es[0]) + Ids(es[1..])
  }

  function PageIds(z: ZSet, limit: nat, cursor: Option<Uuid>): seq<Uuid> {
    Ids(ZRevRangeByScore(z, Bound(z, cursor), limit))
  }

  lemma {:induction false} IdsAdd(es: seq<Entry>, e: Entry)
    ensures Ids(es + [e]) == Ids(es) + IdOf(e)
    decreases es
  {
    if es == [] {
      assert es + [e] == [e];
      assert Ids([e][1..]) == [];
    } else {
      IdsAdd(es[1..], e);
      assert (es + [e])[1..] == es[1..] + [e] && (es + [e])[0] == es[0];
      assert IdOf(es[0]) + (Ids(es[1..]) + IdOf(e)) == (IdOf(es[0]) + Ids(es[1..])) + IdOf(e);
    }
  }

  lemma {:induction false} EntriesAdd(ts: seq<Task>, t: Task)
    ensures Entries(ts + [t]) == Entries(ts) + EntryOf(t.id)
    decreases ts
  {
    if ts == [] {
      assert ts + [t] == [t];
      assert Entries([t][1..]) == [];
    } else {
      EntriesAdd(ts[1..], t);
      assert (ts + [t])[1..] == ts[1..] + [t] && (ts + [t])[0] == ts[0];
      assert EntryOf(ts[0].id) + (Entries(ts[1..]) + EntryOf(t.id))
          == (EntryOf(ts[0].id) + Entries(ts[1..])) + EntryOf(t.id);
    }
  }

  lemma {:induction false} HSetAllAdd(r: Redis, ts: seq<Task>, t: Task)
    ensures HSetAll(r, ts + [t]) == if IsV7(t.id) then HSetAll(r, ts).HSet(t) else HSetAll(r, ts)
    decreases ts
  {
    if ts == [] {
      assert ts + [t] == [t] && [t][1..] == [];
    } else {
      assert (ts + [t])[1..] == ts[1..] + [t];
      HSetAllAdd(if IsV7(ts[0].id) then r.HSet(ts[0]) else r, ts[1..], t);
    }
  }

  lemma {:induction false} MetasAdd(hashes: map<Uuid, Hash>, ids: seq<Uuid>, id: Uuid)
    ensures FoundMetas(hashes, ids + [id]) ==
            FoundMetas(hashes, ids) + (if Meta(hashes, id).Some? then [Meta(hashes, id).value] else [])
    ensures MissingMetas(hashes, ids + [id]) ==
            MissingMetas(hashes, ids) + (if Meta(hashes, id).None? then [id] else [])
    decreases ids
  {
    if ids == [] {
      assert ids + [id] == [id] && [id][1..] == [];
    } else {
      assert (ids + [id])[1..] == ids[1..] + [id];
      MetasAdd(hashes, ids[1..], id);
    }
  }

  lemma Replaced(zsets: map<Column, ZSet>, k: Column, z: ZSet)
    ensures (zsets - {k})[k := z] == zsets[k := z]
  {
  }

  class TaskCache {
    var redis: Redis

    constructor ()
      ensures redis == Redis(map[], map[])
    {
      redis := Redis(map[], map[]);
    }

    /** AddTask; an id that is not of version 7 is refused before anything is written. */
    method AddTask(t: Task) returns (ok: bool)
      modifies this
      ensures ok <==> IsV7(t.id)
      ensures redis == if ok then AddTaskExec(old(redis), t, (t.project, t.status) in old(redis).zsets) else old(redis)
    {
      if !IsV7(t.id) {
        return false;
      }
      var k := (t.project, t.status);
      var present := k in redis.zsets;
      redis := redis.HSet(t);
      if present {
        var z := ZRem(redis.Zset(k), Empty);
        z := ZAdd(z, Entry(t.id.ms, Id(t.id)));
        redis := redis.Store(k, Take(z, KEPT));
      }
      ok := true;
    }

    /** GetTaskIDs: `None` when the column is not cached. */
    method GetTaskIDs(project: nat, status: string, limit: nat, cursor: Option<Uuid>)
      returns (ids: Option<seq<Uuid>>)
      ensures ids == if (project, status) in redis.zsets
                     then Some(PageIds(redis.zsets[(project, status)], limit, cursor)) else None
    {
      var k := (project, status);
      if k !in redis.zsets {
        return None;
      }
      var max: Option<int> := None;
      if cursor.Some? {
        var score := ZScore(redis.zsets[k], Id(cursor.value));
        if score.None? {
          if IsV7(cursor.value) {
            max := Some(cursor.value.ms);
          }
        } else {
          max := score;
        }
      }
      var zList := ZRevRangeByScore(redis.zsets[k], max, limit);
      var taskIDs: seq<Uuid> := [];
      assert zList[..0] == [];
      for i := 0 to |zList|
        invariant taskIDs == Ids(zList[..i])
      {
        assert zList[..i + 1] == zList[..i] + [zList[i]];
        IdsAdd(zList[..i], zList[i]);
        if zList[i].member.Id? {
          taskIDs := taskIDs + [zList[i].member.id];
        }
      }
      assert zList[..|zList|] == zList;
      ids := Some(taskIDs);
    }

    /** GetTaskMetas */
    method GetTaskMetas(ids: seq<Uuid>) returns (tasks: seq<Task>, missingIDs: seq<Uuid>)
      ensures tasks == FoundMetas(redis.hashes, ids) && missingIDs == MissingMetas(redis.hashes, ids)
    {
      tasks, missingIDs := [], [];
      assert ids[..0] == [];
      for i := 0 to |ids|
        invariant tasks == FoundMetas(redis.hashes, ids[..i])
        invariant missingIDs == MissingMetas(redis.hashes, ids[..i])
      {
        assert ids[..i + 1] == ids[..i] + [ids[i]];
        MetasAdd(redis.hashes, ids[..i], ids[i]);
        match Meta(redis.hashes, ids[i])
        case None => missingIDs := missingIDs + [ids[i]];
        case Some(t) => tasks := tasks + [t];
      }
      assert ids[..|ids|] == ids;
    }

    /** SetTaskMeta, UpdateTaskMeta */
    method SetTaskMeta(t: Task)
      modifies this
      ensures redis == old(redis).HSet(t)
    {
      redis := redis.HSet(t);
    }

    /** SetColumnCache */
    method SetColumnCache(project: nat, status: string, tasks: seq<Task>)
      modifies this
      ensures redis == SetColumnExec(old(redis), (project, status), tasks)
    {
      var k := (project, status);
      var was := redis;
      redis := redis.Store(k, []);
      if |tasks| > 0 {
        var zMembers: seq<Entry> := [];
        assert tasks[..0] == [];
        for i := 0 to |tasks|
          invariant zMembers == Entries(tasks[..i])
          invariant redis == HSetAll(was, tasks[..i]).Store(k, [])
        {
          var t := tasks[i];
          assert tasks[..i + 1] == tasks[..i] + [t];
          EntriesAdd(tasks[..i], t);
          HSetAllAdd(was, tasks[..i], t);
          if IsV7(t.id) {
            zMembers := zMembers + [Entry(t.id.ms, Id(t.id))];
            redis := redis.HSet(t);
          }
        }
        assert tasks[..|tasks|] == tasks;
        HSetAllKeepsZsets(was, tasks);
        if |zMembers| > 0 {
          redis := redis.Store(k, ZAddAll(redis.Zset(k), zMembers));
        }
        Replaced(was.zsets, k, ZAddAll([], zMembers));
      } else {
        redis := redis.Store(k, ZAdd(redis.Zset(k), Entry(-1, Empty)));
        Replaced(was.zsets, k, [Entry(-1, Empty)]);
      }
    }

    /** UpdateTaskStatus */
    method UpdateTaskStatus(project: nat, id: Uuid, oldStatus: string, newStatus: string) returns (ok: bool)
      modifies this
      ensures ok <==> IsV7(id)
      ensures redis ==
              var existed := (project, newStatus) in old(redis).zsets;
              if ok then MoveExec(old(redis), project, id, oldStatus, newStatus, existed) else old(redis)
    {
      if !IsV7(id) {
        return false;
      }
      var oldKey, newKey := (project, oldStatus), (project, newStatus);
      var newExists := newKey in redis.zsets;
      redis := redis.HSetStatus(id, newStatus);
      redis := redis.Store(oldKey, ZRem(redis.Zset(oldKey), Id(id)));
      if newExists {
        var z := ZRem(redis.Zset(newKey), Empty);
        z := ZAdd(z, Entry(id.ms, Id(id)));
        redis := redis.Store(newKey, Take(z, KEPT));
      }
      ok := true;
    }

    /** InvalidateTasks */
    method InvalidateTasks(project: nat)
      modifies this
      ensures redis == InvalidateExec(old(redis), project)
    {
      var keys: set<Column> := {};
      for i := 0 to |STATUSES|
        invariant keys == set st | st in STATUSES[..i] :: (project, st)
      {
        assert STATUSES[..i + 1] == STATUSES[..i] + [STATUSES[i]];
        keys := keys + {(project, STATUSES[i])};
      }
      assert STATUSES[..|STATUSES|] == STATUSES;
      redis := redis.(zsets := redis.zsets - keys);
    }
  }

  lemma {:induction false} HSetAllKeepsZsets(r: Redis, tasks: seq<Task>)
    ensures HSetAll(r, tasks).zsets == r.zsets
    decreases tasks
  {
    if tasks != [] {
      HSetAllKeepsZsets(if IsV7(tasks[0].id) then r.HSet(tasks[0]) else r, tasks[1..]);
    }
  }
}
