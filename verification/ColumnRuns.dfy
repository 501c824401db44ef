/**
 Runs of the column cache.  EXISTS is issued before the MULTI, so an addition or a move is two
 steps, and anything may happen in between: other operations, loads, invalidations, expiry.
 */
module ColumnRuns {
  import opened Uuid
  import opened SortedSeq
  import opened ColumnCache

  /** What every cached column looks like. */
  ghost predicate ColumnOk(z: ZSet) {
    && 0 < |z| <= KEPT
    && OwnScores(z)
    && (z == [Entry(-1, Empty)] || NoMarker(z))
  }

  ghost predicate NoMarker(z: ZSet) {
    forall e :: e in z ==> e.member.Id?
  }

  /** In order, and every task under its own timestamp. */
  ghost predicate OwnScores(z: ZSet) {
    Descending(EntryLess, z) && forall e :: e in z && e.member.Id? ==> IsV7(e.member.id) && e == Own(e.member.id)
  }

  function Own(id: Uuid): Entry {
    Entry(id.ms, Id(id))
  }

  ghost predicate HashesOk(hashes: map<Uuid, Hash>) {
    forall id :: id in hashes && hashes[id].Full? ==> hashes[id].task.id == id
  }

  ghost predicate RedisOk(r: Redis) {
    (forall k :: k in r.zsets ==> ColumnOk(r.zsets[k])) && HashesOk(r.hashes)
  }

  /******* Single commands *******/

  lemma ZRemKeeps(z: ZSet, m: Member)
    requires OwnScores(z)
    ensures OwnScores(ZRem(z, m)) && |ZRem(z, m)| <= |z|
    ensures forall e :: e in ZRem(z, m) <==> e in z && e.member != m
  {
    var p := (e: Entry) => e.member != m;
    FilterMembers(p, z);
    FilterDescending(EntryLess, p, z);
  }

  lemma ZAddKeeps(z: ZSet, id: Uuid)
    requires OwnScores(z) && IsV7(id)
    ensures OwnScores(ZAdd(z, Own(id))) && 0 < |ZAdd(z, Own(id))| <= |z| + 1
    ensures forall e :: e in ZAdd(z, Own(id)) <==> e in z || e == Own(id)
  {
    EntryOrder();
    ZRemKeeps(z, Id(id));
    var rest := ZRem(z, Id(id));
    InsertMembers(EntryLess, rest, Own(id));
    InsertDescending(EntryLess, rest, Own(id));
    assert Own(id) in Insert(EntryLess, rest, Own(id));
  }

  lemma TakeKeeps(z: ZSet, n: nat)
    requires OwnScores(z)
    ensures OwnScores(Take(z, n))
    ensures forall e :: e in Take(z, n) ==> e in z
  {
  }

  lemma {:induction false} ZAddAllKeeps(z: ZSet, es: seq<Entry>)
    requires OwnScores(z) && NoMarker(z)
    requires forall e :: e in es ==> e.member.Id? && IsV7(e.member.id) && e == Own(e.member.id)
    ensures OwnScores(ZAddAll(z, es)) && NoMarker(ZAddAll(z, es))
    ensures |ZAddAll(z, es)| <= |z| + |es|
    ensures forall e :: e in ZAddAll(z, es) <==> e in z || e in es
    decreases es
  {
    if es != [] {
      assert es[0] in es;
      ZAddKeeps(z, es[0].member.id);
      ZAddAllKeeps(ZAdd(z, es[0]), es[1..]);
      assert es == [es[0]] + es[1..];
    }
  }

  lemma {:induction false} EntriesOwn(tasks: seq<Task>)
    ensures |Entries(tasks)| <= |tasks|
    ensures forall e :: e in Entries(tasks) ==> e.member.Id? && IsV7(e.member.id) && e == Own(e.member.id)
    decreases tasks
  {
    if tasks != [] {
      EntriesOwn(tasks[1..]);
    }
  }

  lemma AddAndPruneKeeps(z: ZSet, id: Uuid)
    requires OwnScores(z) && (NoMarker(z) || z == [Entry(-1, Empty)]) && IsV7(id)
    ensures ColumnOk(Take(ZAdd(ZRem(z, Empty), Own(id)), KEPT))
  {
    ZRemKeeps(z, Empty);
    ZAddKeeps(ZRem(z, Empty), id);
    TakeKeeps(ZAdd(ZRem(z, Empty), Own(id)), KEPT);
  }

  /** Putting a list into its place, where an empty one means deletion. */
  lemma StoreKeeps(r: Redis, k: Column, z: ZSet)
    requires RedisOk(r) && (z == [] || ColumnOk(z))
    ensures RedisOk(r.Store(k, z))
  {
  }

  lemma ZsetOk(r: Redis, k: Column)
    requires RedisOk(r)
    ensures OwnScores(r.Zset(k)) && (NoMarker(r.Zset(k)) || r.Zset(k) == [Entry(-1, Empty)])
    ensures |r.Zset(k)| <= KEPT
  {
  }

  lemma AddTaskKeeps(r: Redis, t: Task, existed: bool)
    requires RedisOk(r) && IsV7(t.id)
    ensures RedisOk(AddTaskExec(r, t, existed))
  {
    var k := (t.project, t.status);
    ZsetOk(r, k);
    AddAndPruneKeeps(r.Zset(k), t.id);
  }

  lemma MoveKeeps(r: Redis, project: nat, id: Uuid, oldStatus: string, newStatus: string, newExisted: bool)
    requires RedisOk(r) && IsV7(id)
    ensures RedisOk(MoveExec(r, project, id, oldStatus, newStatus, newExisted))
  {
    var r1, k := r.HSetStatus(id, newStatus), (project, oldStatus);
    ZsetOk(r1, k);
    ZRemKeeps(r1.Zset(k), Id(id));
    var z := ZRem(r1.Zset(k), Id(id));
    if r1.Zset(k) == [Entry(-1, Empty)] {
      assert z == r1.Zset(k);
    }
    StoreKeeps(r1, k, z);
    var r2 := r1.Store(k, z);
    ZsetOk(r2, (project, newStatus));
    AddAndPruneKeeps(r2.Zset((project, newStatus)), id);
  }

  lemma {:induction false} HSetAllKeeps(r: Redis, tasks: seq<Task>)
    requires RedisOk(r)
    ensures RedisOk(HSetAll(r, tasks))
    decreases tasks
  {
    if tasks != [] {
      HSetAllKeeps(if IsV7(tasks[0].id) then r.HSet(tasks[0]) else r, tasks[1..]);
    }
  }

  lemma LoadKeeps(r: Redis, k: Column, tasks: seq<Task>)
    requires RedisOk(r) && |tasks| <= KEPT
    ensures RedisOk(SetColumnExec(r, k, tasks))
  {
    if tasks != [] {
      HSetAllKeeps(r, tasks);
      EntriesOwn(tasks);
      ZAddAllKeeps([], Entries(tasks));
    } else {
      StoreKeeps(r, k, [Entry(-1, Empty)]);
    }
  }

  /******* Interleaved runs *******/

  /** An operation between its EXISTS and its MULTI. */
  datatype Pending =
    | Adding(task: Task, existed: bool)
    | Moving(project: nat, id: Uuid, oldStatus: string, newStatus: string, existed: bool)

  datatype System = System(redis: Redis, pending: map<nat, Pending>)

  datatype Event =
    | AddCheck(caller: nat, task: Task)
    | MoveCheck(caller: nat, project: nat, id: Uuid, oldStatus: string, newStatus: string)
    | Exec(caller: nat)
    | Load(key: Column, tasks: seq<Task>)
    | SetMeta(task: Task)
    | Invalidate(project: nat)
    | ExpireColumn(key: Column)
    | ExpireHash(id: Uuid)

  /** Loads bring at most a hundred rows: a page of the board, or the pre-warming query. */
  predicate Possible(e: Event) {
    e.Load? ==> |e.tasks| <= KEPT
  }

  function ExecPending(r: Redis, p: Pending): Redis {
    match p
    case Adding(t, existed) => AddTaskExec(r, t, existed)
    case Moving(project, id, oldStatus, newStatus, existed) => MoveExec(r, project, id, oldStatus, newStatus, existed)
  }

  function Step(s: System, e: Event): System {
    match e
    case AddCheck(c, t) =>
      if IsV7(t.id) then s.(pending := s.pending[c := Adding(t, (t.project, t.status) in s.redis.zsets)]) else s
    case MoveCheck(c, project, id, oldStatus, newStatus) =>
      if IsV7(id) then
        s.(pending := s.pending[c := Moving(project, id, oldStatus, newStatus, (project, newStatus) in s.redis.zsets)])
      else s
    case Exec(c) =>
      if c in s.pending then System(ExecPending(s.redis, s.pending[c]), s.pending - {c}) else s
    case Load(k, tasks) => s.(redis := SetColumnExec(s.redis, k, tasks))
    case SetMeta(t) => s.(redis := s.redis.HSet(t))
    case Invalidate(project) => s.(redis := InvalidateExec(s.redis, project))
    case ExpireColumn(k) => s.(redis := s.redis.(zsets := s.redis.zsets - {k}))
    case ExpireHash(id) => s.(redis := s.redis.(hashes := s.redis.hashes - {id}))
  }

  function Run(s: System, es: seq<Event>): System
    decreases es
  {
    if es == [] then s else Run(Step(s, es[0]), es[1..])
  }

  ghost predicate SystemOk(s: System) {
    && RedisOk(s.redis)
    && forall c :: c in s.pending ==>
         IsV7(if s.pending[c].Adding? then s.pending[c].task.id else s.pending[c].id)
  }

  lemma StepKeeps(s: System, e: Event)
    requires SystemOk(s) && Possible(e)
    ensures SystemOk(Step(s, e))
  {
    match e
    case Exec(c) =>
      if c in s.pending {
        match s.pending[c]
        case Adding(t, existed) => AddTaskKeeps(s.redis, t, existed);
        case Moving(project, id, oldStatus, newStatus, existed) =>
          MoveKeeps(s.redis, project, id, oldStatus, newStatus, existed);
      }
    case Load(k, tasks) => LoadKeeps(s.redis, k, tasks);
    case _ =>
  }

  /** Whatever the interleaving, columns and hashes stay well formed. */
  lemma {:induction false} RunKeeps(s: System, es: seq<Event>)
    requires SystemOk(s) && forall e :: e in es ==> Possible(e)
    ensures SystemOk(Run(s, es))
    decreases es
  {
    if es != [] {
      assert es[0] in es;
      StepKeeps(s, es[0]);
      RunKeeps(Step(s, es[0]), es[1..]);
    }
  }

  /**
   The invariant spelled out for a run from an empty Redis: a present column has 1 to 100
   entries, all different members, the marker only alone and with score -1, and every task
   is of version 7 and scored by its own timestamp.
   */
  lemma ColumnInvariant(es: seq<Event>, k: Column)
    requires forall e :: e in es ==> Possible(e)
    requires k in Run(System(Redis(map[], map[]), map[]), es).redis.zsets
    ensures var z := Run(System(Redis(map[], map[]), map[]), es).redis.zsets[k];
            && 1 <= |z| <= 100
            && (forall i, j :: 0 <= i < j < |z| ==> z[i].member != z[j].member)
            && (forall i :: 0 <= i < |z| && z[i].member == Empty ==> z == [Entry(-1, Empty)])
            && (forall i :: 0 <= i < |z| && z[i].member.Id? ==>
                  IsV7(z[i].member.id) && z[i].score == z[i].member.id.ms)
  {
    RunKeeps(System(Redis(map[], map[]), map[]), es);
    var z := Run(System(Redis(map[], map[]), map[]), es).redis.zsets[k];
    assert ColumnOk(z);
    forall i, j | 0 <= i < j < |z| ensures z[i].member != z[j].member {
      assert z[i] in z && z[j] in z;
      assert EntryLess(z[j], z[i]);
    }
    forall i | 0 <= i < |z| && z[i].member == Empty ensures z == [Entry(-1, Empty)] {
      assert z[i] in z;
    }
  }

  /**
   A present column need not be complete: the key may expire between EXISTS and MULTI, and then
   the addition creates a column of one task.
   */
  lemma ExpiryLeavesFragment(r: Redis, t: Task)
    requires IsV7(t.id) && (t.project, t.status) in r.zsets
    ensures var k := (t.project, t.status);
            Run(System(r, map[]), [AddCheck(0, t), ExpireColumn(k), Exec(0)]).redis.Zset(k) == [Own(t.id)]
  {
    var k := (t.project, t.status);
    var es := [AddCheck(0, t), ExpireColumn(k), Exec(0)];
    var s0 := System(r, map[]);
    var s1 := Step(s0, es[0]);
    var s2 := Step(s1, es[1]);
    var s3 := Step(s2, es[2]);
    assert es[1..] == [es[1], es[2]] && es[1..][1..] == [es[2]];
    var none: seq<Event> := [];
    assert [es[2]][1..] == none;
    assert Run(s2, [es[2]]) == Run(s3, none);
    assert Run(s0, es) == Run(s1, es[1..]) == s3;
    assert s2.redis.HSet(t).Zset(k) == [];
  }

  /******* Incremental pruning is global selection *******/

  /** A task that arrives in column `k`: created there, or moved there from `oldStatus`. */
  datatype Arrival = Created(task: Task) | Moved(id: Uuid, oldStatus: string) {
    function Entry(): seq<Entry> {
      EntryOf(if Created? then task.id else id)
    }
  }

  /** The whole operation, with nothing between EXISTS and MULTI. */
  function Arrive(r: Redis, k: Column, a: Arrival): Redis {
    match a
    case Created(t) => if IsV7(t.id) then AddTaskExec(r, t, (t.project, t.status) in r.zsets) else r
    case Moved(id, oldStatus) =>
      if IsV7(id) then MoveExec(r, k.0, id, oldStatus, k.1, k in r.zsets) else r
  }

  function ArriveAll(r: Redis, k: Column, arrivals: seq<Arrival>): Redis
    decreases arrivals
  {
    if arrivals == [] then r else ArriveAll(Arrive(r, k, arrivals[0]), k, arrivals[1..])
  }

  function ArrivalEntries(arrivals: seq<Arrival>): seq<Entry> {
    if arrivals == [] then [] else arrivals[0].Entry() + ArrivalEntries(arrivals[1..])
  }

  ghost predicate Into(k: Column, a: Arrival) {
    a.Created? ==> (a.task.project, a.task.status) == k
  }

  /** The entries of the tasks in a column. */
  function TaskEntries(z: ZSet): ZSet {
    ZRem(z, Empty)
  }

  /** For a task under its own timestamp, ZADD is insertion. */
  lemma ZAddIsInsert(z: ZSet, id: Uuid)
    requires OwnScores(z) && IsV7(id)
    ensures ZAdd(z, Own(id)) == Insert(EntryLess, z, Own(id))
    ensures ZAdd(ZRem(z, Id(id)), Own(id)) == Insert(EntryLess, z, Own(id))
  {
    EntryOrder();
    ZRemKeeps(z, Id(id));
    ZRemKeeps(ZRem(z, Id(id)), Id(id));
    ZAddKeeps(z, id);
    ZAddKeeps(ZRem(z, Id(id)), id);
    InsertMembers(EntryLess, z, Own(id));
    InsertDescending(EntryLess, z, Own(id));
    DescendingUnique(EntryLess, ZAdd(z, Own(id)), Insert(EntryLess, z, Own(id)));
    DescendingUnique(EntryLess, ZAdd(ZRem(z, Id(id)), Own(id)), Insert(EntryLess, z, Own(id)));
  }

  lemma NoMarkerTasks(z: ZSet)
    requires NoMarker(z)
    ensures TaskEntries(z) == z
  {
    FilterAll((e: Entry) => e.member != Empty, z);
  }

  /** Adding and pruning, seen on the tasks of the column. */
  lemma AddAndPruneInserts(z: ZSet, id: Uuid)
    requires ColumnOk(z) && IsV7(id)
    ensures Take(ZAdd(ZRem(z, Empty), Own(id)), KEPT) == Take(Insert(EntryLess, TaskEntries(z), Own(id)), KEPT)
    ensures NoMarker(Take(ZAdd(ZRem(z, Empty), Own(id)), KEPT))
  {
    ZRemKeeps(z, Empty);
    ZAddIsInsert(TaskEntries(z), id);
    InsertMembers(EntryLess, TaskEntries(z), Own(id));
  }

  /** A move into its own column first removes the task, and then behaves in the same way. */
  lemma RemoveAddAndPrune(z: ZSet, id: Uuid)
    requires ColumnOk(z) && IsV7(id)
    ensures Take(ZAdd(ZRem(ZRem(z, Id(id)), Empty), Own(id)), KEPT)
         == Take(Insert(EntryLess, TaskEntries(z), Own(id)), KEPT)
  {
    EntryOrder();
    var a, b := ZRem(ZRem(z, Id(id)), Empty), ZRem(ZRem(z, Empty), Id(id));
    ZRemKeeps(z, Id(id));
    ZRemKeeps(ZRem(z, Id(id)), Empty);
    ZRemKeeps(z, Empty);
    ZRemKeeps(ZRem(z, Empty), Id(id));
    DescendingUnique(EntryLess, a, b);
    ZAddIsInsert(TaskEntries(z), id);
  }

  /** The column behind an arrival: the arrival's entry inserted, cut to the hundred greatest. */
  ghost predicate Inserted(r: Redis, r': Redis, k: Column, id: Uuid)
    requires k in r.zsets
  {
    && RedisOk(r') && k in r'.zsets
    && TaskEntries(r'.zsets[k]) == Take(Insert(EntryLess, TaskEntries(r.zsets[k]), Own(id)), KEPT)
  }

  lemma CreatedInserts(r: Redis, k: Column, t: Task)
    requires RedisOk(r) && k in r.zsets && Into(k, Created(t)) && IsV7(t.id)
    ensures Inserted(r, Arrive(r, k, Created(t)), k, t.id)
  {
    var z := r.zsets[k];
    AddAndPruneInserts(z, t.id);
    NoMarkerTasks(Take(ZAdd(ZRem(z, Empty), Own(t.id)), KEPT));
    AddTaskKeeps(r, t, true);
  }

  lemma MovedInserts(r: Redis, k: Column, id: Uuid, oldStatus: string)
    requires RedisOk(r) && k in r.zsets && Into(k, Moved(id, oldStatus)) && IsV7(id)
    ensures Inserted(r, Arrive(r, k, Moved(id, oldStatus)), k, id)
  {
    var z := r.zsets[k];
    AddAndPruneInserts(z, id);
    RemoveAddAndPrune(z, id);
    NoMarkerTasks(Take(ZAdd(ZRem(z, Empty), Own(id)), KEPT));
    MoveKeeps(r, k.0, id, oldStatus, k.1, true);
  }

  lemma ArriveInserts(r: Redis, k: Column, a: Arrival)
    requires RedisOk(r) && k in r.zsets && Into(k, a)
    ensures a.Entry() == [] ==> Arrive(r, k, a) == r
    ensures a.Entry() != [] ==> Inserted(r, Arrive(r, k, a), k, a.Entry()[0].member.id)
    ensures RedisOk(Arrive(r, k, a)) && k in Arrive(r, k, a).zsets
  {
    if a.Entry() != [] {
      match a
      case Created(t) => CreatedInserts(r, k, t);
      case Moved(id, oldStatus) => MovedInserts(r, k, id, oldStatus);
    }
  }

  /** Column `k` holds the hundred largest of the entries `seen`. */
  ghost predicate Selects(r: Redis, k: Column, seen: seq<Entry>) {
    && RedisOk(r) && k in r.zsets
    && TaskEntries(r.zsets[k]) == Take(SortDesc(EntryLess, seen), KEPT)
  }

  /** One arrival selects among one entry more. */
  lemma ArriveSelects(r: Redis, k: Column, a: Arrival, seen: seq<Entry>)
    requires Into(k, a) && Selects(r, k, seen)
    ensures Selects(Arrive(r, k, a), k, seen + a.Entry())
  {
    ArriveInserts(r, k, a);
    if a.Entry() == [] {
      assert seen + a.Entry() == seen;
    } else {
      var e := a.Entry()[0];
      assert a.Entry() == [e];
      EntryOrder();
      SortDescending(EntryLess, seen);
      PruneInsert(EntryLess, SortDesc(EntryLess, seen), e, KEPT);
      InsertIsSort(EntryLess, SortDesc(EntryLess, seen), seen, e);
    }
  }

  function SeenAfter(seen: seq<Entry>, arrivals: seq<Arrival>): seq<Entry>
    decreases arrivals
  {
    if arrivals == [] then seen else SeenAfter(seen + arrivals[0].Entry(), arrivals[1..])
  }

  lemma {:induction false} SeenAfterIsConcat(seen: seq<Entry>, arrivals: seq<Arrival>)
    ensures SeenAfter(seen, arrivals) == seen + ArrivalEntries(arrivals)
    decreases arrivals
  {
    if arrivals == [] {
      assert seen + ArrivalEntries(arrivals) == seen;
    } else {
      SeenAfterIsConcat(seen + arrivals[0].Entry(), arrivals[1..]);
      assert seen + arrivals[0].Entry() + ArrivalEntries(arrivals[1..])
          == seen + (arrivals[0].Entry() + ArrivalEntries(arrivals[1..]));
    }
  }

  lemma {:induction false} ArrivalsSelect(r: Redis, k: Column, arrivals: seq<Arrival>, seen: seq<Entry>)
    requires Selects(r, k, seen) && forall i :: 0 <= i < |arrivals| ==> Into(k, arrivals[i])
    ensures Selects(ArriveAll(r, k, arrivals), k, SeenAfter(seen, arrivals))
    decreases arrivals
  {
    if arrivals != [] {
      ArriveSelects(r, k, arrivals[0], seen);
      ArrivalsSelect(Arrive(r, k, arrivals[0]), k, arrivals[1..], seen + arrivals[0].Entry());
    }
  }

  /**
   Pruning after every arrival selects what one selection at the end would: the hundred largest,
   by timestamp and id, of everything that was in the column or arrived.
   */
  lemma {:induction false} PruningIsGlobalSelection(r: Redis, k: Column, arrivals: seq<Arrival>, seen: seq<Entry>)
    requires Selects(r, k, seen) && forall i :: 0 <= i < |arrivals| ==> Into(k, arrivals[i])
    ensures Selects(ArriveAll(r, k, arrivals), k, seen + ArrivalEntries(arrivals))
  {
    ArrivalsSelect(r, k, arrivals, seen);
    SeenAfterIsConcat(seen, arrivals);
  }

  lemma ZAddAllIsSort(es: seq<Entry>)
    requires forall e :: e in es ==> e.member.Id? && IsV7(e.member.id) && e == Own(e.member.id)
    ensures ZAddAll([], es) == SortDesc(EntryLess, es)
  {
    EntryOrder();
    ZAddAllKeeps([], es);
    SortMembers(EntryLess, es);
    SortDescending(EntryLess, es);
    DescendingUnique(EntryLess, ZAddAll([], es), SortDesc(EntryLess, es));
  }

  /** From the load of a column: the hundred greatest of all tasks loaded or added since. */
  lemma {:induction false} LoadedColumnSelects(r: Redis, k: Column, tasks: seq<Task>, arrivals: seq<Arrival>)
    requires RedisOk(r) && |tasks| <= KEPT
    requires k in SetColumnExec(r, k, tasks).zsets
    requires forall i :: 0 <= i < |arrivals| ==> Into(k, arrivals[i])
    ensures var last := ArriveAll(SetColumnExec(r, k, tasks), k, arrivals);
            && k in last.zsets
            && TaskEntries(last.zsets[k]) == Take(SortDesc(EntryLess, Entries(tasks) + ArrivalEntries(arrivals)), KEPT)
  {
    var loaded := SetColumnExec(r, k, tasks);
    LoadKeeps(r, k, tasks);
    EntriesOwn(tasks);
    ZAddAllIsSort(Entries(tasks));
    ZAddAllKeeps([], Entries(tasks));
    NoMarkerTasks(ZAddAll([], Entries(tasks)));
    PruningIsGlobalSelection(loaded, k, arrivals, Entries(tasks));
  }
}
