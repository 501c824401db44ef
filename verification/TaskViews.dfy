/**
 What a user is to see of a task: its cached hash, if complete, and else its row of the `tasks`
 table.  The writes by which the service repairs its cache leave these effective views alone.
 */
module TaskViews {
  import opened Wrappers
  import opened Uuid
  import opened SortedSeq
  import opened ColumnCache
  import opened ColumnRuns

  /******* The table *******/

  /** The primary key: id and workspace. */
  ghost predicate PrimaryKey(rows: seq<Task>) {
    forall i, j :: 0 <= i < j < |rows| ==> rows[i].id != rows[j].id || rows[i].workspace != rows[j].workspace
  }

  function FindByID(rows: seq<Task>, workspace: nat, id: Uuid): Option<Task> {
    if rows == [] then None
    else if rows[0].id == id && rows[0].workspace == workspace then Some(rows[0])
    else FindByID(rows[1..], workspace, id)
  }

  /** What `ORDER BY created_at DESC, id DESC` compares. */
  datatype Key = Key(created: int, id: Uuid)

  predicate KeyLess(a: Key, b: Key) {
    a.created < b.created || (a.created == b.created && Less(a.id, b.id))
  }

  predicate Matches(t: Task, workspace: nat, project: nat, status: string, cursor: Option<Uuid>) {
    && t.workspace == workspace && t.project == project && t.status == status
    && (cursor.Some? ==> Less(t.id, cursor.value))
  }

  function Keys(rows: seq<Task>): seq<Key> {
    if rows == [] then [] else [Key(rows[0].created, rows[0].id)] + Keys(rows[1..])
  }

  function RowsAt(rows: seq<Task>, workspace: nat, keys: seq<Key>): seq<Task> {
    if keys == [] then []
    else
      var t := FindByID(rows, workspace, keys[0].id);
      (if t.Some? then [t.value] else []) + RowsAt(rows, workspace, keys[1..])
  }

  /** The rows that a query for a column selects, before it orders and limits them. */
  function Selected(rows: seq<Task>, workspace: nat, project: nat, status: string, cursor: Option<Uuid>): seq<Task> {
    Filter((t: Task) => Matches(t, workspace, project, status, cursor), rows)
  }

  /** GetByProjectIDAndStatusCursor */
  function DbPage(
    rows: seq<Task>, workspace: nat, project: nat, status: string, limit: nat, cursor: Option<Uuid>
  ): seq<Task>
  {
    RowsAt(rows, workspace, Take(SortDesc(KeyLess, Keys(Selected(rows, workspace, project, status, cursor))), limit))
  }

  lemma {:induction false} FindByIDFinds(rows: seq<Task>, workspace: nat, t: Task)
    requires PrimaryKey(rows) && t in rows && t.workspace == workspace
    ensures FindByID(rows, workspace, t.id) == Some(t)
    decreases rows
  {
    assert rows == [rows[0]] + rows[1..];
    if rows[0] != t {
      FindByIDFinds(rows[1..], workspace, t);
    }
  }

  lemma {:induction false} KeyOfRow(rows: seq<Task>, k: Key) returns (t: Task)
    requires k in Keys(rows)
    ensures t in rows && k == Key(t.created, t.id)
    decreases rows
  {
    if k == Key(rows[0].created, rows[0].id) {
      t := rows[0];
    } else {
      t := KeyOfRow(rows[1..], k);
    }
  }

  lemma {:induction false} RowHasKey(rows: seq<Task>, t: Task)
    requires t in rows
    ensures Key(t.created, t.id) in Keys(rows)
    decreases rows
  {
    if t != rows[0] {
      RowHasKey(rows[1..], t);
    }
  }

  lemma KeyOrder()
    ensures StrictTotal(KeyLess)
  {
  }

  lemma SelectedIs(rows: seq<Task>, workspace: nat, project: nat, status: string, cursor: Option<Uuid>)
    ensures forall t :: t in Selected(rows, workspace, project, status, cursor) <==>
                        t in rows && Matches(t, workspace, project, status, cursor)
  {
    FilterMembers((t: Task) => Matches(t, workspace, project, status, cursor), rows);
  }

  /** Rows found by keys that are keys of selected rows have these keys, in this order. */
  lemma {:induction false} KeysOfRowsAt(rows: seq<Task>, workspace: nat, selected: seq<Task>, keys: seq<Key>)
    requires PrimaryKey(rows) && forall t :: t in selected ==> t in rows && t.workspace == workspace
    requires forall k :: k in keys ==> k in Keys(selected)
    ensures Keys(RowsAt(rows, workspace, keys)) == keys
    ensures forall t :: t in RowsAt(rows, workspace, keys) ==> t in selected
    decreases keys
  {
    if keys != [] {
      assert keys[0] in keys;
      var t := KeyOfRow(selected, keys[0]);
      FindByIDFinds(rows, workspace, t);
      KeysOfRowsAt(rows, workspace, selected, keys[1..]);
      var rest := RowsAt(rows, workspace, keys[1..]);
      assert RowsAt(rows, workspace, keys) == [t] + rest && ([t] + rest)[1..] == rest;
    }
  }

  /**
   The page of a query is in the order of the query, and its keys are the first `limit` of the
   keys of the selected rows.
   */
  lemma DbPageKeys(rows: seq<Task>, workspace: nat, project: nat, status: string, limit: nat, cursor: Option<Uuid>)
    requires PrimaryKey(rows)
    ensures var page := DbPage(rows, workspace, project, status, limit, cursor);
            && Keys(page) == Take(SortDesc(KeyLess, Keys(Selected(rows, workspace, project, status, cursor))), limit)
            && Descending(KeyLess, Keys(page))
            && forall t :: t in page ==> t in Selected(rows, workspace, project, status, cursor)
  {
    var selected := Selected(rows, workspace, project, status, cursor);
    KeyOrder();
    SortMembers(KeyLess, Keys(selected));
    SortDescending(KeyLess, Keys(selected));
    SelectedIs(rows, workspace, project, status, cursor);
    KeysOfRowsAt(rows, workspace, selected, Take(SortDesc(KeyLess, Keys(selected)), limit));
  }

  /** The rows of a page are rows of the table that match the query. */
  lemma DbPageRows(rows: seq<Task>, workspace: nat, project: nat, status: string, limit: nat, cursor: Option<Uuid>)
    requires PrimaryKey(rows)
    ensures forall t :: t in DbPage(rows, workspace, project, status, limit, cursor) ==>
              && t in rows && Matches(t, workspace, project, status, cursor)
              && FindByID(rows, workspace, t.id) == Some(t)
  {
    DbPageKeys(rows, workspace, project, status, limit, cursor);
    SelectedIs(rows, workspace, project, status, cursor);
    forall t | t in DbPage(rows, workspace, project, status, limit, cursor)
      ensures FindByID(rows, workspace, t.id) == Some(t)
    {
      FindByIDFinds(rows, workspace, t);
    }
  }

  lemma {:induction false} KeysSize(rows: seq<Task>)
    ensures |Keys(rows)| == |rows|
    decreases rows
  {
    if rows != [] {
      KeysSize(rows[1..]);
    }
  }

  lemma {:induction false} RowsAtSize(rows: seq<Task>, workspace: nat, keys: seq<Key>)
    ensures |RowsAt(rows, workspace, keys)| <= |keys|
    decreases keys
  {
    if keys != [] {
      RowsAtSize(rows, workspace, keys[1..]);
    }
  }

  lemma DbPageSize(rows: seq<Task>, workspace: nat, project: nat, status: string, limit: nat, cursor: Option<Uuid>)
    ensures |DbPage(rows, workspace, project, status, limit, cursor)| <= limit
  {
    var selected := Selected(rows, workspace, project, status, cursor);
    RowsAtSize(rows, workspace, Take(SortDesc(KeyLess, Keys(selected)), limit));
  }

  /** A row with its key on the page is on the page. */
  lemma KeyOnPage(rows: seq<Task>, workspace: nat, page: seq<Task>, t: Task)
    requires PrimaryKey(rows) && t in rows && t.workspace == workspace
    requires forall u :: u in page ==> u in rows && u.workspace == workspace
    ensures t in page <==> Key(t.created, t.id) in Keys(page)
  {
    if t in page {
      RowHasKey(page, t);
    } else if Key(t.created, t.id) in Keys(page) {
      var u := KeyOfRow(page, Key(t.created, t.id));
      FindByIDFinds(rows, workspace, t);
      FindByIDFinds(rows, workspace, u);
    }
  }

  lemma {:induction false} SelectedKeysDistinct(rows: seq<Task>, workspace: nat, selected: seq<Task>)
    requires PrimaryKey(rows) && PrimaryKey(selected)
    requires forall t :: t in selected ==> t.workspace == workspace
    ensures NoRepetition(Keys(selected))
    decreases selected
  {
    if selected != [] {
      assert forall i :: 0 <= i < |selected[1..]| ==> selected[1..][i] == selected[i + 1];
      assert forall t :: t in selected[1..] ==> t in selected;
      SelectedKeysDistinct(rows, workspace, selected[1..]);
      var k := Key(selected[0].created, selected[0].id);
      assert selected[0] in selected;
      assert forall i :: 0 <= i < |selected[1..]| ==> selected[1..][i].id != k.id;
      if k in Keys(selected[1..]) {
        var t := KeyOfRow(selected[1..], k);
      }
      var rest := Keys(selected[1..]);
      assert Keys(selected) == [k] + rest;
    }
  }

  lemma {:induction false} FilterPrimaryKey(p: Task -> bool, rows: seq<Task>)
    requires PrimaryKey(rows)
    ensures PrimaryKey(Filter(p, rows))
    decreases rows
  {
    if rows != [] {
      assert forall i :: 0 <= i < |rows[1..]| ==> rows[1..][i] == rows[i + 1];
      FilterPrimaryKey(p, rows[1..]);
      FilterMembers(p, rows[1..]);
      var rest := Filter(p, rows[1..]);
      forall j | 0 <= j < |rest| ensures rest[j].id != rows[0].id || rest[j].workspace != rows[0].workspace {
        assert rest[j] in rows[1..];
        var i :| 0 <= i < |rows[1..]| && rows[1..][i] == rest[j];
      }
    }
  }

  /** A selected row is on the page if and only if fewer than `limit` selected rows rank above it. */
  lemma OnPageIff(
    rows: seq<Task>, workspace: nat, project: nat, status: string, limit: nat, cursor: Option<Uuid>, t: Task)
    requires PrimaryKey(rows) && t in rows && Matches(t, workspace, project, status, cursor)
    ensures var above := (k: Key) => KeyLess(Key(t.created, t.id), k);
            t in DbPage(rows, workspace, project, status, limit, cursor) <==>
            |Filter(above, Keys(Selected(rows, workspace, project, status, cursor)))| < limit
  {
    var selected := Selected(rows, workspace, project, status, cursor);
    var page := DbPage(rows, workspace, project, status, limit, cursor);
    var above := (k: Key) => KeyLess(Key(t.created, t.id), k);
    var sorted := SortDesc(KeyLess, Keys(selected));
    KeyOrder();
    SelectedIs(rows, workspace, project, status, cursor);
    DbPageKeys(rows, workspace, project, status, limit, cursor);
    KeyOnPage(rows, workspace, page, t);
    RowHasKey(selected, t);
    FilterPrimaryKey((u: Task) => Matches(u, workspace, project, status, cursor), rows);
    SelectedKeysDistinct(rows, workspace, selected);
    SortMembers(KeyLess, Keys(selected));
    SortDescending(KeyLess, Keys(selected));
    RankInTake(KeyLess, sorted, Key(t.created, t.id), limit, above);
    FilterSortSize(KeyLess, above, Keys(selected));
  }

  /** All selected rows are on the page if and only if there are at most `limit`. */
  lemma AllOnPageIff(rows: seq<Task>, workspace: nat, project: nat, status: string, limit: nat, cursor: Option<Uuid>)
    requires PrimaryKey(rows)
    ensures var selected := Selected(rows, workspace, project, status, cursor);
            (forall t :: t in selected ==> t in DbPage(rows, workspace, project, status, limit, cursor)) <==>
            |selected| <= limit
  {
    var selected := Selected(rows, workspace, project, status, cursor);
    var page := DbPage(rows, workspace, project, status, limit, cursor);
    var sorted := SortDesc(KeyLess, Keys(selected));
    KeyOrder();
    SelectedIs(rows, workspace, project, status, cursor);
    DbPageKeys(rows, workspace, project, status, limit, cursor);
    FilterPrimaryKey((u: Task) => Matches(u, workspace, project, status, cursor), rows);
    SelectedKeysDistinct(rows, workspace, selected);
    SortMembers(KeyLess, Keys(selected));
    SortDescending(KeyLess, Keys(selected));
    SortSizeExact(KeyLess, Keys(selected));
    KeysSize(selected);
    if |selected| <= limit {
      forall t | t in selected ensures t in page {
        RowHasKey(selected, t);
        KeyOnPage(rows, workspace, page, t);
      }
    } else {
      assert sorted[limit] in sorted;
      var t := KeyOfRow(selected, sorted[limit]);
      KeyOnPage(rows, workspace, page, t);
      assert forall i :: 0 <= i < limit ==> KeyLess(sorted[limit], sorted[i]);
      assert sorted[limit] !in sorted[..limit];
    }
  }

  /******* Effective views *******/

  /** The effective view of a task in a request for `workspace`. */
  function View(hashes: map<Uuid, Hash>, rows: seq<Task>, workspace: nat, id: Uuid): Option<Task> {
    if Meta(hashes, id).Some? then Meta(hashes, id) else FindByID(rows, workspace, id)
  }

  ghost predicate SameViews(h: map<Uuid, Hash>, h': map<Uuid, Hash>, rows: seq<Task>, workspace: nat) {
    forall id :: View(h', rows, workspace, id) == View(h, rows, workspace, id)
  }

  function Views(hashes: map<Uuid, Hash>, rows: seq<Task>, workspace: nat, ids: seq<Uuid>): seq<Task> {
    if ids == [] then []
    else ViewAt(hashes, rows, workspace, ids[0]) + Views(hashes, rows, workspace, ids[1..])
  }

  function ViewAt(hashes: map<Uuid, Hash>, rows: seq<Task>, workspace: nat, id: Uuid): seq<Task> {
    match View(hashes, rows, workspace, id)
    case None => []
    case Some(t) => [t]
  }

  function WithStatus(status: string, ts: seq<Task>): seq<Task> {
    Filter((t: Task) => t.status == status, ts)
  }

  /** What a column shows of a list of ids: the effective views that have its status, in order. */
  function Visible(
    hashes: map<Uuid, Hash>, rows: seq<Task>, workspace: nat, status: string, ids: seq<Uuid>): seq<Task>
  {
    WithStatus(status, Views(hashes, rows, workspace, ids))
  }

  lemma {:induction false} ViewsAdd(hashes: map<Uuid, Hash>, rows: seq<Task>, workspace: nat, ids: seq<Uuid>, id: Uuid)
    ensures Views(hashes, rows, workspace, ids + [id])
         == Views(hashes, rows, workspace, ids) + ViewAt(hashes, rows, workspace, id)
    decreases ids
  {
    if ids == [] {
      assert ids + [id] == [id];
      assert Views(hashes, rows, workspace, [id][1..]) == [];
    } else {
      ViewsAdd(hashes, rows, workspace, ids[1..], id);
      assert (ids + [id])[1..] == ids[1..] + [id] && (ids + [id])[0] == ids[0];
    }
  }

  lemma WithStatusAdd(status: string, ts: seq<Task>, t: Task)
    ensures WithStatus(status, ts + [t]) == WithStatus(status, ts) + (if t.status == status then [t] else [])
  {
    FilterAdd((t: Task) => t.status == status, ts, t);
  }

  function VisibleAt(hashes: map<Uuid, Hash>, rows: seq<Task>, workspace: nat, status: string, id: Uuid): seq<Task> {
    match View(hashes, rows, workspace, id)
    case None => []
    case Some(t) => if t.status == status then [t] else []
  }

  lemma VisibleAdd(hashes: map<Uuid, Hash>, rows: seq<Task>, workspace: nat, status: string, ids: seq<Uuid>, id: Uuid)
    ensures Visible(hashes, rows, workspace, status, ids + [id])
         == Visible(hashes, rows, workspace, status, ids) + VisibleAt(hashes, rows, workspace, status, id)
  {
    ViewsAdd(hashes, rows, workspace, ids, id);
    var ts := Views(hashes, rows, workspace, ids);
    match View(hashes, rows, workspace, id)
    case None => assert ts + ViewAt(hashes, rows, workspace, id) == ts;
    case Some(t) => WithStatusAdd(status, ts, t);
  }

  function RowIds(ts: seq<Task>): (ids: seq<Uuid>)
    ensures |ids| == |ts| && forall i :: 0 <= i < |ts| ==> ids[i] == ts[i].id
  {
    if ts == [] then [] else [ts[0].id] + RowIds(ts[1..])
  }

  lemma VisibleRowAdd(hashes: map<Uuid, Hash>, rows: seq<Task>, workspace: nat, status: string, ts: seq<Task>, i: nat)
    requires i < |ts|
    ensures Visible(hashes, rows, workspace, status, RowIds(ts[..i + 1]))
         == Visible(hashes, rows, workspace, status, RowIds(ts[..i]))
            + VisibleAt(hashes, rows, workspace, status, ts[i].id)
  {
    assert RowIds(ts[..i + 1]) == RowIds(ts[..i]) + [ts[i].id];
    VisibleAdd(hashes, rows, workspace, status, RowIds(ts[..i]), ts[i].id);
  }

  lemma {:induction false} ViewsSame(
    h: map<Uuid, Hash>, h': map<Uuid, Hash>, rows: seq<Task>, workspace: nat, ids: seq<Uuid>)
    requires SameViews(h, h', rows, workspace)
    ensures Views(h', rows, workspace, ids) == Views(h, rows, workspace, ids)
    decreases ids
  {
    if ids != [] {
      ViewsSame(h, h', rows, workspace, ids[1..]);
    }
  }

  lemma {:induction false} ViewsMembers(
    hashes: map<Uuid, Hash>, rows: seq<Task>, workspace: nat, ids: seq<Uuid>, t: Task)
    requires HashesOk(hashes) && t in Views(hashes, rows, workspace, ids)
    ensures t.id in ids && View(hashes, rows, workspace, t.id) == Some(t)
    decreases ids
  {
    if t in ViewAt(hashes, rows, workspace, ids[0]) {
      FindByIDId(rows, workspace, ids[0]);
      assert ids[0] in ids;
    } else {
      ViewsMembers(hashes, rows, workspace, ids[1..], t);
    }
  }

  lemma {:induction false} FindByIDId(rows: seq<Task>, workspace: nat, id: Uuid)
    ensures var t := FindByID(rows, workspace, id); t.Some? ==> t.value.id == id && t.value.workspace == workspace
    decreases rows
  {
    if rows != [] {
      FindByIDId(rows[1..], workspace, id);
    }
  }

  /** What is shown under a status has that status and is the effective view of its id. */
  lemma VisibleMembers(
    hashes: map<Uuid, Hash>, rows: seq<Task>, workspace: nat, status: string, ids: seq<Uuid>, t: Task)
    requires HashesOk(hashes) && t in Visible(hashes, rows, workspace, status, ids)
    ensures t.status == status && t.id in ids && View(hashes, rows, workspace, t.id) == Some(t)
  {
    FilterMembers((t: Task) => t.status == status, Views(hashes, rows, workspace, ids));
    ViewsMembers(hashes, rows, workspace, ids, t);
  }

  /** Writing an effective view into its hash changes no view. */
  lemma HSetKeepsViews(r: Redis, t: Task, rows: seq<Task>, workspace: nat)
    requires HashesOk(r.hashes) && View(r.hashes, rows, workspace, t.id) == Some(t)
    ensures HashesOk(r.HSet(t).hashes) && SameViews(r.hashes, r.HSet(t).hashes, rows, workspace)
  {
    forall id ensures View(r.HSet(t).hashes, rows, workspace, id) == View(r.hashes, rows, workspace, id) {
      if id != t.id {
        assert Meta(r.HSet(t).hashes, id) == Meta(r.hashes, id);
      }
    }
  }

  lemma {:induction false} HSetAllKeepsViews(r: Redis, tasks: seq<Task>, rows: seq<Task>, workspace: nat)
    requires HashesOk(r.hashes)
    requires forall t :: t in tasks ==> View(r.hashes, rows, workspace, t.id) == Some(t)
    ensures HashesOk(HSetAll(r, tasks).hashes) && SameViews(r.hashes, HSetAll(r, tasks).hashes, rows, workspace)
    decreases tasks
  {
    if tasks != [] {
      assert tasks[0] in tasks;
      HSetKeepsViews(r, tasks[0], rows, workspace);
      HSetAllKeepsViews(if IsV7(tasks[0].id) then r.HSet(tasks[0]) else r, tasks[1..], rows, workspace);
    }
  }

  /******* Repairs *******/

  /** The hashes of missing tasks are set from their rows. */
  function Repaired(r: Redis, rows: seq<Task>, workspace: nat, ids: seq<Uuid>): Redis
    decreases ids
  {
    if ids == [] then r
    else
      var t := FindByID(rows, workspace, ids[0]);
      Repaired(if t.Some? then r.HSet(t.value) else r, rows, workspace, ids[1..])
  }

  lemma {:induction false} RepairedAdd(r: Redis, rows: seq<Task>, workspace: nat, ids: seq<Uuid>, id: Uuid)
    ensures var t := FindByID(rows, workspace, id);
            Repaired(r, rows, workspace, ids + [id])
            == if t.Some? then Repaired(r, rows, workspace, ids).HSet(t.value) else Repaired(r, rows, workspace, ids)
    decreases ids
  {
    if ids == [] {
      assert ids + [id] == [id];
      assert [id][1..] == ids;
    } else {
      var t := FindByID(rows, workspace, ids[0]);
      RepairedAdd(if t.Some? then r.HSet(t.value) else r, rows, workspace, ids[1..], id);
      assert (ids + [id])[1..] == ids[1..] + [id] && (ids + [id])[0] == ids[0];
    }
  }

  /** Repairs change no effective view in the workspace, and no sorted set. */
  lemma {:induction false} RepairedKeeps(r: Redis, rows: seq<Task>, workspace: nat, ids: seq<Uuid>)
    requires HashesOk(r.hashes)
    requires forall id :: id in ids ==> View(r.hashes, rows, workspace, id) == FindByID(rows, workspace, id)
    ensures var r' := Repaired(r, rows, workspace, ids);
            r'.zsets == r.zsets && HashesOk(r'.hashes) && SameViews(r.hashes, r'.hashes, rows, workspace)
    decreases ids
  {
    if ids != [] {
      assert ids[0] in ids;
      var t := FindByID(rows, workspace, ids[0]);
      var r1 := if t.Some? then r.HSet(t.value) else r;
      if t.Some? {
        FindByIDId(rows, workspace, ids[0]);
        HSetKeepsViews(r, t.value, rows, workspace);
      }
      RepairedKeeps(r1, rows, workspace, ids[1..]);
    }
  }
}
