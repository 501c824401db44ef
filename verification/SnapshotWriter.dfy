/**
 The notification service's bulkSaveSnapshots: the same halving over MongoDB, whose ordered
 bulkWrite is not atomic.  A batch that is rejected has already applied rows in front of the
 first rejected one, and the recursion applies them again.
 */
module SnapshotWriter {
  import opened Wrappers
  import opened RowFold
  import TableEffects
  import SortedSeq

  /** `result` comes from `t` by writing rows of `rows` only, each at any time and any often. */
  ghost predicate WrittenFrom<T(!new), R(!new)>(apply: (T, R) -> Option<T>, t: T, rows: seq<R>, result: T) {
    exists trace: seq<R> :: (forall r :: r in trace ==> r in rows) && result == SkipTable(apply, t, trace)
  }

  class Collection<T(!new), R(!new)> {
    const apply: (T, R) -> Option<T>
    var docs: T

    constructor (apply: (T, R) -> Option<T>, docs: T)
      ensures this.apply == apply && this.docs == docs
    {
      this.apply, this.docs := apply, docs;
    }

    /** One ordered bulk write: a failure leaves some prefix of the accepted rows applied. */
    method OrderedBulkWrite(rows: seq<R>) returns (out: Outcome)
      modifies this
      ensures out.Ok? ==> Fold(apply, old(docs), rows) == Some(docs)
      ensures out.DataError? ==> Fold(apply, old(docs), rows).None?
      ensures exists p: nat :: p <= |rows| && Fold(apply, old(docs), rows[..p]) == Some(docs)
    {
      ghost var t := docs;
      var i: nat := 0;
      assert rows[..0] == [];
      while i < |rows|
        invariant i <= |rows| && Fold(apply, t, rows[..i]) == Some(docs)
      {
        var connectionLost, stopEarly := *, *;
        var next := apply(docs, rows[i]);
        FoldStep(apply, t, rows, i, docs);
        if connectionLost {
          return ConnError;
        }
        if next.None? || (stopEarly && Fold(apply, docs, rows[i..]).None?) {
          FoldRejects(apply, t, rows, i, docs);
          return DataError;
        }
        docs := next.value;
        i := i + 1;
      }
      assert rows[..i] == rows;
      out := Ok;
    }
  }

  lemma {:induction false} FoldConcat<T, R>(apply: (T, R) -> Option<T>, t: T, a: seq<R>, b: seq<R>)
    ensures Fold(apply, t, a + b) ==
            match Fold(apply, t, a)
            case None => None
            case Some(u) => Fold(apply, u, b)
    decreases a
  {
    if a == [] {
      assert a + b == b;
    } else {
      assert (a + b)[1..] == a[1..] + b;
      if apply(t, a[0]).Some? {
        FoldConcat(apply, apply(t, a[0]).value, a[1..], b);
      }
    }
  }

  lemma FoldStep<T, R>(apply: (T, R) -> Option<T>, t: T, rows: seq<R>, i: nat, u: T)
    requires i < |rows| && Fold(apply, t, rows[..i]) == Some(u)
    ensures Fold(apply, t, rows[..i + 1]) == apply(u, rows[i])
  {
    assert rows[..i + 1] == rows[..i] + [rows[i]];
    FoldConcat(apply, t, rows[..i], [rows[i]]);
    assert [rows[i]][1..] == [];
  }

  lemma FoldRejects<T, R>(apply: (T, R) -> Option<T>, t: T, rows: seq<R>, i: nat, u: T)
    requires i < |rows| && Fold(apply, t, rows[..i]) == Some(u)
    requires apply(u, rows[i]).None? || Fold(apply, u, rows[i..]).None?
    ensures Fold(apply, t, rows).None?
  {
    assert rows == rows[..i] + rows[i..];
    FoldConcat(apply, t, rows[..i], rows[i..]);
  }

  /**
   How a save without a lost connection may end: a whole batch that is accepted, a rejected row
   alone, or, for a batch with a rejected row, any ends of the two halves one after the other,
   from the state that any accepted prefix has left.
   */
  ghost predicate MayEnd<T(!new), R(!new)>(apply: (T, R) -> Option<T>, t: T, rows: seq<R>, u: T, failed: seq<R>)
    decreases |rows|
  {
    if Fold(apply, t, rows).Some? then Fold(apply, t, rows) == Some(u) && failed == []
    else if |rows| == 1 then u == t && failed == rows
    else rows != [] && exists p: nat, s ::
      p <= |rows| && Fold(apply, t, rows[..p]) == Some(s) && HalvesMayEnd(apply, s, rows, u, failed)
  }

  ghost predicate HalvesMayEnd<T(!new), R(!new)>(
      apply: (T, R) -> Option<T>, s: T, rows: seq<R>, u: T, failed: seq<R>)
    requires |rows| > 1
    decreases |rows|, 0
  {
    exists w, left, right ::
      && MayEnd(apply, s, rows[..|rows| / 2], w, left) && MayEnd(apply, w, rows[|rows| / 2..], u, right)
      && failed == left + right
  }

  /**
   Replaying does no harm: from the state that any accepted prefix has left, the rows give
   the same table and the same rejections as from the start, and so do the two halves.
   */
  ghost predicate Replayable<T(!new), R(!new)>(apply: (T, R) -> Option<T>, t: T, rows: seq<R>)
    decreases |rows|
  {
    |rows| <= 1 ||
    forall p: nat, s :: p <= |rows| && Fold(apply, t, rows[..p]) == Some(s) ==>
      && SkipTable(apply, s, rows) == SkipTable(apply, t, rows)
      && Skipped(apply, s, rows) == Skipped(apply, t, rows)
      && Replayable(apply, s, rows[..|rows| / 2])
      && Replayable(apply, SkipTable(apply, s, rows[..|rows| / 2]), rows[|rows| / 2..])
  }

  /** However the save ends without a lost connection: as the rows one at a time do. */
  ghost predicate EndsRight<T(!new), R(!new)>(apply: (T, R) -> Option<T>, t: T, rows: seq<R>) {
    forall u, failed :: MayEnd(apply, t, rows, u, failed) ==>
      u == SkipTable(apply, t, rows) && failed == Skipped(apply, t, rows)
  }

  /** If what a rejected batch has applied does no harm, and both halves end right, then so does the whole. */
  lemma HalvesEndRight<T(!new), R(!new)>(apply: (T, R) -> Option<T>, t: T, rows: seq<R>)
    requires |rows| > 1
    requires forall p: nat, s :: p <= |rows| && Fold(apply, t, rows[..p]) == Some(s) && Fold(apply, t, rows).None? ==>
               && SkipTable(apply, s, rows) == SkipTable(apply, t, rows)
               && Skipped(apply, s, rows) == Skipped(apply, t, rows)
               && EndsRight(apply, s, rows[..|rows| / 2])
               && EndsRight(apply, SkipTable(apply, s, rows[..|rows| / 2]), rows[|rows| / 2..])
    ensures EndsRight(apply, t, rows)
  {
    FoldMeetsSkip(apply, t, rows);
    forall u, failed | MayEnd(apply, t, rows, u, failed)
      ensures u == SkipTable(apply, t, rows) && failed == Skipped(apply, t, rows)
    {
      if Fold(apply, t, rows).None? {
        var p: nat, s :| p <= |rows| && Fold(apply, t, rows[..p]) == Some(s) && HalvesMayEnd(apply, s, rows, u, failed);
        BothEndRight(apply, s, rows, u, failed);
      }
    }
  }

  lemma BothEndRight<T(!new), R(!new)>(apply: (T, R) -> Option<T>, s: T, rows: seq<R>, u: T, failed: seq<R>)
    requires |rows| > 1 && HalvesMayEnd(apply, s, rows, u, failed)
    requires EndsRight(apply, s, rows[..|rows| / 2])
    requires EndsRight(apply, SkipTable(apply, s, rows[..|rows| / 2]), rows[|rows| / 2..])
    ensures u == SkipTable(apply, s, rows) && failed == Skipped(apply, s, rows)
  {
    var l, r := rows[..|rows| / 2], rows[|rows| / 2..];
    var w, left, right :| MayEnd(apply, s, l, w, left) && MayEnd(apply, w, r, u, right) && failed == left + right;
    assert rows == l + r;
    SkipConcat(apply, s, l, r);
  }

  /** The save of a replayable list ends right. */
  lemma {:induction false} ReplayableEnds<T(!new), R(!new)>(apply: (T, R) -> Option<T>, t: T, rows: seq<R>)
    requires Replayable(apply, t, rows)
    ensures EndsRight(apply, t, rows)
    decreases |rows|
  {
    if |rows| <= 1 {
      ShortEndsRight(apply, t, rows);
    } else {
      forall p: nat, s | p <= |rows| && Fold(apply, t, rows[..p]) == Some(s)
        ensures EndsRight(apply, s, rows[..|rows| / 2])
        ensures EndsRight(apply, SkipTable(apply, s, rows[..|rows| / 2]), rows[|rows| / 2..])
      {
        ReplayableEnds(apply, s, rows[..|rows| / 2]);
        ReplayableEnds(apply, SkipTable(apply, s, rows[..|rows| / 2]), rows[|rows| / 2..]);
      }
      HalvesEndRight(apply, t, rows);
    }
  }

  lemma ReplayedSame<T, R>(apply: (T, R) -> Option<T>, t: T, rows: seq<R>, p: nat, s: T)
    requires p <= |rows| && Fold(apply, t, rows[..p]) == Some(s) && Fold(apply, s, rows[..p]) == Some(s)
    ensures SkipTable(apply, s, rows) == SkipTable(apply, t, rows) && Skipped(apply, s, rows) == Skipped(apply, t, rows)
  {
    FoldMeetsSkip(apply, t, rows[..p]);
    FoldMeetsSkip(apply, s, rows[..p]);
    assert rows == rows[..p] + rows[p..];
    SkipConcat(apply, t, rows[..p], rows[p..]);
    SkipConcat(apply, s, rows[..p], rows[p..]);
  }

  lemma ShortEndsRight<T(!new), R(!new)>(apply: (T, R) -> Option<T>, t: T, rows: seq<R>)
    requires |rows| <= 1
    ensures EndsRight(apply, t, rows)
  {
    FoldMeetsSkip(apply, t, rows);
    if |rows| == 1 {
      assert rows[1..] == [];
    }
  }

  lemma WrittenThen<T(!new), R(!new)>(
      apply: (T, R) -> Option<T>, t: T, part: seq<R>, u: T, result: T, rows: seq<R>)
    requires WrittenFrom(apply, t, rows, u) && WrittenFrom(apply, u, part, result)
    requires forall r :: r in part ==> r in rows
    ensures WrittenFrom(apply, t, rows, result)
  {
    var a :| (forall r :: r in a ==> r in rows) && u == SkipTable(apply, t, a);
    var b :| (forall r :: r in b ==> r in part) && result == SkipTable(apply, u, b);
    SkipConcat(apply, t, a, b);
    assert forall r :: r in a + b ==> r in rows;
  }

  /**
   bulkSaveSnapshots.  Whatever happens, only rows of the list are ever written.  If no connection
   is lost, it ends in one of the ways that partly applied batches allow.  Where these all end
   right, for a replayable list in particular, it leaves the same documents as writing the rows
   one at a time, and returns exactly the rejected rows, in order.
   */
  method BulkSaveSnapshots<T(!new), R(!new)>(coll: Collection<T, R>, dataList: seq<R>)
    returns (failed: seq<R>, connLost: bool)
    modifies coll
    ensures WrittenFrom(coll.apply, old(coll.docs), dataList, coll.docs)
    ensures connLost ==> failed == []
    ensures !connLost ==> MayEnd(coll.apply, old(coll.docs), dataList, coll.docs, failed)
    ensures !connLost && (EndsRight(coll.apply, old(coll.docs), dataList) ||
                          Replayable(coll.apply, old(coll.docs), dataList)) ==>
              && coll.docs == SkipTable(coll.apply, old(coll.docs), dataList)
              && failed == Skipped(coll.apply, old(coll.docs), dataList)
    decreases |dataList|, 1
  {
    ghost var t := coll.docs;
    if |dataList| == 0 {
      assert SkipTable(coll.apply, t, []) == t;
      return [], false;
    }
    var out := coll.OrderedBulkWrite(dataList);
    ghost var p: nat :| p <= |dataList| && Fold(coll.apply, t, dataList[..p]) == Some(coll.docs);
    WrittenPrefix(coll.apply, t, dataList, p);
    FoldMeetsSkip(coll.apply, t, dataList);
    if out.Ok? {
      return [], false;
    }
    if out.ConnError? {
      return [], true;
    }
    if |dataList| == 1 {
      assert p == 0 by {
        assert dataList[..1] == dataList;
      }
      assert dataList[1..] == [];
      return dataList, false;
    }
    ghost var s := coll.docs;
    failed, connLost := SaveHalves(coll, dataList, t);
    if !connLost {
      assert HalvesMayEnd(coll.apply, s, dataList, coll.docs, failed);
      if Replayable(coll.apply, t, dataList) {
        ReplayableEnds(coll.apply, t, dataList);
      }
    }
  }

  lemma WrittenPrefix<T(!new), R(!new)>(apply: (T, R) -> Option<T>, t: T, rows: seq<R>, p: nat)
    requires p <= |rows| && Fold(apply, t, rows[..p]).Some?
    ensures WrittenFrom(apply, t, rows, Fold(apply, t, rows[..p]).value)
  {
    FoldMeetsSkip(apply, t, rows[..p]);
    assert forall r :: r in rows[..p] ==> r in rows;
  }

  /** The recursive case: the two halves, from what the rejected batch has left. */
  method SaveHalves<T(!new), R(!new)>(coll: Collection<T, R>, dataList: seq<R>, ghost t: T)
    returns (failed: seq<R>, connLost: bool)
    requires |dataList| > 1 && WrittenFrom(coll.apply, t, dataList, coll.docs)
    modifies coll
    ensures WrittenFrom(coll.apply, t, dataList, coll.docs)
    ensures connLost ==> failed == []
    ensures !connLost ==> HalvesMayEnd(coll.apply, old(coll.docs), dataList, coll.docs, failed)
    decreases |dataList|, 0
  {
    ghost var s := coll.docs;
    var mid := |dataList| / 2;
    var left, right := dataList[..mid], dataList[mid..];
    var leftFailed, leftLost := BulkSaveSnapshots(coll, left);
    WrittenThen(coll.apply, t, left, s, coll.docs, dataList);
    if leftLost {
      return [], true;
    }
    ghost var u := coll.docs;
    var rightFailed, rightLost := BulkSaveSnapshots(coll, right);
    WrittenThen(coll.apply, t, right, u, coll.docs, dataList);
    if rightLost {
      return [], true;
    }
    failed, connLost := leftFailed + rightFailed, false;
  }

  /******* $set upserts whose validity does not depend on the collection *******/

  /** The collection as cells (document id and field), and a snapshot as the cells it sets. */
  function SetCells<C(==), V, R>(valid: R -> bool, cells: R -> map<C, V>)
    : (map<C, V>, R) -> Option<map<C, V>>
  {
    (docs, r) => if valid(r) then Some(docs + cells(r)) else None
  }

  /** All cells the valid rows set, later rows over earlier ones. */
  function Net<C(==), V, R>(valid: R -> bool, cells: R -> map<C, V>, rows: seq<R>): map<C, V> {
    if rows == [] then map[]
    else (if valid(rows[0]) then cells(rows[0]) else map[]) + Net(valid, cells, rows[1..])
  }

  function Invalid<R>(valid: R -> bool, rows: seq<R>): seq<R> {
    if rows == [] then []
    else (if valid(rows[0]) then [] else [rows[0]]) + Invalid(valid, rows[1..])
  }

  /** A cell of the net effect holds what the last valid row that sets it says. */
  lemma {:induction false} NetIsLastValidWrite<C, V, R>(
      valid: R -> bool, cells: R -> map<C, V>, rows: seq<R>, i: nat, c: C)
    requires i < |rows| && valid(rows[i]) && c in cells(rows[i])
    requires forall j :: i < j < |rows| && valid(rows[j]) ==> c !in cells(rows[j])
    ensures c in Net(valid, cells, rows) && Net(valid, cells, rows)[c] == cells(rows[i])[c]
    decreases i
  {
    if i == 0 {
      NetOnlyWritten(valid, cells, rows[1..], c);
    } else {
      NetIsLastValidWrite(valid, cells, rows[1..], i - 1, c);
    }
  }

  /** A cell that no valid row sets is not touched. */
  lemma {:induction false} NetOnlyWritten<C, V, R>(valid: R -> bool, cells: R -> map<C, V>, rows: seq<R>, c: C)
    requires forall j :: 0 <= j < |rows| && valid(rows[j]) ==> c !in cells(rows[j])
    ensures c !in Net(valid, cells, rows)
    decreases rows
  {
    if rows != [] {
      assert forall j :: 0 <= j < |rows[1..]| ==> rows[1..][j] == rows[j + 1];
      NetOnlyWritten(valid, cells, rows[1..], c);
    }
  }

  /** One row at a time, the net effect is written and the invalid rows are skipped. */
  lemma {:induction false} SkipIsNet<C, V, R>(
      valid: R -> bool, cells: R -> map<C, V>, docs: map<C, V>, rows: seq<R>)
    ensures SkipTable(SetCells(valid, cells), docs, rows) == docs + Net(valid, cells, rows)
    ensures Skipped(SetCells(valid, cells), docs, rows) == Invalid(valid, rows)
    ensures Skipped(SetCells(valid, cells), docs, rows) == SortedSeq.Filter((r: R) => !valid(r), rows)
    decreases rows
  {
    if rows != [] {
      SkipIsNet(valid, cells, Try(SetCells(valid, cells), docs, rows[0]), rows[1..]);
    }
  }

  lemma {:induction false} NetCovers<C, V, R>(valid: R -> bool, cells: R -> map<C, V>, rows: seq<R>, r: R)
    requires r in rows && valid(r)
    ensures cells(r).Keys <= Net(valid, cells, rows).Keys
    decreases rows
  {
    if r != rows[0] {
      NetCovers(valid, cells, rows[1..], r);
    }
  }

  /** Whatever rows of the list were written before, the list still has its whole effect. */
  lemma {:induction false} NetAbsorbs<C, V, R>(
      valid: R -> bool, cells: R -> map<C, V>, docs: map<C, V>, trace: seq<R>, rows: seq<R>)
    requires forall r :: r in trace ==> r in rows
    ensures SkipTable(SetCells(valid, cells), docs, trace) + Net(valid, cells, rows) ==
            docs + Net(valid, cells, rows)
    decreases trace
  {
    if trace != [] {
      var next := Try(SetCells(valid, cells), docs, trace[0]);
      NetAbsorbs(valid, cells, next, trace[1..], rows);
      if valid(trace[0]) {
        NetCovers(valid, cells, rows, trace[0]);
      }
    }
  }

  /** Writing such rows can always be replayed, duplicates of an id included. */
  lemma {:induction false} SetCellsReplayable<C(!new), V(!new), R(!new)>(
      valid: R -> bool, cells: R -> map<C, V>, docs: map<C, V>, rows: seq<R>)
    ensures Replayable(SetCells(valid, cells), docs, rows)
    decreases |rows|
  {
    var e := SetCells(valid, cells);
    if |rows| > 1 {
      forall p: nat, s | p <= |rows| && Fold(e, docs, rows[..p]) == Some(s)
        ensures SkipTable(e, s, rows) == SkipTable(e, docs, rows)
        ensures Skipped(e, s, rows) == Skipped(e, docs, rows)
        ensures Replayable(e, s, rows[..|rows| / 2])
        ensures Replayable(e, SkipTable(e, s, rows[..|rows| / 2]), rows[|rows| / 2..])
      {
        FoldMeetsSkip(e, docs, rows[..p]);
        NetAbsorbs(valid, cells, docs, rows[..p], rows);
        SkipIsNet(valid, cells, docs, rows);
        SkipIsNet(valid, cells, s, rows);
        SetCellsReplayable(valid, cells, s, rows[..|rows| / 2]);
        SetCellsReplayable(valid, cells, SkipTable(e, s, rows[..|rows| / 2]), rows[|rows| / 2..]);
      }
    }
  }

  /** After a lost connection, writing the whole list again ends where one run would have. */
  lemma SetCellsResumes<C(!new), V(!new), R(!new)>(
      valid: R -> bool, cells: R -> map<C, V>, docs: map<C, V>, rows: seq<R>, s: map<C, V>)
    requires WrittenFrom(SetCells(valid, cells), docs, rows, s)
    ensures SkipTable(SetCells(valid, cells), s, rows) == SkipTable(SetCells(valid, cells), docs, rows)
    ensures Skipped(SetCells(valid, cells), s, rows) == Skipped(SetCells(valid, cells), docs, rows)
  {
    var trace :| (forall r :: r in trace ==> r in rows) && s == SkipTable(SetCells(valid, cells), docs, trace);
    NetAbsorbs(valid, cells, docs, trace, rows);
    SkipIsNet(valid, cells, docs, rows);
    SkipIsNet(valid, cells, s, rows);
  }

  /******* Upserts under the collection's unique e-mail *******/

  type User<K, V> = TableEffects.Row<K, V>

  /**
   Within the accepted rows `a`, an e-mail passes from one id to another that `a` has not written
   before: replaying the first of the two rows meets the new holder.
   */
  ghost predicate Handover<K, V, E>(mail: V -> E, a: seq<User<K, V>>) {
    exists i, k :: 0 <= i < k < |a| && HandedOver(mail, a, i, k)
  }

  ghost predicate HandedOver<K, V, E>(mail: V -> E, a: seq<User<K, V>>, i: nat, k: nat)
    requires i < k < |a|
  {
    && a[i].key != a[k].key && mail(a[i].value) == mail(a[k].value)
    && forall h :: 0 <= h < i ==> a[h].key != a[k].key
  }

  /** Accepted rows leave the table under what they write. */
  lemma {:induction false} FoldIsOver<K, V, E>(
      checks: User<K, V> -> bool, mail: V -> E, t: map<K, V>, a: seq<User<K, V>>)
    requires Fold(TableEffects.Upsert(checks, mail), t, a).Some?
    ensures Fold(TableEffects.Upsert(checks, mail), t, a).value == t + TableEffects.Over(a)
    decreases a
  {
    if a != [] {
      FoldIsOver(checks, mail, TableEffects.Upsert(checks, mail)(t, a[0]).value, a[1..]);
    }
  }

  /** What an accepted list means for each of its rows. */
  lemma AcceptedRow<K, V, E>(checks: User<K, V> -> bool, mail: V -> E, t: map<K, V>, a: seq<User<K, V>>, q: nat)
    requires q < |a| && Fold(TableEffects.Upsert(checks, mail), t, a).Some?
    ensures Fold(TableEffects.Upsert(checks, mail), t, a[..q]).Some?
    ensures checks(a[q]) && !TableEffects.Taken(mail, t + TableEffects.Over(a[..q]), a[q])
  {
    var e := TableEffects.Upsert(checks, mail);
    assert a == a[..q] + a[q..];
    FoldConcat(e, t, a[..q], a[q..]);
    FoldIsOver(checks, mail, t, a[..q]);
  }

  /** Replaying row `q` of an accepted list without a handover. */
  lemma ReplayRow<K, V, E>(
      checks: User<K, V> -> bool, mail: V -> E, t: map<K, V>, a: seq<User<K, V>>, q: nat)
    requires q < |a| && Fold(TableEffects.Upsert(checks, mail), t, a).Some? && !Handover(mail, a)
    ensures !TableEffects.Taken(mail, t + TableEffects.Over(a) + TableEffects.Over(a[..q]), a[q])
  {
    var u, v := t + TableEffects.Over(a) + TableEffects.Over(a[..q]), t + TableEffects.Over(a[..q]);
    AcceptedRow(checks, mail, t, a, q);
    forall k | k in u && k != a[q].key ensures mail(u[k]) != mail(a[q].value) {
      TableEffects.OverIsLast(a[..q], k);
      TableEffects.OverIsLast(a, k);
      if k !in TableEffects.Over(a[..q]) && k in TableEffects.Over(a) {
        var l :| 0 <= l < |a| && a[l].key == k && TableEffects.Over(a)[k] == a[l].value;
        assert forall h :: 0 <= h < q ==> a[..q][h] == a[h];
        assert l > q && !HandedOver(mail, a, q, l);
      } else {
        assert k in v && v[k] == u[k];
      }
    }
  }

  /** Without a handover, replaying an accepted list changes nothing and rejects nothing. */
  lemma {:induction false} ReplayFrom<K, V, E>(
      checks: User<K, V> -> bool, mail: V -> E, t: map<K, V>, a: seq<User<K, V>>, q: nat)
    requires q <= |a| && Fold(TableEffects.Upsert(checks, mail), t, a).Some? && !Handover(mail, a)
    ensures Fold(TableEffects.Upsert(checks, mail), t + TableEffects.Over(a), a[..q])
         == Some(t + TableEffects.Over(a) + TableEffects.Over(a[..q]))
    decreases q
  {
    var e, s := TableEffects.Upsert(checks, mail), t + TableEffects.Over(a);
    if q == 0 {
      assert a[..0] == [] && s + map[] == s;
    } else {
      ReplayFrom(checks, mail, t, a, q - 1);
      ReplayRow(checks, mail, t, a, q - 1);
      AcceptedRow(checks, mail, t, a, q - 1);
      ReplayStep(checks, mail, s, a, q - 1);
    }
  }

  lemma ReplayStep<K, V, E>(checks: User<K, V> -> bool, mail: V -> E, s: map<K, V>, a: seq<User<K, V>>, q: nat)
    requires q < |a| && checks(a[q]) && !TableEffects.Taken(mail, s + TableEffects.Over(a[..q]), a[q])
    requires Fold(TableEffects.Upsert(checks, mail), s, a[..q]) == Some(s + TableEffects.Over(a[..q]))
    ensures Fold(TableEffects.Upsert(checks, mail), s, a[..q + 1]) == Some(s + TableEffects.Over(a[..q + 1]))
  {
    var m, r := TableEffects.Over(a[..q]), a[q];
    FoldStep(TableEffects.Upsert(checks, mail), s, a, q, s + m);
    assert a[..q + 1] == a[..q] + [r];
    TableEffects.OverAdd(a[..q], r);
    assert (s + m)[r.key := r.value] == s + m[r.key := r.value];
  }

  lemma ReplayClean<K, V, E>(checks: User<K, V> -> bool, mail: V -> E, t: map<K, V>, a: seq<User<K, V>>, s: map<K, V>)
    requires Fold(TableEffects.Upsert(checks, mail), t, a) == Some(s) && !Handover(mail, a)
    ensures Fold(TableEffects.Upsert(checks, mail), s, a) == Some(s)
  {
    FoldIsOver(checks, mail, t, a);
    ReplayFrom(checks, mail, t, a, |a|);
    assert a[..|a|] == a;
    assert t + TableEffects.Over(a) + TableEffects.Over(a) == t + TableEffects.Over(a);
  }

  /******* What can be read off the list *******/

  /** The row is fine, and repeats the id and the e-mail of `b` or of `c`. */
  predicate Settled<K(==), V, E(==)>(
      checks: User<K, V> -> bool, mail: V -> E, b: User<K, V>, c: User<K, V>, r: User<K, V>)
  {
    && checks(r)
    && ((r.key == b.key && mail(r.value) == mail(b.value)) || (r.key == c.key && mail(r.value) == mail(c.value)))
  }

  /** An id gives an e-mail up, another id takes it, and a later row is neither of their new states. */
  predicate UnsettledAt<K(==), V, E(==)>(
      checks: User<K, V> -> bool, mail: V -> E, rows: seq<User<K, V>>, i: nat, j: nat, k: nat, l: nat)
    requires i < j < k < l < |rows|
  {
    TableEffects.Hands(checks, mail, rows[i], rows[j], rows[k]) && !Settled(checks, mail, rows[j], rows[k], rows[l])
  }

  ghost predicate Unsettled<K, V, E>(checks: User<K, V> -> bool, mail: V -> E, rows: seq<User<K, V>>) {
    exists i, j, k, l :: 0 <= i < j < k < l < |rows| && UnsettledAt(checks, mail, rows, i, j, k, l)
  }

  /** A handover among accepted rows takes an id that gives the e-mail up; `j` is where it does so last. */
  lemma AcceptedHandover<K, V, E>(
      checks: User<K, V> -> bool, mail: V -> E, t: map<K, V>, a: seq<User<K, V>>, i: nat, k: nat)
    returns (j: nat)
    requires i < k < |a| && HandedOver(mail, a, i, k) && Fold(TableEffects.Upsert(checks, mail), t, a).Some?
    ensures i < j < k && TableEffects.Hands(checks, mail, a[i], a[j], a[k])
    ensures forall h :: j < h < k ==> a[h].key != a[j].key
  {
    AcceptedRow(checks, mail, t, a, i);
    AcceptedRow(checks, mail, t, a, k);
    TableEffects.OverIsLast(a[..k], a[i].key);
    assert a[..k][i].key == a[i].key;
    j :| 0 <= j < k && a[..k][j].key == a[i].key && TableEffects.Over(a[..k])[a[i].key] == a[..k][j].value &&
         forall h :: j < h < k ==> a[..k][h].key != a[i].key;
    assert (t + TableEffects.Over(a[..k]))[a[i].key] == a[j].value;
    AcceptedRow(checks, mail, t, a, j);
    assert forall h :: j < h < k ==> a[..k][h] == a[h];
  }

  /** The id of `b` has the e-mail of `b`, and nobody else has. */
  ghost predicate Holds<K, V, E>(mail: V -> E, v: map<K, V>, b: User<K, V>) {
    b.key in v && forall x :: x in v ==> (mail(v[x]) == mail(b.value) <==> x == b.key)
  }

  lemma HoldsStays<K, V, E>(
      checks: User<K, V> -> bool, mail: V -> E, v: map<K, V>, b: User<K, V>, r: User<K, V>)
    requires Holds(mail, v, b) && TableEffects.Upsert(checks, mail)(v, r).Some?
    requires r.key == b.key ==> mail(r.value) == mail(b.value)
    ensures Holds(mail, TableEffects.Upsert(checks, mail)(v, r).value, b)
  {
    assert r.key != b.key ==> mail(v[b.key]) != mail(r.value);
  }

  lemma {:induction false} HoldsUntil<K, V, E>(
      checks: User<K, V> -> bool, mail: V -> E, v: map<K, V>, b: User<K, V>, rows: seq<User<K, V>>)
    requires Holds(mail, v, b) && forall h :: 0 <= h < |rows| ==> rows[h].key != b.key
    requires Fold(TableEffects.Upsert(checks, mail), v, rows).Some?
    ensures Holds(mail, Fold(TableEffects.Upsert(checks, mail), v, rows).value, b)
    decreases rows
  {
    if rows != [] {
      HoldsStays(checks, mail, v, b, rows[0]);
      HoldsUntil(checks, mail, TableEffects.Upsert(checks, mail)(v, rows[0]).value, b, rows[1..]);
    }
  }

  /** Where both ids hold their e-mails, settled rows are accepted. */
  lemma {:induction false} SettledAccepted<K, V, E>(
      checks: User<K, V> -> bool, mail: V -> E, v: map<K, V>, b: User<K, V>, c: User<K, V>, rows: seq<User<K, V>>)
    requires Holds(mail, v, b) && Holds(mail, v, c) && b.key != c.key
    requires forall l :: 0 <= l < |rows| ==> Settled(checks, mail, b, c, rows[l])
    ensures Fold(TableEffects.Upsert(checks, mail), v, rows).Some?
    decreases rows
  {
    if rows != [] {
      var r := rows[0];
      assert Settled(checks, mail, b, c, r) && !TableEffects.Taken(mail, v, r);
      HoldsStays(checks, mail, v, b, r);
      HoldsStays(checks, mail, v, c, r);
      SettledAccepted(checks, mail, TableEffects.Upsert(checks, mail)(v, r).value, b, c, rows[1..]);
    }
  }

  /** After a handover among accepted rows both ids hold their e-mails. */
  lemma HandoverHolds<K, V, E>(
      checks: User<K, V> -> bool, mail: V -> E, t: map<K, V>, a: seq<User<K, V>>, j: nat, k: nat)
    requires j < k < |a| && Fold(TableEffects.Upsert(checks, mail), t, a).Some?
    requires a[j].key != a[k].key && forall h :: j < h < k ==> a[h].key != a[j].key
    ensures Fold(TableEffects.Upsert(checks, mail), t, a[..k + 1]).Some?
    ensures var v := Fold(TableEffects.Upsert(checks, mail), t, a[..k + 1]).value;
            Holds(mail, v, a[j]) && Holds(mail, v, a[k])
  {
    var e := TableEffects.Upsert(checks, mail);
    AcceptedRow(checks, mail, t, a, j);
    AcceptedRow(checks, mail, t, a, k);
    FoldIsOver(checks, mail, t, a[..j]);
    FoldIsOver(checks, mail, t, a[..k]);
    var v0 := Fold(e, t, a[..j]).value;
    FoldStep(e, t, a, j, v0);
    var v1 := v0[a[j].key := a[j].value];
    assert Holds(mail, v1, a[j]);
    assert a[..k] == a[..j + 1] + a[j + 1..k];
    FoldConcat(e, t, a[..j + 1], a[j + 1..k]);
    HoldsUntil(checks, mail, v1, a[j], a[j + 1..k]);
    var v2 := Fold(e, t, a[..k]).value;
    FoldStep(e, t, a, k, v2);
    HoldsStays(checks, mail, v2, a[j], a[k]);
    assert Holds(mail, v2[a[k].key := a[k].value], a[k]);
  }

  /** A rejected batch of a settled list has accepted no handover before. */
  lemma SettledHasNoHandover<K, V, E>(
      checks: User<K, V> -> bool, mail: V -> E, t: map<K, V>, rows: seq<User<K, V>>, p: nat)
    requires p <= |rows| && !Unsettled(checks, mail, rows)
    requires Fold(TableEffects.Upsert(checks, mail), t, rows[..p]).Some?
    requires Fold(TableEffects.Upsert(checks, mail), t, rows).None?
    ensures !Handover(mail, rows[..p])
  {
    var a := rows[..p];
    if Handover(mail, a) {
      var i, k :| 0 <= i < k < p && HandedOver(mail, a, i, k);
      var j := AcceptedHandover(checks, mail, t, a, i, k);
      HandoverHolds(checks, mail, t, a, j, k);
      var rest := rows[k + 1..];
      assert rows == a[..k + 1] + rest;
      FoldConcat(TableEffects.Upsert(checks, mail), t, a[..k + 1], rest);
      forall l | 0 <= l < |rest| ensures Settled(checks, mail, a[j], a[k], rest[l]) {
        assert !UnsettledAt(checks, mail, rows, i, j, k, k + 1 + l);
      }
      SettledAccepted(checks, mail, Fold(TableEffects.Upsert(checks, mail), t, a[..k + 1]).value, a[j], a[k], rest);
    }
  }

  /** The rows at increasing places `at` of a list. */
  ghost predicate Places(at: seq<nat>, n: nat) {
    (forall x :: 0 <= x < |at| ==> at[x] < n) && forall x, y :: 0 <= x < y < |at| ==> at[x] < at[y]
  }

  function Pick<R>(rows: seq<R>, at: seq<nat>): (picked: seq<R>)
    requires forall x :: 0 <= x < |at| ==> at[x] < |rows|
    ensures |picked| == |at| && forall x :: 0 <= x < |at| ==> picked[x] == rows[at[x]]
  {
    if at == [] then [] else [rows[at[0]]] + Pick(rows, at[1..])
  }

  lemma PickSettled<K, V, E>(checks: User<K, V> -> bool, mail: V -> E, rows: seq<User<K, V>>, at: seq<nat>)
    requires Places(at, |rows|) && !Unsettled(checks, mail, rows)
    ensures !Unsettled(checks, mail, Pick(rows, at))
  {
    var picked := Pick(rows, at);
    forall w, x, y, z | 0 <= w < x < y < z < |picked| ensures !UnsettledAt(checks, mail, picked, w, x, y, z) {
      assert !UnsettledAt(checks, mail, rows, at[w], at[x], at[y], at[z]);
    }
  }

  lemma PartSettled<K, V, E>(checks: User<K, V> -> bool, mail: V -> E, rows: seq<User<K, V>>, lo: nat, hi: nat)
    requires lo <= hi <= |rows| && !Unsettled(checks, mail, rows)
    ensures !Unsettled(checks, mail, rows[lo..hi])
  {
    var part := rows[lo..hi];
    forall i, j, k, l | 0 <= i < j < k < l < |part| ensures !UnsettledAt(checks, mail, part, i, j, k, l) {
      assert !UnsettledAt(checks, mail, rows, lo + i, lo + j, lo + k, lo + l);
    }
  }

  /**
   Under the unique e-mail, the save of a list whose handovers are all settled ends right, from
   every collection and wherever its batches stop.
   */
  lemma {:induction false} SettledEndsRight<K(!new), V(!new), E(!new)>(
      checks: User<K, V> -> bool, mail: V -> E, t: map<K, V>, rows: seq<User<K, V>>)
    requires !Unsettled(checks, mail, rows)
    ensures EndsRight(TableEffects.Upsert(checks, mail), t, rows)
    decreases |rows|
  {
    var e, mid := TableEffects.Upsert(checks, mail), |rows| / 2;
    if |rows| <= 1 {
      ShortEndsRight(e, t, rows);
    } else {
      PartSettled(checks, mail, rows, 0, mid);
      PartSettled(checks, mail, rows, mid, |rows|);
      assert rows[0..mid] == rows[..mid] && rows[mid..|rows|] == rows[mid..];
      forall p: nat, s | p <= |rows| && Fold(e, t, rows[..p]) == Some(s) && Fold(e, t, rows).None?
        ensures SkipTable(e, s, rows) == SkipTable(e, t, rows) && Skipped(e, s, rows) == Skipped(e, t, rows)
        ensures EndsRight(e, s, rows[..mid])
        ensures EndsRight(e, SkipTable(e, s, rows[..mid]), rows[mid..])
      {
        SettledHasNoHandover(checks, mail, t, rows, p);
        ReplayClean(checks, mail, t, rows[..p], s);
        ReplayedSame(e, t, rows, p, s);
        SettledEndsRight(checks, mail, s, rows[..mid]);
        SettledEndsRight(checks, mail, SkipTable(e, s, rows[..mid]), rows[mid..]);
      }
      HalvesEndRight(e, t, rows);
    }
  }

  /** In particular lists in which the rows of one id carry one e-mail. */
  lemma OneMailEndsRight<K(!new), V(!new), E(!new)>(
      checks: User<K, V> -> bool, mail: V -> E, t: map<K, V>, rows: seq<User<K, V>>)
    requires TableEffects.OneMail(mail, rows)
    ensures EndsRight(TableEffects.Upsert(checks, mail), t, rows)
  {
    assert !Unsettled(checks, mail, rows);
    SettledEndsRight(checks, mail, t, rows);
  }

  /******* What goes wrong *******/

  /** One row that the state rejects, or that changes nothing. */
  lemma OneEnds<T(!new), R(!new)>(apply: (T, R) -> Option<T>, s: T, r: R)
    requires apply(s, r).None? || apply(s, r) == Some(s)
    ensures MayEnd(apply, s, [r], s, if apply(s, r).None? then [r] else [])
  {
    var none: seq<R> := [];
    assert [r][1..] == none && Fold(apply, s, none) == Some(s);
    assert Fold(apply, s, [r]) == apply(s, r);
  }

  /** A batch of two rows of which one is rejected and the other changes nothing. */
  lemma PairEnds<T(!new), R(!new)>(apply: (T, R) -> Option<T>, s: T, a: R, b: R)
    requires (apply(s, a).None? && apply(s, b) == Some(s)) || (apply(s, a) == Some(s) && apply(s, b).None?)
    ensures MayEnd(apply, s, [a, b], s, if apply(s, a).None? then [a] else [b])
  {
    var rows, none: seq<R> := [a, b], [];
    assert rows[..1] == [a] && rows[1..] == [b] && rows[..0] == none;
    var left, right := if apply(s, a).None? then [a] else none, if apply(s, b).None? then [b] else none;
    OneEnds(apply, s, a);
    OneEnds(apply, s, b);
    assert left + right == if apply(s, a).None? then [a] else [b];
    assert MayEnd(apply, s, rows[..1], s, left) && MayEnd(apply, s, rows[1..], s, right);
    assert |rows| / 2 == 1 && HalvesMayEnd(apply, s, rows, s, left + right);
    assert [b][1..] == none;
    assert Fold(apply, s, rows).None? && Fold(apply, s, rows[..0]) == Some(s);
  }

  /**
   Three rows hand an e-mail over, and a fourth is rejected behind them.  The save may then end with
   the first row in its result, too, which the database accepts when the rows are written one at a
   time.
   */
  lemma HandoverMisreports<K(!new), V(!new), E(!new)>(
      checks: User<K, V> -> bool, mail: V -> E, t: map<K, V>, rows: seq<User<K, V>>)
    requires |rows| == 4 && TableEffects.Hands(checks, mail, rows[0], rows[1], rows[2])
    requires forall x :: x in t ==> mail(t[x]) != mail(rows[0].value) && mail(t[x]) != mail(rows[1].value)
    requires var s := t[rows[0].key := rows[1].value][rows[2].key := rows[2].value];
             TableEffects.Upsert(checks, mail)(s, rows[3]).None?
    ensures var e := TableEffects.Upsert(checks, mail);
            && Skipped(e, t, rows) == [rows[3]]
            && exists u :: MayEnd(e, t, rows, u, [rows[0], rows[3]])
  {
    var e, a := TableEffects.Upsert(checks, mail), [rows[0], rows[1], rows[2]];
    var s := t[rows[0].key := rows[1].value][rows[2].key := rows[2].value];
    TableEffects.HandedOver(checks, mail, t, rows[0], rows[1], rows[2]);
    assert rows[..3] == a && rows == a + [rows[3]] && [rows[3]][1..] == [];
    FoldConcat(e, t, a, [rows[3]]);
    SkipConcat(e, t, a, [rows[3]]);
    FoldMeetsSkip(e, t, a);
    PairEnds(e, s, rows[0], rows[1]);
    PairEnds(e, s, rows[2], rows[3]);
    assert rows[..2] == [rows[0], rows[1]] && rows[2..] == [rows[2], rows[3]];
    assert [rows[0]] + [rows[3]] == [rows[0], rows[3]] && |rows| / 2 == 2;
    assert HalvesMayEnd(e, s, rows, s, [rows[0], rows[3]]);
    assert MayEnd(e, t, rows, s, [rows[0], rows[3]]);
  }

  /** For every unsettled handover there is such a collection: an empty one, or one that rejects the last row. */
  lemma UnsettledEndsWrong<K(!new), V(!new), E(!new)>(
      checks: User<K, V> -> bool, mail: V -> E, rows: seq<User<K, V>>, newId: set<K> -> K) returns (t: map<K, V>)
    requires |rows| == 4 && UnsettledAt(checks, mail, rows, 0, 1, 2, 3)
    requires forall ids :: newId(ids) !in ids
    ensures !EndsRight(TableEffects.Upsert(checks, mail), t, rows)
  {
    var b, c, d := rows[1], rows[2], rows[3];
    t := map[];
    if checks(d) && mail(d.value) != mail(b.value) && mail(d.value) != mail(c.value) {
      t := map[newId({b.key, c.key, d.key}) := d.value];
    }
    var s := t[b.key := b.value][c.key := c.value];
    assert s[b.key] == b.value && s[c.key] == c.value;
    if checks(d) {
      if mail(d.value) == mail(b.value) {
        assert b.key in s && d.key != b.key;
      } else if mail(d.value) == mail(c.value) {
        assert c.key in s && d.key != c.key;
      } else {
        var z := newId({b.key, c.key, d.key});
        assert z !in {b.key, c.key, d.key};
        assert z in t && s[z] == d.value;
      }
      assert TableEffects.Taken(mail, s, d);
    }
    HandoverMisreports(checks, mail, t, rows);
    var u :| MayEnd(TableEffects.Upsert(checks, mail), t, rows, u, [rows[0], d]);
    assert |[rows[0], d]| != |[d]|;
  }

  /** Whatever rows of the list are saved as one batch, in their order, and whatever the collection holds. */
  ghost predicate AlwaysEndsRight<K(!new), V(!new), E(!new)>(
      checks: User<K, V> -> bool, mail: V -> E, rows: seq<User<K, V>>)
  {
    forall at, t :: Places(at, |rows|) ==> EndsRight(TableEffects.Upsert(checks, mail), t, Pick(rows, at))
  }

  /**
   Read off the list: every batch of its rows is saved right, from every collection, if and only if
   all handovers in it are settled.  Ids do not run out: `newId` gives one outside a set.
   */
  lemma UnsettledIff<K(!new), V(!new), E(!new)>(
      checks: User<K, V> -> bool, mail: V -> E, rows: seq<User<K, V>>, newId: set<K> -> K)
    requires forall ids :: newId(ids) !in ids
    ensures AlwaysEndsRight(checks, mail, rows) <==> !Unsettled(checks, mail, rows)
  {
    if Unsettled(checks, mail, rows) {
      var i, j, k, l :| 0 <= i < j < k < l < |rows| && UnsettledAt(checks, mail, rows, i, j, k, l);
      var at: seq<nat> := [i, j, k, l];
      assert Places(at, |rows|);
      var t := UnsettledEndsWrong(checks, mail, Pick(rows, at), newId);
    } else {
      forall at, t | Places(at, |rows|) ensures EndsRight(TableEffects.Upsert(checks, mail), t, Pick(rows, at)) {
        PickSettled(checks, mail, rows, at);
        SettledEndsRight(checks, mail, t, Pick(rows, at));
      }
    }
  }
}
