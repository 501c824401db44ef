/**
 The divide-and-conquer bulk writer of the task and user repositories.  BulkCreate,
 BulkUpdate, BulkUpdateStatus and BulkUpsertUsers are four copies of one text that differ
 only in their SQL; here they are one writer over any table `T`, row `R` and row effect.
 */
module BulkWriter {
  import opened Wrappers
  import opened RowFold
  import opened GoSlices
  import SplitCost

  /** Row failures that do not depend on the table: `r` is rejected iff `rejects(r)`. */
  ghost predicate RowIndependent<T(!new), R(!new)>(apply: (T, R) -> Option<T>, rejects: R -> bool) {
    forall t, r :: apply(t, r).None? <==> rejects(r)
  }

  /** A Postgres table under the contract the writer relies on. */
  class Database<T(!new), R(!new)> {
    /** The effect of a one-row statement. */
    const apply: (T, R) -> Option<T>
    /** Whether a statement of several rows may fail although each row alone would apply. */
    const batchOnlyErrors: bool

    var table: T
    var statements: nat

    constructor (apply: (T, R) -> Option<T>, batchOnlyErrors: bool, table: T)
      ensures this.apply == apply && this.batchOnlyErrors == batchOnlyErrors
      ensures this.table == table && statements == 0
    {
      this.apply, this.batchOnlyErrors := apply, batchOnlyErrors;
      this.table, statements := table, 0;
    }

    /**
     One batch statement.  It takes effect as a whole or not at all; a lost connection may
     hide that it did.
     */
    method ExecBatch(rows: seq<R>) returns (out: Outcome)
      requires rows != []
      modifies this
      ensures statements == old(statements) + 1
      ensures out.Ok? ==> Fold(apply, old(table), rows) == Some(table)
      ensures out.DataError? ==>
                && table == old(table)
                && (Fold(apply, old(table), rows).None? || (batchOnlyErrors && |rows| > 1))
      ensures out.ConnError? ==> table == old(table) || Fold(apply, old(table), rows) == Some(table)
    {
      statements := statements + 1;
      var effect := Fold(apply, table, rows);
      var connectionLost, tookEffect, batchError := *, *, *;
      if connectionLost {
        if tookEffect && effect.Some? {
          table := effect.value;
        }
        out := ConnError;
      } else if effect.None? || (batchError && batchOnlyErrors && |rows| > 1) {
        out := DataError;
      } else {
        table := effect.value;
        out := Ok;
      }
    }
  }

  /** With row-independent failures, rows are skipped iff there is a poisonous one. */
  lemma {:induction false} SkipsIffPoisonous<T(!new), R(!new)>(
      apply: (T, R) -> Option<T>, rejects: R -> bool, t: T, rows: seq<R>)
    requires RowIndependent(apply, rejects)
    ensures |Skipped(apply, t, rows)| == SplitCost.Poisonous(rejects, rows)
    ensures Fold(apply, t, rows).None? <==> SplitCost.Poisonous(rejects, rows) > 0
  {
    FoldMeetsSkip(apply, t, rows);
    if rows != [] {
      SkipsIffPoisonous(apply, rejects, Try(apply, t, rows[0]), rows[1..]);
    }
  }

  /**
   The meaning of one run of the writer on `rows` from table `t`: if no connection was lost,
   the table is that of the one-row-at-a-time fold and `failed` are exactly the rows it
   skipped, in order; otherwise the table is that of the fold over some prefix.
   */
  ghost predicate Wrote<T(!new), R(!new)>(
      apply: (T, R) -> Option<T>, t: T, rows: seq<R>, result: T, failed: seq<R>, connLost: bool)
  {
    if connLost then failed == [] && AfterSomePrefix(apply, t, rows, result)
    else result == SkipTable(apply, t, rows) && failed == Skipped(apply, t, rows)
  }

  /** The number of statements of one run of the recursion, bounded for all rejections and
      exact when batches are rejected only for a row that every table rejects. */
  ghost predicate Cost<T(!new), R(!new)>(
      apply: (T, R) -> Option<T>, batchOnlyErrors: bool, rejects: R -> bool, rows: seq<R>, cost: int, connLost: bool)
  {
    && 0 <= cost && (rows != [] ==> cost <= 2 * |rows| - 1)
    && (RowIndependent(apply, rejects) && !batchOnlyErrors ==>
          && cost <= SplitCost.Statements(rejects, rows)
          && (!connLost ==> cost == SplitCost.Statements(rejects, rows)))
  }

  /** A whole batch that took effect, or a lost connection. */
  lemma WroteAtOnce<T(!new), R(!new)>(apply: (T, R) -> Option<T>, t: T, rows: seq<R>, result: T, connLost: bool)
    requires Fold(apply, t, rows) == Some(result) || (connLost && result == t)
    ensures Wrote(apply, t, rows, result, [], connLost)
  {
    FoldMeetsSkip(apply, t, rows);
    assert rows[..|rows|] == rows && rows[..0] == [];
    assert result == t ==> result == SkipTable(apply, t, rows[..0]);
    assert Fold(apply, t, rows) == Some(result) ==> result == SkipTable(apply, t, rows[..|rows|]);
  }

  /** A rejected row on its own. */
  lemma WroteNothing<T(!new), R(!new)>(apply: (T, R) -> Option<T>, t: T, rows: seq<R>)
    requires |rows| == 1 && Fold(apply, t, rows).None?
    ensures Wrote(apply, t, rows, t, rows, false)
  {
    assert rows[1..] == [];
  }

  /** Two halves one after the other, or a connection lost in one of them. */
  lemma WroteHalves<T(!new), R(!new)>(
      apply: (T, R) -> Option<T>, t: T, rows: seq<R>, mid: nat,
      t1: T, failed1: seq<R>, lost1: bool, t2: T, failed2: seq<R>, lost2: bool)
    requires mid <= |rows| && Wrote(apply, t, rows[..mid], t1, failed1, lost1)
    requires !lost1 ==> Wrote(apply, t1, rows[mid..], t2, failed2, lost2)
    ensures lost1 ==> Wrote(apply, t, rows, t1, [], true)
    ensures !lost1 && lost2 ==> Wrote(apply, t, rows, t2, [], true)
    ensures !lost1 && !lost2 ==> Wrote(apply, t, rows, t2, failed1 + failed2, false)
  {
    assert rows[..mid] + rows[mid..] == rows;
    SkipConcat(apply, t, rows[..mid], rows[mid..]);
    if lost1 {
      PrefixOfLeft(apply, t, rows[..mid], rows[mid..], t1);
    } else if lost2 {
      PrefixOfRight(apply, t, rows[..mid], rows[mid..], t2);
    }
  }

  lemma CostOnce<T(!new), R(!new)>(
      apply: (T, R) -> Option<T>, batchOnlyErrors: bool, rejects: R -> bool, t: T, rows: seq<R>, connLost: bool)
    requires rows != []
    requires |rows| == 1 || connLost || Fold(apply, t, rows).Some?
    ensures Cost(apply, batchOnlyErrors, rejects, rows, 1, connLost)
  {
    if RowIndependent(apply, rejects) {
      SkipsIffPoisonous(apply, rejects, t, rows);
    }
  }

  /** The cost of the two halves together. */
  ghost predicate HalvesCost<T(!new), R(!new)>(
      apply: (T, R) -> Option<T>, batchOnlyErrors: bool, rejects: R -> bool,
      left: seq<R>, right: seq<R>, cost: int, connLost: bool)
  {
    || (connLost && Cost(apply, batchOnlyErrors, rejects, left, cost, true))
    || (exists c :: && Cost(apply, batchOnlyErrors, rejects, left, c, false)
                    && Cost(apply, batchOnlyErrors, rejects, right, cost - c, connLost))
  }

  lemma CostOfHalves<T(!new), R(!new)>(
      apply: (T, R) -> Option<T>, batchOnlyErrors: bool, rejects: R -> bool, t: T, rows: seq<R>,
      cost: int, connLost: bool)
    requires |rows| > 1 && (Fold(apply, t, rows).None? || batchOnlyErrors)
    requires HalvesCost(apply, batchOnlyErrors, rejects, rows[..|rows| / 2], rows[|rows| / 2..], cost, connLost)
    ensures Cost(apply, batchOnlyErrors, rejects, rows, 1 + cost, connLost)
  {
    if RowIndependent(apply, rejects) {
      SkipsIffPoisonous(apply, rejects, t, rows);
    }
  }

  /** Where a slice of failed rows may live when it shares the caller's array. */
  ghost predicate StaysInside<R>(failed: Slice<R>, tasks: Slice<R>) {
    && failed.Window? && tasks.Window? && failed.arr == tasks.arr
    && tasks.off <= failed.off && failed.off + failed.len <= tasks.off + tasks.len
    && failed.off + failed.cap == tasks.off + tasks.cap
  }

  /** append(failedLeft, failedRight...), whose two arguments live in the halves of `tasks`. */
  method AppendFailures<R(0)>(failedLeft: Slice<R>, failedRight: Slice<R>, ghost tasks: Slice<R>, ghost mid: nat)
    returns (failed: Slice<R>)
    requires tasks.Window? && tasks.Valid() && mid <= tasks.len
    requires failedLeft.Valid() && failedRight.Valid()
    requires failedLeft.Window? && failedLeft.arr == tasks.arr ==> StaysInside(failedLeft, tasks.UpTo(mid))
    requires failedRight.Window? && failedRight.arr == tasks.arr ==> StaysInside(failedRight, tasks.From(mid))
    requires failedRight.Len() <= tasks.len - mid
    modifies failedLeft.Backing()
    ensures failed.Valid()
    ensures failed.Elems() == old(failedLeft.Elems() + failedRight.Elems())
    ensures failed.Nil? || fresh(failed.arr) || StaysInside(failed, tasks) ||
            (failedLeft.Window? && failed.arr == failedLeft.arr != tasks.arr) ||
            (failedRight.Window? && failed.arr == failedRight.arr != tasks.arr)
    ensures forall i :: 0 <= i < tasks.arr.Length && !(tasks.off <= i < tasks.off + tasks.len) ==>
                          tasks.arr[i] == old(tasks.arr[i])
  {
    failed := Append(failedLeft, failedRight);
  }

  /**
   recursiveCreate, recursiveUpdate, recursiveUpdateStatus, recursiveUpsert.

   A leaf returns its own one-row slice, and the parent appends the right half's failures
   to the left half's: that append overwrites the caller's rows in place.  The contract
   says that it only ever overwrites rows of this region, and that all results are those of
   the rows as they were at the call, so that no row is overwritten before it was tried.
   */
  method RecursiveWrite<T(!new), R(0, !new)>(
      db: Database<T, R>, tasks: Slice<R>, ghost rows: seq<R>, ghost rejects: R -> bool)
    returns (failed: Slice<R>, connLost: bool)
    requires tasks.Valid() && tasks.Elems() == rows
    modifies db, tasks.Backing()
    ensures failed.Valid()
    ensures Wrote(db.apply, old(db.table), rows, db.table, failed.Elems(), connLost)
    ensures failed.Nil? || fresh(failed.arr) || StaysInside(failed, tasks)
    ensures tasks.Window? ==>
              forall i :: 0 <= i < tasks.arr.Length && !(tasks.off <= i < tasks.off + tasks.len) ==>
                            tasks.arr[i] == old(tasks.arr[i])
    ensures Cost(db.apply, db.batchOnlyErrors, rejects, rows, db.statements - old(db.statements), connLost)
    decreases tasks.Len(), 1
  {
    if tasks.Len() == 0 {
      return Nil, false;
    }
    ghost var t, n := db.table, db.statements;
    var out := db.ExecBatch(tasks.Elems());
    if out != DataError {
      WroteAtOnce(db.apply, t, rows, db.table, out.ConnError?);
      CostOnce(db.apply, db.batchOnlyErrors, rejects, t, rows, out.ConnError?);
      return Nil, out.ConnError?;
    }
    if tasks.len == 1 {
      WroteNothing(db.apply, t, rows);
      CostOnce(db.apply, db.batchOnlyErrors, rejects, t, rows, false);
      return tasks, false;
    }
    failed, connLost := WriteHalves(db, tasks, rows, rejects);
    CostOfHalves(db.apply, db.batchOnlyErrors, rejects, t, rows, db.statements - n - 1, connLost);
  }

  /** The part of the recursion below a rejected batch of at least two rows. */
  method WriteHalves<T(!new), R(0, !new)>(
      db: Database<T, R>, tasks: Slice<R>, ghost rows: seq<R>, ghost rejects: R -> bool)
    returns (failed: Slice<R>, connLost: bool)
    requires tasks.Valid() && tasks.Elems() == rows && |rows| > 1
    modifies db, tasks.Backing()
    ensures failed.Valid()
    ensures Wrote(db.apply, old(db.table), rows, db.table, failed.Elems(), connLost)
    ensures failed.Nil? || fresh(failed.arr) || StaysInside(failed, tasks)
    ensures forall i :: 0 <= i < tasks.arr.Length && !(tasks.off <= i < tasks.off + tasks.len) ==>
                          tasks.arr[i] == old(tasks.arr[i])
    ensures HalvesCost(db.apply, db.batchOnlyErrors, rejects, rows[..|rows| / 2], rows[|rows| / 2..],
                       db.statements - old(db.statements), connLost)
    decreases tasks.Len(), 0
  {
    ghost var t, n := db.table, db.statements;
    var mid := tasks.len / 2;
    var left, right := tasks.UpTo(mid), tasks.From(mid);
    SplitElems(tasks, mid);
    ElemsAt(right);
    var failedLeft, leftLost := RecursiveWrite(db, left, rows[..mid], rejects);
    ghost var t1, n1, skippedLeft := db.table, db.statements, failedLeft.Elems();
    if leftLost {
      WroteHalves(db.apply, t, rows, mid, t1, skippedLeft, true, t1, [], true);
      return Nil, true;
    }
    ElemsAre(right, rows[mid..]);
    ghost var skippedRight;
    failed, connLost, skippedRight :=
      WriteRight(db, tasks, mid, failedLeft, skippedLeft, rows[mid..], rejects);
    WroteHalves(db.apply, t, rows, mid, t1, skippedLeft, false, db.table, skippedRight, connLost);
    assert Cost(db.apply, db.batchOnlyErrors, rejects, rows[..mid], n1 - n, false);
  }

  /** The right half, and the append of its failures to those of the left half. */
  method WriteRight<T(!new), R(0, !new)>(
      db: Database<T, R>, tasks: Slice<R>, mid: nat, failedLeft: Slice<R>,
      ghost skippedLeft: seq<R>, ghost rightRows: seq<R>, ghost rejects: R -> bool)
    returns (failed: Slice<R>, connLost: bool, ghost skippedRight: seq<R>)
    requires tasks.Valid() && 0 < mid < tasks.Len() && tasks.From(mid).Elems() == rightRows
    requires failedLeft.Valid() && failedLeft.Elems() == skippedLeft
    requires failedLeft.Window? && failedLeft.arr == tasks.arr ==> StaysInside(failedLeft, tasks.UpTo(mid))
    modifies db, tasks.arr, failedLeft.Backing()
    ensures failed.Valid()
    ensures failed.Elems() == if connLost then [] else skippedLeft + skippedRight
    ensures Wrote(db.apply, old(db.table), rightRows, db.table, skippedRight, connLost)
    ensures failed.Nil? || fresh(failed.arr) || StaysInside(failed, tasks) ||
            (failedLeft.Window? && failed.arr == failedLeft.arr != tasks.arr)
    ensures forall i :: 0 <= i < tasks.arr.Length && !(tasks.off <= i < tasks.off + tasks.len) ==>
                          tasks.arr[i] == old(tasks.arr[i])
    ensures Cost(db.apply, db.batchOnlyErrors, rejects, rightRows, db.statements - old(db.statements), connLost)
    decreases tasks.Len() - mid, 2
  {
    if failedLeft.Window? {
      ElemsAt(failedLeft);
    }
    var failedRight;
    failedRight, connLost := RecursiveWrite(db, tasks.From(mid), rightRows, rejects);
    skippedRight := failedRight.Elems();
    if connLost {
      return Nil, true, [];
    }
    if failedLeft.Window? {
      ElemsAre(failedLeft, skippedLeft);
    }
    failed := AppendFailures(failedLeft, failedRight, tasks, mid);
  }

  /** BulkCreate, BulkUpdate, BulkUpdateStatus, BulkUpsertUsers. */
  method BulkWrite<T(!new), R(0, !new)>(db: Database<T, R>, tasks: Slice<R>, ghost rejects: R -> bool)
    returns (failed: Slice<R>, connLost: bool)
    requires tasks.Valid()
    modifies db, tasks.Backing()
    ensures failed.Valid()
    ensures Wrote(db.apply, old(db.table), old(tasks.Elems()), db.table, failed.Elems(), connLost)
    ensures failed.Nil? || fresh(failed.arr) || StaysInside(failed, tasks)
    ensures tasks.Window? ==>
              forall i :: 0 <= i < tasks.arr.Length && !(tasks.off <= i < tasks.off + tasks.len) ==>
                            tasks.arr[i] == old(tasks.arr[i])
    ensures db.statements <= old(db.statements) + 2 * tasks.Len()
    ensures tasks.Len() > 0 && RowIndependent(db.apply, rejects) && !db.batchOnlyErrors ==>
              db.statements <= old(db.statements) + 2 +
                2 * (SplitCost.Poisonous(rejects, old(tasks.Elems())) * SplitCost.CeilLog2(tasks.Len()))
  {
    if tasks.Len() == 0 {
      return Nil, false;
    }
    ghost var t, rows := db.table, tasks.Elems();
    var out := db.ExecBatch(tasks.Elems());
    SplitCost.LogBound(rejects, rows);
    if out != DataError {
      WroteAtOnce(db.apply, t, rows, db.table, out.ConnError?);
      return Nil, out.ConnError?;
    }
    failed, connLost := RecursiveWrite(db, tasks, rows, rejects);
  }
}
