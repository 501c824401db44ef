/**
 The simple form that the bulk writers refine: take the rows one at a time, in order,
 and skip a row that the database rejects.

 `apply(t, r)` is the effect of a one-row statement: `None` when the database rejects row
 `r` in table state `t`, otherwise the new table.  It may depend on the table, so a row
 can be rejected because of an earlier one (a unique e-mail, a missing parent row).
 */
module RowFold {
  import opened Wrappers

  /** What one statement returned, as the code tells the cases apart. */
  datatype Outcome = Ok | DataError | ConnError

  /** The table after `r` was tried on its own; a rejected row changes nothing. */
  function Try<T, R>(apply: (T, R) -> Option<T>, t: T, r: R): T {
    match apply(t, r)
    case None => t
    case Some(u) => u
  }

  /** The table after all rows were applied in order, or `None` if one was rejected. */
  function Fold<T, R>(apply: (T, R) -> Option<T>, t: T, rows: seq<R>): Option<T> {
    if rows == [] then Some(t)
    else match apply(t, rows[0])
      case None => None
      case Some(u) => Fold(apply, u, rows[1..])
  }

  /** The table after the rows were tried one at a time. */
  function SkipTable<T, R>(apply: (T, R) -> Option<T>, t: T, rows: seq<R>): T {
    if rows == [] then t else SkipTable(apply, Try(apply, t, rows[0]), rows[1..])
  }

  /** The rows that were rejected when tried one at a time, in order. */
  function Skipped<T, R>(apply: (T, R) -> Option<T>, t: T, rows: seq<R>): (bad: seq<R>)
    ensures |bad| <= |rows|
  {
    if rows == [] then []
    else (if apply(t, rows[0]).None? then [rows[0]] else []) +
         Skipped(apply, Try(apply, t, rows[0]), rows[1..])
  }

  /** Whether the table is what some prefix of the rows, tried one at a time, leaves. */
  ghost predicate AfterSomePrefix<T, R>(apply: (T, R) -> Option<T>, t: T, rows: seq<R>, result: T) {
    exists p: nat :: p <= |rows| && result == SkipTable(apply, t, rows[..p])
  }

  /** Trying one list and then another is trying their concatenation. */
  lemma {:induction false} SkipConcat<T, R>(apply: (T, R) -> Option<T>, t: T, a: seq<R>, b: seq<R>)
    ensures SkipTable(apply, t, a + b) == SkipTable(apply, SkipTable(apply, t, a), b)
    ensures Skipped(apply, t, a + b) == Skipped(apply, t, a) + Skipped(apply, SkipTable(apply, t, a), b)
  {
    if a == [] {
      assert a + b == b;
    } else {
      assert (a + b)[1..] == a[1..] + b;
      SkipConcat(apply, Try(apply, t, a[0]), a[1..], b);
    }
  }

  /** The all-or-nothing fold succeeds exactly when nothing is skipped, and then agrees. */
  lemma {:induction false} FoldMeetsSkip<T, R>(apply: (T, R) -> Option<T>, t: T, rows: seq<R>)
    ensures Fold(apply, t, rows).Some? <==> Skipped(apply, t, rows) == []
    ensures Fold(apply, t, rows).Some? ==> Fold(apply, t, rows).value == SkipTable(apply, t, rows)
  {
    if rows != [] {
      FoldMeetsSkip(apply, Try(apply, t, rows[0]), rows[1..]);
    }
  }

  /** A rejected row is one whose own statement fails in the state its predecessors left. */
  lemma {:induction false} SkippedAt<T, R>(apply: (T, R) -> Option<T>, t: T, rows: seq<R>, k: nat)
    requires k < |rows|
    ensures Skipped(apply, t, rows) ==
            Skipped(apply, t, rows[..k]) +
            (if apply(SkipTable(apply, t, rows[..k]), rows[k]).None? then [rows[k]] else []) +
            Skipped(apply, SkipTable(apply, t, rows[..k + 1]), rows[k + 1..])
  {
    SkipConcat(apply, t, rows[..k], rows[k..]);
    assert rows[..k] + rows[k..] == rows;
    assert rows[k..][1..] == rows[k + 1..];
    SkipConcat(apply, t, rows[..k], [rows[k]]);
    assert rows[..k] + [rows[k]] == rows[..k + 1];
    var s := SkipTable(apply, t, rows[..k]);
    assert SkipTable(apply, s, [rows[k]]) == Try(apply, s, rows[k]) by {
      assert [rows[k]][1..] == [];
    }
  }

  /** A prefix of a prefix, seen from the whole list. */
  lemma PrefixOfLeft<T, R>(apply: (T, R) -> Option<T>, t: T, a: seq<R>, b: seq<R>, result: T)
    requires AfterSomePrefix(apply, t, a, result)
    ensures AfterSomePrefix(apply, t, a + b, result)
  {
    var p: nat :| p <= |a| && result == SkipTable(apply, t, a[..p]);
    assert (a + b)[..p] == a[..p];
  }

  lemma PrefixOfRight<T, R>(apply: (T, R) -> Option<T>, t: T, a: seq<R>, b: seq<R>, result: T)
    requires AfterSomePrefix(apply, SkipTable(apply, t, a), b, result)
    ensures AfterSomePrefix(apply, t, a + b, result)
  {
    var p: nat :| p <= |b| && result == SkipTable(apply, SkipTable(apply, t, a), b[..p]);
    SkipConcat(apply, t, a, b[..p]);
    assert (a + b)[..|a| + p] == a + b[..p];
  }
}
