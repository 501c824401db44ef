/**
 What the bulk statements reject and what they leave in a table, in terms of keys and values, for
 every table and every list of rows.
 */
module StatementMeaning {
  import opened Wrappers
  import opened RowFold
  import opened BulkWriter
  import opened SortedSeq
  import opened TableEffects

  /******* UPDATE ... FROM (VALUES ...) *******/

  /**
   An update rejects the rows that do not convert, and those of the table's keys that break a
   constraint; a row whose key the table does not have is no failure.
   */
  lemma {:induction false} UpdateRejects<K, F, C>(
      converts: Row<K, C> -> bool, checks: Row<K, C> -> bool, t: map<K, Stored<F, C>>, rows: seq<Row<K, C>>)
    ensures SkipTable(Update(converts, checks), t, rows).Keys == t.Keys
    ensures Skipped(Update(converts, checks), t, rows)
         == Filter((r: Row<K, C>) => !converts(r) || (r.key in t && !checks(r)), rows)
    decreases rows
  {
    if rows != [] {
      var t1 := Try(Update<K, F, C>(converts, checks), t, rows[0]);
      assert t1.Keys == t.Keys;
      UpdateRejects(converts, checks, t1, rows[1..]);
      FilterAgrees((r: Row<K, C>) => !converts(r) || (r.key in t1 && !checks(r)),
                   (r: Row<K, C>) => !converts(r) || (r.key in t && !checks(r)), rows[1..]);
      var rest := Filter((r: Row<K, C>) => !converts(r) || (r.key in t && !checks(r)), rows[1..]);
      assert [] + rest == rest;
    }
  }

  lemma {:induction false} FilterAgrees<A>(p: A -> bool, q: A -> bool, s: seq<A>)
    requires forall x :: x in s ==> p(x) == q(x)
    ensures Filter(p, s) == Filter(q, s)
    decreases s
  {
    if s != [] {
      assert s[0] in s && forall x :: x in s[1..] ==> x in s;
      FilterAgrees(p, q, s[1..]);
    }
  }

  /** The last valid row of a key sets its columns, and nothing else changes. */
  lemma {:induction false} UpdateWrites<K, F, C>(
      converts: Row<K, C> -> bool, checks: Row<K, C> -> bool, t: map<K, Stored<F, C>>, rows: seq<Row<K, C>>, k: K)
    requires k in t
    ensures var u := SkipTable(Update(converts, checks), t, rows);
            && k in u && u[k].fixed == t[k].fixed
            && (forall i :: 0 <= i < |rows| && rows[i].key == k && converts(rows[i]) && checks(rows[i])
                            && (forall j :: i < j < |rows| && rows[j].key == k ==>
                                  !converts(rows[j]) || !checks(rows[j]))
                            ==> u[k].columns == rows[i].value)
            && ((forall i :: 0 <= i < |rows| && rows[i].key == k ==> !converts(rows[i]) || !checks(rows[i]))
                ==> u[k].columns == t[k].columns)
    decreases |rows|
  {
    if rows != [] {
      var e, n := Update<K, F, C>(converts, checks), |rows| - 1;
      TakenOneMore(e, t, rows, n);
      assert rows[..n + 1] == rows;
      UpdateWrites(converts, checks, t, rows[..n], k);
      assert forall i :: 0 <= i < n ==> rows[..n][i] == rows[i];
    }
  }

  /** What the bulk writer returns for a list of updates whose connection is not lost. */
  lemma UpdateReturns<K(!new), F(!new), C(!new)>(
      converts: Row<K, C> -> bool, checks: Row<K, C> -> bool, t: map<K, Stored<F, C>>, rows: seq<Row<K, C>>,
      u: map<K, Stored<F, C>>, failed: seq<Row<K, C>>)
    requires Wrote(Update(converts, checks), t, rows, u, failed, false)
    ensures failed == Filter((r: Row<K, C>) => !converts(r) || (r.key in t && !checks(r)), rows)
    ensures failed == [] <==> forall r :: r in rows ==> converts(r) && (r.key in t ==> checks(r))
    ensures u.Keys == t.Keys
  {
    UpdateRejects(converts, checks, t, rows);
    FilterMembers((r: Row<K, C>) => !converts(r) || (r.key in t && !checks(r)), rows);
    assert failed != [] ==> failed[0] in failed;
  }

  /******* INSERT ... ON CONFLICT DO NOTHING *******/

  /**
   An insert rejects a row that breaks a constraint, and a row without its parent whose key is
   neither in the table nor stored by a row in front of it.
   */
  lemma InsertRejects<K, V>(
      checks: Row<K, V> -> bool, parents: Row<K, V> -> bool, t: map<K, V>, rows: seq<Row<K, V>>, i: nat)
    requires i < |rows|
    ensures var e := TableEffects.Insert(checks, parents);
            e(SkipTable(e, t, rows[..i]), rows[i]).None? <==>
            || !checks(rows[i])
            || (&& !parents(rows[i]) && rows[i].key !in t
                && forall h :: 0 <= h < i && rows[h].key == rows[i].key ==> !checks(rows[h]) || !parents(rows[h]))
  {
    InsertHas(checks, parents, t, rows, i, rows[i].key);
  }

  /** The table keeps its rows, and gets the first storable row of each key that it did not have. */
  lemma {:induction false} InsertWrites<K, V>(
      checks: Row<K, V> -> bool, parents: Row<K, V> -> bool, t: map<K, V>, rows: seq<Row<K, V>>, k: K)
    ensures var u := SkipTable(TableEffects.Insert(checks, parents), t, rows);
            && (k in t ==> k in u && u[k] == t[k])
            && (k !in t ==>
                  && (k in u <==>
                        exists i :: 0 <= i < |rows| && rows[i].key == k && checks(rows[i]) && parents(rows[i]))
                  && forall i :: 0 <= i < |rows| && rows[i].key == k && checks(rows[i]) && parents(rows[i])
                                 && (forall h :: 0 <= h < i && rows[h].key == k ==>
                                       !checks(rows[h]) || !parents(rows[h]))
                                 ==> u[k] == rows[i].value)
    decreases |rows|
  {
    if rows != [] {
      var e, n := TableEffects.Insert(checks, parents), |rows| - 1;
      TakenOneMore(e, t, rows, n);
      assert rows[..n + 1] == rows;
      InsertWrites(checks, parents, t, rows[..n], k);
      assert forall i :: 0 <= i < n ==> rows[..n][i] == rows[i];
    }
  }

  /******* INSERT ... ON CONFLICT (id) DO UPDATE *******/

  /** An upsert rejects a row that breaks a constraint, and one whose e-mail another id has at that point. */
  lemma UpsertRejects<K, V, E>(
      checks: Row<K, V> -> bool, mail: V -> E, t: map<K, V>, rows: seq<Row<K, V>>, i: nat)
    requires i < |rows|
    ensures var e := Upsert(checks, mail);
            var v := SkipTable(e, t, rows[..i]);
            && (RejectedAt(e, t, rows, i) <==> e(v, rows[i]).None?)
            && (e(v, rows[i]).None? <==>
                !checks(rows[i]) || exists k :: k in v && k != rows[i].key && mail(v[k]) == mail(rows[i].value))
  {
  }

  /** Ids whose rows are all rejected stay as they are. */
  lemma {:induction false} UpsertLeaves<K, V, E>(
      checks: Row<K, V> -> bool, mail: V -> E, t: map<K, V>, rows: seq<Row<K, V>>, n: nat, k: K)
    requires n <= |rows|
    requires forall j :: n <= j < |rows| && rows[j].key == k ==> RejectedAt(Upsert(checks, mail), t, rows, j)
    ensures var u, v := SkipTable(Upsert(checks, mail), t, rows), SkipTable(Upsert(checks, mail), t, rows[..n]);
            (k in u <==> k in v) && (k in v ==> u[k] == v[k])
    decreases |rows| - n
  {
    if n == |rows| {
      assert rows[..n] == rows;
    } else {
      UpsertLeaves(checks, mail, t, rows, n + 1, k);
      TakenOneMore(Upsert(checks, mail), t, rows, n);
    }
  }

  /**
   Of the rows of an id, the table holds the last that is not rejected where it stands; an id all of
   whose rows are rejected stays as it is.
   */
  lemma UpsertWrites<K, V, E>(
      checks: Row<K, V> -> bool, mail: V -> E, t: map<K, V>, rows: seq<Row<K, V>>, k: K)
    ensures var e := Upsert(checks, mail);
            var u := SkipTable(e, t, rows);
            && (forall i :: 0 <= i < |rows| && rows[i].key == k && !RejectedAt(e, t, rows, i)
                            && (forall j :: i < j < |rows| && rows[j].key == k ==> RejectedAt(e, t, rows, j))
                            ==> k in u && u[k] == rows[i].value)
            && ((forall i :: 0 <= i < |rows| && rows[i].key == k ==> RejectedAt(e, t, rows, i))
                ==> (k in u <==> k in t) && (k in t ==> u[k] == t[k]))
  {
    var e := Upsert(checks, mail);
    var u := SkipTable(e, t, rows);
    forall i | 0 <= i < |rows| && rows[i].key == k && !RejectedAt(e, t, rows, i)
               && (forall j :: i < j < |rows| && rows[j].key == k ==> RejectedAt(e, t, rows, j))
      ensures k in u && u[k] == rows[i].value
    {
      UpsertLeaves(checks, mail, t, rows, i + 1, k);
      TakenOneMore(e, t, rows, i);
    }
    if forall i :: 0 <= i < |rows| && rows[i].key == k ==> RejectedAt(e, t, rows, i) {
      UpsertLeaves(checks, mail, t, rows, 0, k);
      assert rows[..0] == [];
    }
  }

  /******* The rows returned *******/

  /** The last of some increasing places. */
  lemma LastPlace(at: seq<nat>, n: nat)
    requires n in at && forall x :: 0 <= x < |at| ==> at[x] <= n
    requires forall x, y :: 0 <= x < y < |at| ==> at[x] < at[y]
    ensures at[|at| - 1] == n && n !in at[..|at| - 1]
    ensures forall i :: i in at <==> i in at[..|at| - 1] || i == n
  {
    var m := |at| - 1;
    var x :| 0 <= x < |at| && at[x] == n;
    assert at[x] <= at[m];
    assert at == at[..m] + [at[m]];
  }

  /** The rows that are returned are, in order, those whose own statement fails where they stand. */
  lemma {:induction false} ReturnedAre<T, R>(apply: (T, R) -> Option<T>, t: T, rows: seq<R>, at: seq<nat>)
    requires forall x :: 0 <= x < |at| ==> at[x] < |rows|
    requires forall x, y :: 0 <= x < y < |at| ==> at[x] < at[y]
    requires forall i :: 0 <= i < |rows| ==> (i in at <==> apply(SkipTable(apply, t, rows[..i]), rows[i]).None?)
    ensures |Skipped(apply, t, rows)| == |at|
    ensures forall x :: 0 <= x < |at| ==> Skipped(apply, t, rows)[x] == rows[at[x]]
    decreases |rows|
  {
    if rows == [] {
      assert at == [];
    } else {
      var n, m := |rows| - 1, |at| - 1;
      TakenOneMore(apply, t, rows, n);
      assert rows[..n + 1] == rows;
      assert forall i :: 0 <= i < n ==> rows[..n][i] == rows[i] && rows[..n][..i] == rows[..i];
      if n in at {
        var front := at[..m];
        LastPlace(at, n);
        ReturnedAre(apply, t, rows[..n], front);
      } else {
        ReturnedAre(apply, t, rows[..n], at);
      }
    }
  }
}
