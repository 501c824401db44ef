/**
 The row effects of the three kinds of bulk statement, and what happens when a batch whose
 connection was lost is written again from the state the first attempt left.
 */
module TableEffects {
  import opened Wrappers
  import opened RowFold
  import opened BulkWriter

  datatype Row<+K, +V> = Row(key: K, value: V)

  ghost predicate DistinctKeys<K, V>(rows: seq<Row<K, V>>) {
    forall i, j :: 0 <= i < j < |rows| ==> rows[i].key != rows[j].key
  }

  /******* INSERT ... ON CONFLICT (id, workspace_id) DO NOTHING *******/

  /**
   `checks` are the column types and CHECK constraints, tried for every row; `parents` are
   the foreign keys, tried only for a row that is really inserted.
   */
  function Insert<K(==), V>(checks: Row<K, V> -> bool, parents: Row<K, V> -> bool)
    : (map<K, V>, Row<K, V>) -> Option<map<K, V>>
  {
    (t, r) =>
      if !checks(r) then None
      else if r.key in t then Some(t)
      else if !parents(r) then None
      else Some(t[r.key := r.value])
  }

  /** A one-statement INSERT of many rows stores the first row of each key that is absent. */
  lemma {:induction false} InsertKeepsFirst<K, V>(
      checks: Row<K, V> -> bool, parents: Row<K, V> -> bool, t: map<K, V>, rows: seq<Row<K, V>>, u: map<K, V>)
    requires Fold(Insert(checks, parents), t, rows) == Some(u)
    ensures forall k :: k in t ==> k in u && u[k] == t[k]
    ensures forall k :: k in u && k !in t ==>
              exists i :: 0 <= i < |rows| && rows[i].key == k && u[k] == rows[i].value &&
                          forall j :: 0 <= j < i ==> rows[j].key != k
    ensures forall i :: 0 <= i < |rows| ==> rows[i].key in u
    decreases rows
  {
    if rows != [] {
      var t1, rest := Insert(checks, parents)(t, rows[0]).value, rows[1..];
      InsertKeepsFirst(checks, parents, t1, rest, u);
      forall k | k in u && k !in t
        ensures exists i :: 0 <= i < |rows| && rows[i].key == k && u[k] == rows[i].value &&
                            forall j :: 0 <= j < i ==> rows[j].key != k
      {
        if k == rows[0].key {
          assert rows[0].key == k && u[k] == rows[0].value;
        } else {
          var i :| 0 <= i < |rest| && rest[i].key == k && u[k] == rest[i].value &&
                   forall j :: 0 <= j < i ==> rest[j].key != k;
          assert rows[i + 1].key == k && u[k] == rows[i + 1].value;
          assert forall j :: 0 <= j < i + 1 ==> rows[j].key != k;
        }
      }
    }
  }

  /** Keys are never removed. */
  lemma {:induction false} InsertGrows<K, V>(
      checks: Row<K, V> -> bool, parents: Row<K, V> -> bool, t: map<K, V>, rows: seq<Row<K, V>>)
    ensures t.Keys <= SkipTable(Insert(checks, parents), t, rows).Keys
    decreases rows
  {
    if rows != [] {
      InsertGrows(checks, parents, Try(Insert(checks, parents), t, rows[0]), rows[1..]);
    }
  }

  /** Row `i` was rejected for its parent, and its key was inserted after all by row `p` or before. */
  ghost predicate LateKey<K, V>(
      checks: Row<K, V> -> bool, parents: Row<K, V> -> bool, t: map<K, V>, rows: seq<Row<K, V>>,
      s: map<K, V>, i: nat)
    requires i < |rows|
  {
    && checks(rows[i]) && !parents(rows[i])
    && rows[i].key !in SkipTable(Insert(checks, parents), t, rows[..i]) && rows[i].key in s
  }

  lemma LateKeyTail<K, V>(
      checks: Row<K, V> -> bool, parents: Row<K, V> -> bool, t: map<K, V>, rows: seq<Row<K, V>>,
      s: map<K, V>, i: nat)
    requires i + 1 < |rows|
    ensures LateKey(checks, parents, t, rows, s, i + 1) <==>
            LateKey(checks, parents, Try(Insert(checks, parents), t, rows[0]), rows[1..], s, i)
  {
    assert rows[..i + 1][1..] == rows[1..][..i];
  }

  /** Writing rows again onto a table that already holds their effect changes nothing. */
  lemma {:induction false} InsertAgain<K, V>(
      checks: Row<K, V> -> bool, parents: Row<K, V> -> bool, t: map<K, V>, rows: seq<Row<K, V>>, s: map<K, V>)
    requires s == SkipTable(Insert(checks, parents), t, rows)
    ensures SkipTable(Insert(checks, parents), s, rows) == s
    ensures |Skipped(Insert(checks, parents), s, rows)| <= |Skipped(Insert(checks, parents), t, rows)|
    ensures Skipped(Insert(checks, parents), s, rows) == Skipped(Insert(checks, parents), t, rows) <==>
            !exists i :: 0 <= i < |rows| && LateKey(checks, parents, t, rows, s, i)
    decreases rows
  {
    if rows != [] {
      var e, t1, rest := Insert(checks, parents), Try(Insert(checks, parents), t, rows[0]), rows[1..];
      InsertAgain(checks, parents, t1, rest, s);
      InsertGrows(checks, parents, t1, rest);
      assert Try(e, s, rows[0]) == s;
      forall i | 0 <= i < |rest|
        ensures LateKey(checks, parents, t, rows, s, i + 1) <==> LateKey(checks, parents, t1, rest, s, i)
      {
        LateKeyTail(checks, parents, t, rows, s, i);
      }
      assert LateKey(checks, parents, t, rows, s, 0) <==> e(t, rows[0]).None? && e(s, rows[0]).Some?;
      var x, y := Skipped(e, s, rest), Skipped(e, t1, rest);
      assert [rows[0]] + x == [rows[0]] + y ==> ([rows[0]] + x)[1..] == x && ([rows[0]] + y)[1..] == y;
      assert [] + x == x && [] + y == y;
      if LateKey(checks, parents, t, rows, s, 0) {
        assert |Skipped(e, s, rows)| == |x| && |Skipped(e, t, rows)| == 1 + |y|;
      } else {
        assert Skipped(e, s, rows) == Skipped(e, t, rows) <==> x == y;
        assert (exists i :: 0 <= i < |rows| && LateKey(checks, parents, t, rows, s, i)) ==>
          exists i :: 0 <= i < |rest| && LateKey(checks, parents, t1, rest, s, i) by {
          if i :| 0 <= i < |rows| && LateKey(checks, parents, t, rows, s, i) {
            assert LateKey(checks, parents, t1, rest, s, i - 1);
          }
        }
        assert (exists i :: 0 <= i < |rest| && LateKey(checks, parents, t1, rest, s, i)) ==>
          exists i :: 0 <= i < |rows| && LateKey(checks, parents, t, rows, s, i) by {
          if i :| 0 <= i < |rest| && LateKey(checks, parents, t1, rest, s, i) {
            assert LateKey(checks, parents, t, rows, s, i + 1);
          }
        }
      }
    }
  }

  /** A row that is stored if its key is absent. */
  predicate Storable<K, V>(checks: Row<K, V> -> bool, parents: Row<K, V> -> bool, r: Row<K, V>) {
    checks(r) && parents(r)
  }

  ghost predicate StoredBefore<K, V>(
      checks: Row<K, V> -> bool, parents: Row<K, V> -> bool, t: map<K, V>, rows: seq<Row<K, V>>, n: nat, k: K)
    requires n <= |rows|
  {
    k in t || exists h :: 0 <= h < n && rows[h].key == k && Storable(checks, parents, rows[h])
  }

  lemma {:induction false} InsertHas<K, V>(
      checks: Row<K, V> -> bool, parents: Row<K, V> -> bool, t: map<K, V>, rows: seq<Row<K, V>>, n: nat, k: K)
    requires n <= |rows|
    ensures k in SkipTable(Insert(checks, parents), t, rows[..n]) <==> StoredBefore(checks, parents, t, rows, n, k)
    decreases n
  {
    var e := Insert(checks, parents);
    if n == 0 {
      assert rows[..0] == [];
    } else {
      InsertHas(checks, parents, t, rows, n - 1, k);
      assert rows[..n] == rows[..n - 1] + [rows[n - 1]];
      SkipConcat(e, t, rows[..n - 1], [rows[n - 1]]);
      assert [rows[n - 1]][1..] == [];
    }
  }

  /** Row `i` lacks its parent, and its key is absent up to there and stored by a later row before the cut. */
  ghost predicate LateRow<K, V>(
      checks: Row<K, V> -> bool, parents: Row<K, V> -> bool, t: map<K, V>, rows: seq<Row<K, V>>, p: nat, i: nat)
    requires i < p <= |rows|
  {
    && checks(rows[i]) && !parents(rows[i])
    && !StoredBefore(checks, parents, t, rows, i, rows[i].key)
    && exists h :: i < h < p && rows[h].key == rows[i].key && Storable(checks, parents, rows[h])
  }

  lemma LateRowIsLateKey<K, V>(
      checks: Row<K, V> -> bool, parents: Row<K, V> -> bool, t: map<K, V>, rows: seq<Row<K, V>>, p: nat, i: nat)
    requires i < p <= |rows|
    ensures LateKey(checks, parents, t, rows[..p], SkipTable(Insert(checks, parents), t, rows[..p]), i) <==>
            LateRow(checks, parents, t, rows, p, i)
  {
    assert rows[..p][..i] == rows[..i] && rows[..p][i] == rows[i];
    InsertHas(checks, parents, t, rows, i, rows[i].key);
    InsertHas(checks, parents, t, rows, p, rows[i].key);
  }

  /**
   A batch INSERT that is written again after a lost connection ends in the table of an
   uninterrupted run, whatever rows the first attempt got through.  The rows it returns are
   those of the uninterrupted run exactly if no row rejected for its parent has a key that a
   later row before the cut stores.
   */
  lemma InsertResumes<K, V>(
      checks: Row<K, V> -> bool, parents: Row<K, V> -> bool, t: map<K, V>, rows: seq<Row<K, V>>, p: nat)
    requires p <= |rows|
    ensures var e := Insert(checks, parents);
            var s := SkipTable(e, t, rows[..p]);
            && SkipTable(e, s, rows) == SkipTable(e, t, rows)
            && (Skipped(e, s, rows) == Skipped(e, t, rows) <==>
                !exists i :: 0 <= i < p && LateRow(checks, parents, t, rows, p, i))
  {
    var e := Insert(checks, parents);
    var s := SkipTable(e, t, rows[..p]);
    assert rows[..p] + rows[p..] == rows;
    SkipConcat(e, t, rows[..p], rows[p..]);
    SkipConcat(e, s, rows[..p], rows[p..]);
    InsertAgain(checks, parents, t, rows[..p], s);
    var tail, a, b := Skipped(e, s, rows[p..]), Skipped(e, s, rows[..p]), Skipped(e, t, rows[..p]);
    assert a + tail == b + tail ==> |a| == |b| && a == (a + tail)[..|a|] && b == (b + tail)[..|b|];
    forall i | 0 <= i < p
      ensures LateKey(checks, parents, t, rows[..p], s, i) <==> LateRow(checks, parents, t, rows, p, i)
    {
      LateRowIsLateKey(checks, parents, t, rows, p, i);
    }
  }

  /** That side is reached, in every table without the key, by a row without parent before one with. */
  lemma LateRowReturnsLess<K, V>(
      checks: Row<K, V> -> bool, parents: Row<K, V> -> bool, t: map<K, V>, orphan: Row<K, V>, other: Row<K, V>,
      rest: seq<Row<K, V>>)
    requires orphan.key == other.key && orphan.key !in t
    requires checks(orphan) && !parents(orphan) && Storable(checks, parents, other)
    ensures var e, rows := Insert(checks, parents), [orphan, other] + rest;
            Skipped(e, SkipTable(e, t, rows[..2]), rows) != Skipped(e, t, rows)
  {
    var rows := [orphan, other] + rest;
    InsertResumes(checks, parents, t, rows, 2);
    assert rows[0] == orphan && rows[1] == other;
    assert LateRow(checks, parents, t, rows, 2, 0);
  }

  /** With distinct keys the returned rows are the same, too. */
  lemma InsertResumesDistinct<K, V>(
      checks: Row<K, V> -> bool, parents: Row<K, V> -> bool, t: map<K, V>, rows: seq<Row<K, V>>, p: nat)
    requires p <= |rows| && DistinctKeys(rows)
    ensures var e := Insert(checks, parents);
            Skipped(e, SkipTable(e, t, rows[..p]), rows) == Skipped(e, t, rows)
  {
    InsertResumes(checks, parents, t, rows, p);
  }

  /******* UPDATE ... FROM (VALUES ...) *******/

  /** A stored row: the columns a statement leaves alone and the columns it sets. */
  datatype Stored<+F, +C> = Stored(fixed: F, columns: C)

  /**
   A row whose values do not even convert is rejected; a row without a counterpart changes
   nothing; `checks` are the constraints on the new values.
   */
  function Update<K(==), F, C>(converts: Row<K, C> -> bool, checks: Row<K, C> -> bool)
    : (map<K, Stored<F, C>>, Row<K, C>) -> Option<map<K, Stored<F, C>>>
  {
    (t: map<K, Stored<F, C>>, r: Row<K, C>) =>
      if !converts(r) then None
      else if r.key !in t then Some(t)
      else if !checks(r) then None
      else Some(t[r.key := Stored(t[r.key].fixed, r.value)])
  }

  /** With distinct keys, the row-by-row fold is the set-oriented meaning of the statement. */
  lemma {:induction false} UpdateIsSetOriented<K, F, C>(
      converts: Row<K, C> -> bool, checks: Row<K, C> -> bool,
      t: map<K, Stored<F, C>>, rows: seq<Row<K, C>>, u: map<K, Stored<F, C>>)
    requires DistinctKeys(rows)
    requires Fold(Update<K, F, C>(converts, checks), t, rows) == Some(u)
    ensures u.Keys == t.Keys
    ensures forall i :: 0 <= i < |rows| && rows[i].key in t ==>
              u[rows[i].key] == Stored(t[rows[i].key].fixed, rows[i].value)
    ensures forall k :: k in t && (forall i :: 0 <= i < |rows| ==> rows[i].key != k) ==> u[k] == t[k]
  {
    if rows != [] {
      var t1, rest := Update<K, F, C>(converts, checks)(t, rows[0]).value, rows[1..];
      UpdateIsSetOriented(converts, checks, t1, rest, u);
      assert forall i :: 0 <= i < |rest| ==> rest[i] == rows[i + 1];
      if rows[0].key in t {
        assert forall i :: 0 <= i < |rest| ==> rest[i].key != rows[0].key;
      }
      forall i | 0 <= i < |rows| && rows[i].key in t
        ensures u[rows[i].key] == Stored(t[rows[i].key].fixed, rows[i].value)
      {
        if i > 0 {
          assert rest[i - 1] == rows[i];
        }
      }
    }
  }

  /** The keys whose columns some row of the list really sets. */
  function Written<K(==), C>(
      converts: Row<K, C> -> bool, checks: Row<K, C> -> bool, keys: set<K>, rows: seq<Row<K, C>>): set<K>
  {
    if rows == [] then {}
    else
      (if converts(rows[0]) && rows[0].key in keys && checks(rows[0]) then {rows[0].key} else {}) +
      Written(converts, checks, keys, rows[1..])
  }

  /** Two tables that differ only in the columns of keys in `w`. */
  ghost predicate AgreeOutside<K, F, C>(t: map<K, Stored<F, C>>, s: map<K, Stored<F, C>>, w: set<K>) {
    && t.Keys == s.Keys
    && forall k :: k in t ==> t[k].fixed == s[k].fixed && (k !in w ==> t[k].columns == s[k].columns)
  }

  lemma {:induction false} WrittenConcat<K, C>(
      converts: Row<K, C> -> bool, checks: Row<K, C> -> bool, keys: set<K>, a: seq<Row<K, C>>, b: seq<Row<K, C>>)
    ensures Written(converts, checks, keys, a + b) ==
            Written(converts, checks, keys, a) + Written(converts, checks, keys, b)
  {
    if a == [] {
      assert a + b == b;
    } else {
      assert (a + b)[1..] == a[1..] + b;
      WrittenConcat(converts, checks, keys, a[1..], b);
    }
  }

  lemma {:induction false} UpdateChangesOnlyWritten<K, F, C>(
      converts: Row<K, C> -> bool, checks: Row<K, C> -> bool, t: map<K, Stored<F, C>>, rows: seq<Row<K, C>>)
    ensures AgreeOutside(t, SkipTable(Update(converts, checks), t, rows), Written(converts, checks, t.Keys, rows))
  {
    if rows != [] {
      var t1 := Try(Update(converts, checks), t, rows[0]);
      assert t1.Keys == t.Keys;
      UpdateChangesOnlyWritten(converts, checks, t1, rows[1..]);
    }
  }

  lemma {:induction false} UpdateConverges<K, F, C>(
      converts: Row<K, C> -> bool, checks: Row<K, C> -> bool,
      t: map<K, Stored<F, C>>, s: map<K, Stored<F, C>>, w: set<K>, rows: seq<Row<K, C>>)
    requires AgreeOutside(t, s, w) && w <= Written(converts, checks, t.Keys, rows)
    ensures SkipTable(Update(converts, checks), t, rows) == SkipTable(Update(converts, checks), s, rows)
    ensures Skipped(Update(converts, checks), t, rows) == Skipped(Update(converts, checks), s, rows)
  {
    if rows == [] {
      assert t == s;
    } else {
      var e := Update<K, F, C>(converts, checks);
      var t1, s1, w1 := Try(e, t, rows[0]), Try(e, s, rows[0]), w - Written(converts, checks, t.Keys, rows[..1]);
      assert rows[..1] + rows[1..] == rows;
      WrittenConcat(converts, checks, t.Keys, rows[..1], rows[1..]);
      assert rows[..1][1..] == [];
      assert t1.Keys == t.Keys && AgreeOutside(t1, s1, w1);
      UpdateConverges(converts, checks, t1, s1, w1, rows[1..]);
    }
  }

  /** A batch UPDATE written again after a lost connection: same table, same returned rows. */
  lemma UpdateResumes<K, F, C>(
      converts: Row<K, C> -> bool, checks: Row<K, C> -> bool,
      t: map<K, Stored<F, C>>, rows: seq<Row<K, C>>, p: nat)
    requires p <= |rows|
    ensures var e := Update<K, F, C>(converts, checks);
            var s := SkipTable(e, t, rows[..p]);
            SkipTable(e, s, rows) == SkipTable(e, t, rows) && Skipped(e, s, rows) == Skipped(e, t, rows)
  {
    var e := Update<K, F, C>(converts, checks);
    var s, w := SkipTable(e, t, rows[..p]), Written(converts, checks, t.Keys, rows[..p]);
    assert rows[..p] + rows[p..] == rows;
    UpdateChangesOnlyWritten(converts, checks, t, rows[..p]);
    WrittenConcat(converts, checks, t.Keys, rows[..p], rows[p..]);
    UpdateConverges(converts, checks, t, s, w, rows);
  }

  /******* Any number of interrupted attempts *******/

  /** The table after attempts that were cut off behind `cuts[0]`, `cuts[1]`, ... rows. */
  function AfterAttempts<T, R>(apply: (T, R) -> Option<T>, t: T, rows: seq<R>, cuts: seq<nat>): T
    requires forall i :: 0 <= i < |cuts| ==> cuts[i] <= |rows|
  {
    if cuts == [] then t
    else AfterAttempts(apply, SkipTable(apply, t, rows[..cuts[0]]), rows, cuts[1..])
  }

  /** However often a batch INSERT was cut off, one complete run ends where a first one would have. */
  lemma {:induction false} InsertAttemptsConverge<K, V>(
      checks: Row<K, V> -> bool, parents: Row<K, V> -> bool, t: map<K, V>, rows: seq<Row<K, V>>, cuts: seq<nat>)
    requires forall i :: 0 <= i < |cuts| ==> cuts[i] <= |rows|
    ensures var e := Insert(checks, parents);
            SkipTable(e, AfterAttempts(e, t, rows, cuts), rows) == SkipTable(e, t, rows)
    decreases cuts
  {
    if cuts != [] {
      var s := SkipTable(Insert(checks, parents), t, rows[..cuts[0]]);
      InsertResumes(checks, parents, t, rows, cuts[0]);
      InsertAttemptsConverge(checks, parents, s, rows, cuts[1..]);
    }
  }

  lemma {:induction false} UpdateAttemptsConverge<K, F, C>(
      converts: Row<K, C> -> bool, checks: Row<K, C> -> bool,
      t: map<K, Stored<F, C>>, rows: seq<Row<K, C>>, cuts: seq<nat>)
    requires forall i :: 0 <= i < |cuts| ==> cuts[i] <= |rows|
    ensures var e := Update<K, F, C>(converts, checks);
            && SkipTable(e, AfterAttempts(e, t, rows, cuts), rows) == SkipTable(e, t, rows)
            && Skipped(e, AfterAttempts(e, t, rows, cuts), rows) == Skipped(e, t, rows)
    decreases cuts
  {
    if cuts != [] {
      var s := SkipTable(Update<K, F, C>(converts, checks), t, rows[..cuts[0]]);
      UpdateResumes(converts, checks, t, rows, cuts[0]);
      UpdateAttemptsConverge(converts, checks, s, rows, cuts[1..]);
    }
  }

  /** Two runs of the bulk writer: one that lost its connection, and a complete one behind it. */
  lemma RerunInsert<K(!new), V(!new)>(
      checks: Row<K, V> -> bool, parents: Row<K, V> -> bool, t: map<K, V>, rows: seq<Row<K, V>>,
      s: map<K, V>, u: map<K, V>, failed: seq<Row<K, V>>)
    requires Wrote(Insert(checks, parents), t, rows, s, [], true)
    requires Wrote(Insert(checks, parents), s, rows, u, failed, false)
    ensures u == SkipTable(Insert(checks, parents), t, rows)
    ensures DistinctKeys(rows) ==> failed == Skipped(Insert(checks, parents), t, rows)
  {
    var p: nat :| p <= |rows| && s == SkipTable(Insert(checks, parents), t, rows[..p]);
    InsertResumes(checks, parents, t, rows, p);
    if DistinctKeys(rows) {
      InsertResumesDistinct(checks, parents, t, rows, p);
    }
  }

  lemma RerunUpdate<K(!new), F(!new), C(!new)>(
      converts: Row<K, C> -> bool, checks: Row<K, C> -> bool, t: map<K, Stored<F, C>>, rows: seq<Row<K, C>>,
      s: map<K, Stored<F, C>>, u: map<K, Stored<F, C>>, failed: seq<Row<K, C>>)
    requires Wrote(Update(converts, checks), t, rows, s, [], true)
    requires Wrote(Update(converts, checks), s, rows, u, failed, false)
    ensures u == SkipTable(Update(converts, checks), t, rows)
    ensures failed == Skipped(Update(converts, checks), t, rows)
  {
    var p: nat :| p <= |rows| && s == SkipTable(Update(converts, checks), t, rows[..p]);
    UpdateResumes(converts, checks, t, rows, p);
  }

  /******* INSERT INTO users ... ON CONFLICT (id) DO UPDATE *******/

  /** Another key holds the row's e-mail. */
  predicate Taken<K(==), V, E(==)>(mail: V -> E, t: map<K, V>, r: Row<K, V>) {
    exists k :: k in t && k != r.key && mail(t[k]) == mail(r.value)
  }

  /** An upsert by id under a unique e-mail, `mail` of the value. */
  function Upsert<K(==), V, E(==)>(checks: Row<K, V> -> bool, mail: V -> E)
    : (map<K, V>, Row<K, V>) -> Option<map<K, V>>
  {
    (t: map<K, V>, r: Row<K, V>) =>
      if !checks(r) || Taken(mail, t, r) then None else Some(t[r.key := r.value])
  }

  /** Every two users of the table have different e-mails. */
  ghost predicate UniqueMails<K, V, E>(mail: V -> E, t: map<K, V>) {
    forall k, l :: k in t && l in t && k != l ==> mail(t[k]) != mail(t[l])
  }

  /** Upserts keep e-mails unique and leave other users alone. */
  lemma {:induction false} UpsertKeeps<K, V, E>(
      checks: Row<K, V> -> bool, mail: V -> E, t: map<K, V>, rows: seq<Row<K, V>>)
    requires UniqueMails(mail, t)
    ensures UniqueMails(mail, SkipTable(Upsert(checks, mail), t, rows))
    ensures forall k :: k in t && (forall i :: 0 <= i < |rows| ==> rows[i].key != k) ==>
              && k in SkipTable(Upsert(checks, mail), t, rows)
              && SkipTable(Upsert(checks, mail), t, rows)[k] == t[k]
    decreases rows
  {
    if rows != [] {
      var t1 := Try(Upsert(checks, mail), t, rows[0]);
      assert UniqueMails(mail, t1);
      UpsertKeeps(checks, mail, t1, rows[1..]);
      forall k | k in t && (forall i :: 0 <= i < |rows| ==> rows[i].key != k)
        ensures k in SkipTable(Upsert(checks, mail), t, rows) && SkipTable(Upsert(checks, mail), t, rows)[k] == t[k]
      {
        assert rows[0].key != k && k in t1 && t1[k] == t[k];
        assert forall i :: 0 <= i < |rows[1..]| ==> rows[1..][i] == rows[i + 1];
      }
    }
  }

  /** What the rows of a list write, later rows over earlier ones. */
  function Over<K(==), V>(rows: seq<Row<K, V>>): map<K, V> {
    if rows == [] then map[] else map[rows[0].key := rows[0].value] + Over(rows[1..])
  }

  lemma {:induction false} OverAdd<K, V>(rows: seq<Row<K, V>>, r: Row<K, V>)
    ensures Over(rows + [r]) == Over(rows)[r.key := r.value]
    decreases rows
  {
    if rows == [] {
      assert rows + [r] == [r] && [r][1..] == rows;
    } else {
      assert (rows + [r])[1..] == rows[1..] + [r] && (rows + [r])[0] == rows[0];
      OverAdd(rows[1..], r);
    }
  }

  /** A value written is that of the last row of its key. */
  lemma {:induction false} OverIsLast<K, V>(rows: seq<Row<K, V>>, k: K)
    ensures k in Over(rows) <==> exists i :: 0 <= i < |rows| && rows[i].key == k
    ensures k in Over(rows) ==>
              exists i :: 0 <= i < |rows| && rows[i].key == k && Over(rows)[k] == rows[i].value &&
                          forall j :: i < j < |rows| ==> rows[j].key != k
    decreases |rows|
  {
    if rows != [] {
      var front, r := rows[..|rows| - 1], rows[|rows| - 1];
      assert rows == front + [r];
      OverAdd(front, r);
      OverIsLast(front, k);
      assert forall i :: 0 <= i < |front| ==> rows[i] == front[i];
      if k == r.key {
        assert rows[|rows| - 1].key == k;
      } else if k in Over(front) {
        var i :| 0 <= i < |front| && front[i].key == k && Over(front)[k] == front[i].value &&
                 forall j :: i < j < |front| ==> front[j].key != k;
        assert rows[i].key == k && Over(rows)[k] == rows[i].value;
      }
    }
  }

  /** The rows that are accepted one at a time, in order. */
  function Accepted<T, R>(apply: (T, R) -> Option<T>, t: T, rows: seq<R>): seq<R> {
    if rows == [] then []
    else (if apply(t, rows[0]).Some? then [rows[0]] else []) + Accepted(apply, Try(apply, t, rows[0]), rows[1..])
  }

  /** Whether row `i` is rejected when the rows are taken one at a time. */
  predicate RejectedAt<T, R>(apply: (T, R) -> Option<T>, t: T, rows: seq<R>, i: nat)
    requires i < |rows|
  {
    apply(SkipTable(apply, t, rows[..i]), rows[i]).None?
  }

  lemma {:induction false} AcceptedConcat<T, R>(apply: (T, R) -> Option<T>, t: T, a: seq<R>, b: seq<R>)
    ensures Accepted(apply, t, a + b) == Accepted(apply, t, a) + Accepted(apply, SkipTable(apply, t, a), b)
    decreases a
  {
    if a == [] {
      assert a + b == b;
    } else {
      assert (a + b)[1..] == a[1..] + b;
      AcceptedConcat(apply, Try(apply, t, a[0]), a[1..], b);
    }
  }

  /** One row more. */
  lemma TakenOneMore<T, R>(apply: (T, R) -> Option<T>, t: T, rows: seq<R>, i: nat)
    requires i < |rows|
    ensures var u := SkipTable(apply, t, rows[..i]);
            && SkipTable(apply, t, rows[..i + 1]) == Try(apply, u, rows[i])
            && Skipped(apply, t, rows[..i + 1]) ==
               Skipped(apply, t, rows[..i]) + (if RejectedAt(apply, t, rows, i) then [rows[i]] else [])
            && Accepted(apply, t, rows[..i + 1]) ==
               Accepted(apply, t, rows[..i]) + (if RejectedAt(apply, t, rows, i) then [] else [rows[i]])
  {
    assert rows[..i + 1] == rows[..i] + [rows[i]];
    SkipConcat(apply, t, rows[..i], [rows[i]]);
    AcceptedConcat(apply, t, rows[..i], [rows[i]]);
    assert [rows[i]][1..] == [];
  }

  lemma OverFront<K, V>(t: map<K, V>, r: Row<K, V>, rest: seq<Row<K, V>>)
    ensures t[r.key := r.value] + Over(rest) == t + Over([r] + rest)
  {
    assert ([r] + rest)[1..] == rest;
    assert t[r.key := r.value] + Over(rest) == t + (map[r.key := r.value] + Over(rest));
  }

  /** One row at a time, an upserted table is what it was under what the accepted rows write. */
  lemma {:induction false} UpsertIsOver<K, V, E>(
      checks: Row<K, V> -> bool, mail: V -> E, t: map<K, V>, rows: seq<Row<K, V>>)
    ensures SkipTable(Upsert(checks, mail), t, rows) == t + Over(Accepted(Upsert(checks, mail), t, rows))
    decreases rows
  {
    if rows != [] {
      var e := Upsert(checks, mail);
      var t1 := Try(e, t, rows[0]);
      UpsertIsOver(checks, mail, t1, rows[1..]);
      var rest := Accepted(e, t1, rows[1..]);
      OverFront(t, rows[0], rest);
      assert [] + rest == rest;
    }
  }

  lemma {:induction false} SkippedAreRejected<T, R>(apply: (T, R) -> Option<T>, t: T, rows: seq<R>, r: R)
    ensures r in Skipped(apply, t, rows) <==>
            exists i :: 0 <= i < |rows| && rows[i] == r && RejectedAt(apply, t, rows, i)
    decreases |rows|
  {
    if rows != [] {
      var n := |rows| - 1;
      TakenOneMore(apply, t, rows, n);
      assert rows[..n + 1] == rows;
      SkippedAreRejected(apply, t, rows[..n], r);
      forall i | 0 <= i < n ensures RejectedAt(apply, t, rows[..n], i) <==> RejectedAt(apply, t, rows, i) {
        assert rows[..n][..i] == rows[..i];
      }
      assert forall i :: 0 <= i < n ==> rows[..n][i] == rows[i];
    }
  }

  lemma {:induction false} AcceptedAreNotRejected<T, R>(apply: (T, R) -> Option<T>, t: T, rows: seq<R>, r: R)
    ensures r in Accepted(apply, t, rows) <==>
            exists i :: 0 <= i < |rows| && rows[i] == r && !RejectedAt(apply, t, rows, i)
    decreases |rows|
  {
    if rows != [] {
      var n := |rows| - 1;
      TakenOneMore(apply, t, rows, n);
      assert rows[..n + 1] == rows;
      AcceptedAreNotRejected(apply, t, rows[..n], r);
      forall i | 0 <= i < n ensures RejectedAt(apply, t, rows[..n], i) <==> RejectedAt(apply, t, rows, i) {
        assert rows[..n][..i] == rows[..i];
      }
      assert forall i :: 0 <= i < n ==> rows[..n][i] == rows[i];
    }
  }

  /******* When a user batch resumes *******/

  /** Rows of one id carry one e-mail; in particular lists of distinct ids do. */
  ghost predicate OneMail<K, V, E>(mail: V -> E, rows: seq<Row<K, V>>) {
    forall i, j :: 0 <= i < |rows| && 0 <= j < |rows| && rows[i].key == rows[j].key ==>
      mail(rows[i].value) == mail(rows[j].value)
  }

  ghost predicate SameMails<K, V, E>(mail: V -> E, t: map<K, V>, s: map<K, V>) {
    t.Keys == s.Keys && forall k :: k in t ==> mail(t[k]) == mail(s[k])
  }

  /** Every row that the first attempt rejected before it was cut off is rejected by the table it left. */
  ghost predicate StillRejected<K, V, E>(
      checks: Row<K, V> -> bool, mail: V -> E, t: map<K, V>, rows: seq<Row<K, V>>, n: nat, s: map<K, V>)
    requires n <= |rows|
  {
    forall i :: 0 <= i < n && RejectedAt(Upsert(checks, mail), t, rows, i) ==> Upsert(checks, mail)(s, rows[i]).None?
  }

  /** An id that was accepted has its row's e-mail in the table that is left, so it is accepted there. */
  lemma AcceptedAgain<K, V, E>(
      checks: Row<K, V> -> bool, mail: V -> E, t: map<K, V>, rows: seq<Row<K, V>>, p: nat, i: nat)
    requires OneMail(mail, rows) && UniqueMails(mail, t) && i < p <= |rows|
    requires !RejectedAt(Upsert(checks, mail), t, rows, i)
    ensures var s := SkipTable(Upsert(checks, mail), t, rows[..p]);
            && rows[i].key in s && mail(s[rows[i].key]) == mail(rows[i].value)
            && Upsert(checks, mail)(s, rows[i]).Some?
  {
    var e := Upsert(checks, mail);
    var front := rows[..p];
    var accepted := Accepted(e, t, front);
    assert front[..i] == rows[..i] && front[i] == rows[i];
    UpsertKeeps(checks, mail, t, front);
    UpsertIsOver(checks, mail, t, front);
    AcceptedAreNotRejected(e, t, front, rows[i]);
    OverIsLast(accepted, rows[i].key);
    var a :| 0 <= a < |accepted| && accepted[a] == rows[i];
    var l :| 0 <= l < |accepted| && accepted[l].key == rows[i].key && Over(accepted)[rows[i].key] == accepted[l].value;
    AcceptedAreNotRejected(e, t, front, accepted[l]);
    var j :| 0 <= j < |front| && front[j] == accepted[l];
    assert rows[j] == accepted[l];
  }

  /**
   What the first attempt accepted in front of a row, written over the table that is left, decides
   the row as the first attempt did.
   */
  ghost predicate Foretold<K, V, E>(
      checks: Row<K, V> -> bool, mail: V -> E, t: map<K, V>, rows: seq<Row<K, V>>, n: nat, s: map<K, V>)
    requires n <= |rows|
  {
    forall i :: 0 <= i < n ==>
      (ForetoldRejected(checks, mail, t, rows, i, s) <==> RejectedAt(Upsert(checks, mail), t, rows, i))
  }

  ghost predicate ForetoldRejected<K, V, E>(
      checks: Row<K, V> -> bool, mail: V -> E, t: map<K, V>, rows: seq<Row<K, V>>, i: nat, s: map<K, V>)
    requires i < |rows|
  {
    Upsert(checks, mail)(s + Over(Accepted(Upsert(checks, mail), t, rows[..i])), rows[i]).None?
  }

  /** From `s` as from `t`, the same rows are rejected. */
  ghost predicate DecidedAlike<T, R>(apply: (T, R) -> Option<T>, t: T, s: T, rows: seq<R>, n: nat)
    requires n <= |rows|
  {
    forall i :: 0 <= i < n ==> (RejectedAt(apply, s, rows, i) <==> RejectedAt(apply, t, rows, i))
  }

  lemma {:induction false} AlikeAreEqual<T, R>(apply: (T, R) -> Option<T>, t: T, s: T, rows: seq<R>, n: nat)
    requires n <= |rows| && DecidedAlike(apply, t, s, rows, n)
    ensures Accepted(apply, s, rows[..n]) == Accepted(apply, t, rows[..n])
    ensures Skipped(apply, s, rows[..n]) == Skipped(apply, t, rows[..n])
    decreases n
  {
    if n == 0 {
      assert rows[..0] == [];
    } else {
      AlikeAreEqual(apply, t, s, rows, n - 1);
      TakenOneMore(apply, s, rows, n - 1);
      TakenOneMore(apply, t, rows, n - 1);
    }
  }

  /** The second attempt decides all rows before the cut as the first did, if and only if that is foretold. */
  lemma {:induction false} ForetoldIff<K, V, E>(
      checks: Row<K, V> -> bool, mail: V -> E, t: map<K, V>, rows: seq<Row<K, V>>, n: nat, s: map<K, V>)
    requires n <= |rows|
    ensures DecidedAlike(Upsert(checks, mail), t, s, rows, n) <==> Foretold(checks, mail, t, rows, n, s)
    decreases n
  {
    if n > 0 {
      var m := n - 1;
      ForetoldIff(checks, mail, t, rows, m, s);
      if DecidedAlike(Upsert(checks, mail), t, s, rows, m) {
        ForetoldRow(checks, mail, t, rows, m, s);
        assert DecidedAlike(Upsert(checks, mail), t, s, rows, n) <==>
               (RejectedAt(Upsert(checks, mail), s, rows, m) <==> RejectedAt(Upsert(checks, mail), t, rows, m));
      }
    }
  }

  lemma ForetoldRow<K, V, E>(
      checks: Row<K, V> -> bool, mail: V -> E, t: map<K, V>, rows: seq<Row<K, V>>, i: nat, s: map<K, V>)
    requires i < |rows| && DecidedAlike(Upsert(checks, mail), t, s, rows, i)
    ensures RejectedAt(Upsert(checks, mail), s, rows, i) <==> ForetoldRejected(checks, mail, t, rows, i, s)
  {
    AlikeAreEqual(Upsert(checks, mail), t, s, rows, i);
    UpsertIsOver(checks, mail, s, rows[..i]);
  }

  /** Whether a row is accepted depends on the e-mails only. */
  lemma SameMailsDecide<K, V, E>(
      checks: Row<K, V> -> bool, mail: V -> E, u: map<K, V>, s: map<K, V>, r: Row<K, V>)
    requires SameMails(mail, u, s)
    ensures Upsert(checks, mail)(u, r).None? <==> Upsert(checks, mail)(s, r).None?
  {
    if Taken(mail, u, r) {
      var k :| k in u && k != r.key && mail(u[k]) == mail(r.value);
      assert k in s && mail(s[k]) == mail(r.value);
    }
    if Taken(mail, s, r) {
      var k :| k in s && k != r.key && mail(s[k]) == mail(r.value);
      assert k in u && mail(u[k]) == mail(r.value);
    }
  }

  lemma OverKeepsMails<K, V, E>(
      checks: Row<K, V> -> bool, mail: V -> E, t: map<K, V>, rows: seq<Row<K, V>>, p: nat, i: nat)
    requires OneMail(mail, rows) && UniqueMails(mail, t) && i <= p <= |rows|
    ensures var e := Upsert(checks, mail);
            var s := SkipTable(e, t, rows[..p]);
            SameMails(mail, s + Over(Accepted(e, t, rows[..i])), s)
  {
    var e := Upsert(checks, mail);
    var s := SkipTable(e, t, rows[..p]);
    var accepted := Accepted(e, t, rows[..i]);
    forall k | k in Over(accepted) ensures k in s && mail(Over(accepted)[k]) == mail(s[k]) {
      OverIsLast(accepted, k);
      var a :| 0 <= a < |accepted| && accepted[a].key == k && Over(accepted)[k] == accepted[a].value;
      AcceptedAreNotRejected(e, t, rows[..i], accepted[a]);
      var j :| 0 <= j < i && rows[..i][j] == accepted[a] && !RejectedAt(e, t, rows[..i], j);
      assert rows[..i][..j] == rows[..j];
      AcceptedAgain(checks, mail, t, rows, p, j);
    }
  }

  /** With one e-mail for each id, the rejected rows alone decide. */
  lemma OneMailForetold<K, V, E>(
      checks: Row<K, V> -> bool, mail: V -> E, t: map<K, V>, rows: seq<Row<K, V>>, p: nat, n: nat)
    requires OneMail(mail, rows) && UniqueMails(mail, t) && n <= p <= |rows|
    ensures var s := SkipTable(Upsert(checks, mail), t, rows[..p]);
            Foretold(checks, mail, t, rows, n, s) <==> StillRejected(checks, mail, t, rows, n, s)
  {
    var e := Upsert(checks, mail);
    var s := SkipTable(e, t, rows[..p]);
    forall i | 0 <= i < n
      ensures ForetoldRejected(checks, mail, t, rows, i, s) <==> e(s, rows[i]).None?
      ensures !RejectedAt(e, t, rows, i) ==> e(s, rows[i]).Some?
    {
      OverKeepsMails(checks, mail, t, rows, p, i);
      SameMailsDecide(checks, mail, s + Over(Accepted(e, t, rows[..i])), s, rows[i]);
      if !RejectedAt(e, t, rows, i) {
        AcceptedAgain(checks, mail, t, rows, p, i);
      }
    }
  }

  /** Once a row is accepted, every equal row behind it is. */
  lemma {:induction false} HoldsMail<K, V, E>(
      checks: Row<K, V> -> bool, mail: V -> E, s: map<K, V>, rows: seq<Row<K, V>>, i: nat, j: nat)
    requires OneMail(mail, rows) && UniqueMails(mail, s) && i < j <= |rows|
    requires !RejectedAt(Upsert(checks, mail), s, rows, i)
    ensures var u := SkipTable(Upsert(checks, mail), s, rows[..j]);
            rows[i].key in u && mail(u[rows[i].key]) == mail(rows[i].value)
    ensures j < |rows| && rows[j] == rows[i] ==> !RejectedAt(Upsert(checks, mail), s, rows, j)
    decreases j
  {
    var e := Upsert(checks, mail);
    TakenOneMore(e, s, rows, j - 1);
    if j - 1 > i {
      HoldsMail(checks, mail, s, rows, i, j - 1);
    }
    UpsertKeeps(checks, mail, s, rows[..j]);
  }

  /** A row that is rejected first and accepted by the table that is left is missing in the second list. */
  lemma NoLongerReturned<K, V, E>(
      checks: Row<K, V> -> bool, mail: V -> E, t: map<K, V>, rows: seq<Row<K, V>>, p: nat, i: nat)
    requires OneMail(mail, rows) && UniqueMails(mail, t) && i < p <= |rows|
    requires var s := SkipTable(Upsert(checks, mail), t, rows[..p]);
             && StillRejected(checks, mail, t, rows, i, s)
             && RejectedAt(Upsert(checks, mail), t, rows, i) && Upsert(checks, mail)(s, rows[i]).Some?
    ensures var e := Upsert(checks, mail);
            rows[i] in Skipped(e, t, rows) && rows[i] !in Skipped(e, SkipTable(e, t, rows[..p]), rows)
  {
    var e := Upsert(checks, mail);
    var s := SkipTable(e, t, rows[..p]);
    UpsertKeeps(checks, mail, t, rows[..p]);
    AcceptedNow(checks, mail, t, rows, p, i);
    forall j | 0 <= j < |rows| && rows[j] == rows[i] ensures !RejectedAt(e, s, rows, j) {
      if j > i {
        HoldsMail(checks, mail, s, rows, i, j);
      }
    }
    SkippedAreRejected(e, s, rows, rows[i]);
    SkippedAreRejected(e, t, rows, rows[i]);
  }

  /** The second attempt accepts such a row, and every equal row in front of it. */
  lemma AcceptedNow<K, V, E>(
      checks: Row<K, V> -> bool, mail: V -> E, t: map<K, V>, rows: seq<Row<K, V>>, p: nat, i: nat)
    requires OneMail(mail, rows) && UniqueMails(mail, t) && i < p <= |rows|
    requires var s := SkipTable(Upsert(checks, mail), t, rows[..p]);
             StillRejected(checks, mail, t, rows, i, s) && Upsert(checks, mail)(s, rows[i]).Some?
    ensures var e := Upsert(checks, mail);
            forall j :: 0 <= j <= i && rows[j] == rows[i] ==> !RejectedAt(e, SkipTable(e, t, rows[..p]), rows, j)
  {
    var e := Upsert(checks, mail);
    var s := SkipTable(e, t, rows[..p]);
    OneMailForetold(checks, mail, t, rows, p, i);
    ForetoldIff(checks, mail, t, rows, i, s);
    AlikeAreEqual(e, t, s, rows, i);
    UpsertIsOver(checks, mail, s, rows[..i]);
    OverKeepsMails(checks, mail, t, rows, p, i);
    SameMailsDecide(checks, mail, SkipTable(e, s, rows[..i]), s, rows[i]);
  }

  ghost predicate Resumes<T, R>(apply: (T, R) -> Option<T>, t: T, s: T, rows: seq<R>) {
    SkipTable(apply, s, rows) == SkipTable(apply, t, rows) && Skipped(apply, s, rows) == Skipped(apply, t, rows)
  }

  /**
   A user batch that was cut off behind `p` rows is written again.  It decides every row before the
   cut as the first attempt did if and only if that is foretold by the table that is left, and
   then it ends in the same table and returns the same rows as one run.  If the rows of one id
   carry one e-mail, it does so if and only if every row that was rejected before the cut is
   rejected by the table that is left.
   */
  lemma UpsertResumes<K, V, E>(
      checks: Row<K, V> -> bool, mail: V -> E, t: map<K, V>, rows: seq<Row<K, V>>, p: nat)
    requires p <= |rows|
    ensures var e := Upsert(checks, mail);
            var s := SkipTable(e, t, rows[..p]);
            && (DecidedAlike(e, t, s, rows, p) <==> Foretold(checks, mail, t, rows, p, s))
            && (Foretold(checks, mail, t, rows, p, s) ==> Resumes(e, t, s, rows))
            && (OneMail(mail, rows) && UniqueMails(mail, t) ==>
                  (Resumes(e, t, s, rows) <==> StillRejected(checks, mail, t, rows, p, s)))
  {
    var s := SkipTable(Upsert(checks, mail), t, rows[..p]);
    ForetoldIff(checks, mail, t, rows, p, s);
    if Foretold(checks, mail, t, rows, p, s) {
      ForetoldResumes(checks, mail, t, rows, p);
    }
    if OneMail(mail, rows) && UniqueMails(mail, t) {
      OneMailForetold(checks, mail, t, rows, p, p);
      if !StillRejected(checks, mail, t, rows, p, s) {
        var i := FirstFreed(checks, mail, t, rows, p, s);
        NoLongerReturned(checks, mail, t, rows, p, i);
      }
    }
  }

  lemma ForetoldResumes<K, V, E>(
      checks: Row<K, V> -> bool, mail: V -> E, t: map<K, V>, rows: seq<Row<K, V>>, p: nat)
    requires p <= |rows|
    requires Foretold(checks, mail, t, rows, p, SkipTable(Upsert(checks, mail), t, rows[..p]))
    ensures var e := Upsert(checks, mail);
            Resumes(e, t, SkipTable(e, t, rows[..p]), rows)
  {
    var e := Upsert(checks, mail);
    var s := SkipTable(e, t, rows[..p]);
    ForetoldIff(checks, mail, t, rows, p, s);
    AlikeAreEqual(e, t, s, rows, p);
    UpsertIsOver(checks, mail, t, rows[..p]);
    UpsertIsOver(checks, mail, s, rows[..p]);
    assert SkipTable(e, s, rows[..p]) == s;
    assert rows[..p] + rows[p..] == rows;
    SkipConcat(e, t, rows[..p], rows[p..]);
    SkipConcat(e, s, rows[..p], rows[p..]);
  }

  lemma {:induction false} FirstFreed<K, V, E>(
      checks: Row<K, V> -> bool, mail: V -> E, t: map<K, V>, rows: seq<Row<K, V>>, n: nat, s: map<K, V>)
    returns (i: nat)
    requires n <= |rows| && !StillRejected(checks, mail, t, rows, n, s)
    ensures i < n && StillRejected(checks, mail, t, rows, i, s)
    ensures RejectedAt(Upsert(checks, mail), t, rows, i) && Upsert(checks, mail)(s, rows[i]).Some?
    decreases n
  {
    if StillRejected(checks, mail, t, rows, n - 1, s) {
      i := n - 1;
    } else {
      i := FirstFreed(checks, mail, t, rows, n - 1, s);
    }
  }

  /** Two runs of the bulk writer: one that lost its connection, and a complete one behind it. */
  lemma RerunUpsert<K(!new), V(!new), E(!new)>(
      checks: Row<K, V> -> bool, mail: V -> E, t: map<K, V>, rows: seq<Row<K, V>>,
      s: map<K, V>, u: map<K, V>, failed: seq<Row<K, V>>)
    requires Wrote(Upsert(checks, mail), t, rows, s, [], true)
    requires Wrote(Upsert(checks, mail), s, rows, u, failed, false)
    ensures var e := Upsert(checks, mail);
            && (exists p: nat :: p <= |rows| && s == SkipTable(e, t, rows[..p]))
            && forall p: nat :: p <= |rows| && s == SkipTable(e, t, rows[..p]) ==>
                 var same := u == SkipTable(e, t, rows) && failed == Skipped(e, t, rows);
                 && (Foretold(checks, mail, t, rows, p, s) ==> same)
                 && (OneMail(mail, rows) && UniqueMails(mail, t) ==>
                       (same <==> StillRejected(checks, mail, t, rows, p, s)))
  {
    var e := Upsert(checks, mail);
    forall p: nat | p <= |rows| && s == SkipTable(e, t, rows[..p])
      ensures Foretold(checks, mail, t, rows, p, s) ==> Resumes(e, t, s, rows)
      ensures OneMail(mail, rows) && UniqueMails(mail, t) ==>
                (Resumes(e, t, s, rows) <==> StillRejected(checks, mail, t, rows, p, s))
    {
      UpsertResumes(checks, mail, t, rows, p);
    }
  }

  /******* An e-mail handed over within the batch *******/

  /** One id gives an e-mail up, and another id takes it. */
  predicate Hands<K(==), V, E(==)>(
      checks: Row<K, V> -> bool, mail: V -> E, a: Row<K, V>, b: Row<K, V>, c: Row<K, V>)
  {
    && checks(a) && checks(b) && checks(c)
    && a.key == b.key != c.key && mail(a.value) == mail(c.value) != mail(b.value)
  }

  /** A table in which nobody has the two e-mails accepts the three rows, and then the first one no more. */
  lemma HandedOver<K, V, E>(
      checks: Row<K, V> -> bool, mail: V -> E, t: map<K, V>, a: Row<K, V>, b: Row<K, V>, c: Row<K, V>)
    requires Hands(checks, mail, a, b, c)
    requires forall k :: k in t ==> mail(t[k]) != mail(a.value) && mail(t[k]) != mail(b.value)
    ensures var e, s := Upsert(checks, mail), t[a.key := b.value][c.key := c.value];
            && Fold(e, t, [a, b, c]) == Some(s)
            && e(s, a).None? && e(s, b) == Some(s) && e(s, c) == Some(s)
  {
    var e, t1 := Upsert(checks, mail), t[a.key := a.value];
    var t2 := t1[b.key := b.value];
    var s := t2[c.key := c.value];
    var none: seq<Row<K, V>> := [];
    assert [a, b, c][1..] == [b, c] && [b, c][1..] == [c] && [c][1..] == none;
    assert e(t, a) == Some(t1) && e(t1, b) == Some(t2) && e(t2, c) == Some(s);
    assert Fold(e, t2, [c]) == Some(s) && Fold(e, t1, [b, c]) == Some(s);
    assert t2 == t[a.key := b.value] && s[b.key := b.value] == s && s[c.key := c.value] == s;
    assert c.key in s && mail(s[c.key]) == mail(a.value);
  }

  /**
   Rejected rows alone do not decide when an id recurs with another e-mail: nothing is rejected
   before the cut, and yet the second attempt returns the first row, which the first attempt wrote.
   */
  lemma HandedOverReturnsMore<K(!new), V(!new), E(!new)>(
      checks: Row<K, V> -> bool, mail: V -> E, t: map<K, V>,
      a: Row<K, V>, b: Row<K, V>, c: Row<K, V>, rest: seq<Row<K, V>>)
    requires Hands(checks, mail, a, b, c)
    requires forall k :: k in t ==> mail(t[k]) != mail(a.value) && mail(t[k]) != mail(b.value)
    ensures var e, rows := Upsert(checks, mail), [a, b, c] + rest;
            var s := SkipTable(e, t, rows[..3]);
            && Wrote(e, t, rows, s, [], true) && Skipped(e, t, rows[..3]) == []
            && Skipped(e, s, rows) == [a] + Skipped(e, t, rows)
  {
    var e, rows := Upsert(checks, mail), [a, b, c] + rest;
    var s := t[a.key := b.value][c.key := c.value];
    HandedOver(checks, mail, t, a, b, c);
    FoldMeetsSkip(e, t, [a, b, c]);
    assert rows[..3] == [a, b, c];
    SkipConcat(e, t, [a, b, c], rest);
    SkipConcat(e, s, [a, b, c], rest);
    FirstIsReturned(e, s, a, b, c);
  }

  lemma FirstIsReturned<T, R>(apply: (T, R) -> Option<T>, s: T, a: R, b: R, c: R)
    requires apply(s, a).None? && apply(s, b) == Some(s) && apply(s, c) == Some(s)
    ensures SkipTable(apply, s, [a, b, c]) == s && Skipped(apply, s, [a, b, c]) == [a]
  {
    var none: seq<R> := [];
    assert [a, b, c][1..] == [b, c] && [b, c][1..] == [c] && [c][1..] == none;
    assert SkipTable(apply, s, [c]) == s && Skipped(apply, s, [c]) == [];
    assert SkipTable(apply, s, [b, c]) == s && Skipped(apply, s, [b, c]) == [];
  }

  /** A cut that frees a rejected row's e-mail shows in the result of the second attempt. */
  lemma FreedMailShows<K(!new), V(!new), E(!new)>(
      checks: Row<K, V> -> bool, mail: V -> E, t: map<K, V>, rows: seq<Row<K, V>>, p: nat, i: nat)
    requires OneMail(mail, rows) && UniqueMails(mail, t) && i < p <= |rows|
    requires var e := Upsert(checks, mail);
             RejectedAt(e, t, rows, i) && e(SkipTable(e, t, rows[..p]), rows[i]).Some?
    ensures var e := Upsert(checks, mail);
            var s := SkipTable(e, t, rows[..p]);
            && Wrote(e, t, rows, s, [], true)
            && !(SkipTable(e, s, rows) == SkipTable(e, t, rows) && Skipped(e, s, rows) == Skipped(e, t, rows))
  {
    UpsertResumes(checks, mail, t, rows, p);
  }

  type MailRow = Row<nat, string>

  /** User 2 wants the e-mail of user 9, who gives it up in the next row; the third row is lost. */
  const FREED: seq<MailRow> := [Row(2, "a@x"), Row(9, "b@x"), Row(7, "c@x")]

  const ANY_ROW: MailRow -> bool := _ => true
  const WHOLE_VALUE: string -> string := v => v

  lemma FreedStart(t: map<nat, string>, s: map<nat, string>)
    requires t == map[9 := "a@x"] && s == map[9 := "b@x"]
    ensures var e := Upsert(ANY_ROW, WHOLE_VALUE);
            RejectedAt(e, t, FREED, 0) && SkipTable(e, t, FREED[..2]) == s && e(s, FREED[0]).Some?
  {
    var e := Upsert(ANY_ROW, WHOLE_VALUE);
    var none: seq<MailRow> := [];
    assert FREED[..0] == none && SkipTable(e, t, none) == t;
    assert 9 in t && WHOLE_VALUE(t[9]) == WHOLE_VALUE(FREED[0].value);
    TakenOneMore(e, t, FREED, 0);
    assert !Taken(WHOLE_VALUE, t, FREED[1]) && t[9 := "b@x"] == s;
    TakenOneMore(e, t, FREED, 1);
    assert !Taken(WHOLE_VALUE, s, FREED[0]);
  }

  /**
   The failing side is reached: the connection is lost behind the second row, and the row that
   was rejected is accepted when the batch is written again.
   */
  lemma UpsertDoesNotResume()
    ensures var e := Upsert(ANY_ROW, WHOLE_VALUE);
            var t, s: map<nat, string> := map[9 := "a@x"], map[9 := "b@x"];
            && DistinctKeys(FREED) && UniqueMails(WHOLE_VALUE, t)
            && Wrote(e, t, FREED, s, [], true)
            && !(SkipTable(e, s, FREED) == SkipTable(e, t, FREED) && Skipped(e, s, FREED) == Skipped(e, t, FREED))
  {
    var t, s: map<nat, string> := map[9 := "a@x"], map[9 := "b@x"];
    FreedStart(t, s);
    FreedIsOrdinary(t);
    FreedMailShows(ANY_ROW, WHOLE_VALUE, t, FREED, 2, 0);
  }

  lemma FreedIsOrdinary(t: map<nat, string>)
    requires t == map[9 := "a@x"]
    ensures DistinctKeys(FREED) && OneMail(WHOLE_VALUE, FREED) && UniqueMails(WHOLE_VALUE, t)
  {
  }
}
