/** Lists in descending order under a strict total order: what `ORDER BY ... DESC` returns
    and what a Redis sorted set holds, largest first. */
module SortedSeq {
  ghost predicate StrictTotal<A(!new)>(less: (A, A) -> bool) {
    && (forall x :: !less(x, x))
    && (forall x, y, z :: less(x, y) && less(y, z) ==> less(x, z))
    && (forall x, y :: less(x, y) || x == y || less(y, x))
  }

  ghost predicate Descending<A>(less: (A, A) -> bool, s: seq<A>) {
    forall i, j :: 0 <= i < j < |s| ==> less(s[j], s[i])
  }

  /** `x` put into its place; an element that is already there is not repeated. */
  function Insert<A(==)>(less: (A, A) -> bool, s: seq<A>, x: A): seq<A> {
    if s == [] then [x]
    else if s[0] == x then s
    else if less(s[0], x) then [x] + s
    else [s[0]] + Insert(less, s[1..], x)
  }

  function SortDesc<A(==)>(less: (A, A) -> bool, xs: seq<A>): seq<A> {
    if xs == [] then [] else Insert(less, SortDesc(less, xs[1..]), xs[0])
  }

  function Take<A>(s: seq<A>, n: nat): (t: seq<A>)
    ensures |t| <= n && |t| <= |s| && t == s[..|t|]
  {
    if |s| <= n then s else s[..n]
  }

  function Filter<A>(p: A -> bool, s: seq<A>): (t: seq<A>)
    ensures |t| <= |s|
  {
    if s == [] then [] else if p(s[0]) then [s[0]] + Filter(p, s[1..]) else Filter(p, s[1..])
  }

  lemma {:induction false} FilterMembers<A>(p: A -> bool, s: seq<A>)
    ensures forall x :: x in Filter(p, s) <==> x in s && p(x)
    decreases s
  {
    if s != [] {
      FilterMembers(p, s[1..]);
      assert s == [s[0]] + s[1..];
    }
  }

  /** Filtering keeps the order. */
  lemma {:induction false} FilterDescending<A(!new)>(less: (A, A) -> bool, p: A -> bool, s: seq<A>)
    requires Descending(less, s)
    ensures Descending(less, Filter(p, s))
    decreases s
  {
    if s != [] {
      FilterDescending(less, p, s[1..]);
      FilterMembers(p, s[1..]);
      var rest := Filter(p, s[1..]);
      forall j | 0 <= j < |rest| ensures less(rest[j], s[0]) {
        assert rest[j] in rest;
      }
    }
  }

  /** What is kept entirely is not changed. */
  lemma {:induction false} FilterAll<A>(p: A -> bool, s: seq<A>)
    requires forall x :: x in s ==> p(x)
    ensures Filter(p, s) == s
    decreases s
  {
    if s != [] {
      FilterAll(p, s[1..]);
    }
  }

  lemma {:induction false} FilterConcat<A>(p: A -> bool, a: seq<A>, b: seq<A>)
    ensures Filter(p, a + b) == Filter(p, a) + Filter(p, b)
    decreases a
  {
    if a == [] {
      assert a + b == b;
    } else {
      assert (a + b)[1..] == a[1..] + b;
      FilterConcat(p, a[1..], b);
    }
  }

  lemma FilterAdd<A>(p: A -> bool, s: seq<A>, x: A)
    ensures Filter(p, s + [x]) == Filter(p, s) + (if p(x) then [x] else [])
  {
    FilterConcat(p, s, [x]);
    assert Filter(p, [x][1..]) == [];
  }

  lemma {:induction false} FilterNone<A>(p: A -> bool, s: seq<A>)
    requires forall x :: x in s ==> !p(x)
    ensures Filter(p, s) == []
    decreases s
  {
    if s != [] {
      FilterNone(p, s[1..]);
    }
  }

  lemma {:induction false} InsertMembers<A>(less: (A, A) -> bool, s: seq<A>, x: A)
    ensures forall y :: y in Insert(less, s, x) <==> y in s || y == x
    ensures |Insert(less, s, x)| <= |s| + 1
    decreases s
  {
    if s != [] {
      InsertMembers(less, s[1..], x);
      assert s == [s[0]] + s[1..];
    }
  }

  lemma {:induction false} InsertDescending<A(!new)>(less: (A, A) -> bool, s: seq<A>, x: A)
    requires StrictTotal(less) && Descending(less, s)
    ensures Descending(less, Insert(less, s, x))
    decreases s
  {
    if s != [] && s[0] != x {
      if less(s[0], x) {
        assert forall j :: 0 <= j < |s| ==> less(s[j], x);
      } else {
        InsertDescending(less, s[1..], x);
        InsertMembers(less, s[1..], x);
        var rest := Insert(less, s[1..], x);
        forall j | 0 <= j < |rest| ensures less(rest[j], s[0]) {
          assert rest[j] in rest;
        }
      }
    }
  }

  lemma {:induction false} SortMembers<A>(less: (A, A) -> bool, xs: seq<A>)
    ensures forall y :: y in SortDesc(less, xs) <==> y in xs
    decreases xs
  {
    if xs != [] {
      SortMembers(less, xs[1..]);
      InsertMembers(less, SortDesc(less, xs[1..]), xs[0]);
      assert xs == [xs[0]] + xs[1..];
    }
  }

  lemma {:induction false} SortDescending<A(!new)>(less: (A, A) -> bool, xs: seq<A>)
    requires StrictTotal(less)
    ensures Descending(less, SortDesc(less, xs))
    decreases xs
  {
    if xs != [] {
      SortDescending(less, xs[1..]);
      InsertDescending(less, SortDesc(less, xs[1..]), xs[0]);
    }
  }

  lemma TailMembers<A(!new)>(less: (A, A) -> bool, s: seq<A>, x: A)
    requires StrictTotal(less) && Descending(less, s) && s != []
    ensures x in s[1..] <==> x in s && x != s[0]
  {
    assert s == [s[0]] + s[1..];
    if x in s[1..] {
      var j :| 0 <= j < |s[1..]| && s[1..][j] == x;
      assert less(s[j + 1], s[0]);
    }
  }

  /** Where an element is: among the first `n`, or behind them and then below the last of them. */
  lemma TakeSplits<A(!new)>(less: (A, A) -> bool, s: seq<A>, n: nat, x: A)
    requires Descending(less, s) && 0 < n <= |s| && x in s
    ensures x in s[..n] || less(x, s[n - 1])
    ensures x in s[..n] ==> x == s[n - 1] || less(s[n - 1], x)
  {
    var i :| 0 <= i < |s| && s[i] == x;
    if i < n {
      assert s[..n][i] == x;
    }
    if x in s[..n] {
      var j :| 0 <= j < n && s[..n][j] == x;
    }
  }

  /** A descending list is determined by its members. */
  lemma {:induction false} DescendingUnique<A(!new)>(less: (A, A) -> bool, s: seq<A>, t: seq<A>)
    requires StrictTotal(less) && Descending(less, s) && Descending(less, t)
    requires forall x :: x in s <==> x in t
    ensures s == t
    decreases s
  {
    assert |t| > 0 ==> t[0] in t;
    if s != [] {
      assert s[0] in t && t[0] in s;
      assert t[0] == s[0] by {
        var i :| 0 <= i < |t| && t[i] == s[0];
        var j :| 0 <= j < |s| && s[j] == t[0];
      }
      forall x ensures x in s[1..] <==> x in t[1..] {
        TailMembers(less, s, x);
        TailMembers(less, t, x);
      }
      DescendingUnique(less, s[1..], t[1..]);
    }
  }

  /** A sorted list is its own sorting. */
  lemma SortSorted<A(!new)>(less: (A, A) -> bool, s: seq<A>)
    requires StrictTotal(less) && Descending(less, s)
    ensures SortDesc(less, s) == s
  {
    SortMembers(less, s);
    SortDescending(less, s);
    DescendingUnique(less, SortDesc(less, s), s);
  }

  /** Only the order and the members matter for a sorting. */
  lemma SortSame<A(!new)>(less: (A, A) -> bool, xs: seq<A>, ys: seq<A>)
    requires StrictTotal(less) && forall x :: x in xs <==> x in ys
    ensures SortDesc(less, xs) == SortDesc(less, ys)
  {
    SortMembers(less, xs);
    SortMembers(less, ys);
    SortDescending(less, xs);
    SortDescending(less, ys);
    DescendingUnique(less, SortDesc(less, xs), SortDesc(less, ys));
  }

  /** Inserting is sorting one more element. */
  lemma InsertIsSort<A(!new)>(less: (A, A) -> bool, s: seq<A>, xs: seq<A>, x: A)
    requires StrictTotal(less) && s == SortDesc(less, xs)
    ensures Insert(less, s, x) == SortDesc(less, xs + [x])
  {
    SortMembers(less, xs);
    SortDescending(less, xs);
    InsertMembers(less, s, x);
    InsertDescending(less, s, x);
    SortMembers(less, xs + [x]);
    SortDescending(less, xs + [x]);
    DescendingUnique(less, Insert(less, s, x), SortDesc(less, xs + [x]));
  }

  /** What the first `n` leave out is smaller than all of them, and there is some only if they are `n`. */
  lemma TakeIsTop<A(!new)>(less: (A, A) -> bool, s: seq<A>, n: nat, y: A)
    requires Descending(less, s) && y in s && y !in Take(s, n)
    ensures |Take(s, n)| == n && forall x :: x in Take(s, n) ==> less(y, x)
  {
    var j :| 0 <= j < |s| && s[j] == y;
    assert forall i :: 0 <= i < |Take(s, n)| ==> Take(s, n)[i] in Take(s, n) && Take(s, n)[i] == s[i];
    forall x | x in Take(s, n) ensures less(y, x) {
      var i :| 0 <= i < |Take(s, n)| && Take(s, n)[i] == x;
      assert s[i] == x;
    }
  }

  lemma TakeCons<A>(x: A, s: seq<A>, n: nat)
    requires n > 0
    ensures Take([x] + s, n) == [x] + Take(s, n - 1)
  {
  }

  lemma TakeTwice<A>(s: seq<A>, m: nat, n: nat)
    requires n <= m
    ensures Take(Take(s, m), n) == Take(s, n)
  {
  }

  /** Pruning before an insertion does not change what survives the next pruning. */
  lemma {:induction false} PruneInsert<A(!new)>(less: (A, A) -> bool, s: seq<A>, x: A, n: nat)
    requires StrictTotal(less) && Descending(less, s)
    ensures Take(Insert(less, Take(s, n), x), n) == Take(Insert(less, s, x), n)
    decreases s, 1
  {
    if n == 0 || s == [] {
    } else if s[0] == x {
      TakeTwice(s, n, n);
    } else if less(s[0], x) {
      TakeCons(x, Take(s, n), n);
      TakeCons(x, s, n);
      TakeTwice(s, n, n - 1);
    } else {
      PruneInsertTail(less, s, x, n);
    }
  }

  lemma {:induction false} PruneInsertTail<A(!new)>(less: (A, A) -> bool, s: seq<A>, x: A, n: nat)
    requires StrictTotal(less) && Descending(less, s) && n > 0 && s != [] && s[0] != x && !less(s[0], x)
    ensures Take(Insert(less, Take(s, n), x), n) == Take(Insert(less, s, x), n)
    decreases s, 0
  {
    var h, rest := s[0], s[1..];
    assert s == [h] + rest;
    TakeCons(h, rest, n);
    var front := Take(rest, n - 1);
    assert ([h] + front)[1..] == front && ([h] + front)[0] == h;
    assert Insert(less, Take(s, n), x) == [h] + Insert(less, front, x);
    PruneInsert(less, rest, x, n - 1);
    TakeCons(h, Insert(less, front, x), n);
    TakeCons(h, Insert(less, rest, x), n);
  }

  /** An inserted element survives pruning if and only if fewer than `n` others are greater. */
  lemma {:induction false} SurvivesIff<A(!new)>(less: (A, A) -> bool, s: seq<A>, x: A, n: nat, greater: A -> bool)
    requires StrictTotal(less) && Descending(less, s) && forall y :: greater(y) <==> less(x, y)
    ensures x in Take(Insert(less, s, x), n) <==> |Filter(greater, s)| < n
    decreases s
  {
    if s != [] && s[0] != x && !less(s[0], x) {
      if n > 0 {
        SurvivesIff(less, s[1..], x, n - 1, greater);
        var rest := Insert(less, s[1..], x);
        TakeCons(s[0], rest, n);
      }
    } else {
      var all := Insert(less, s, x);
      assert all[0] == x;
      assert n > 0 ==> Take(all, n)[0] == x;
      FilterNone(greater, s);
    }
  }

  lemma SameHead<A(!new)>(less: (A, A) -> bool, all: seq<A>, part: seq<A>)
    requires StrictTotal(less) && Descending(less, all) && Descending(less, part) && all != [] && part != []
    requires all[0] in part && part[0] in all
    ensures part[0] == all[0]
  {
    var i :| 0 <= i < |all| && all[i] == part[0];
    var j :| 0 <= j < |part| && part[j] == all[0];
  }

  ghost predicate NoRepetition<A>(xs: seq<A>) {
    forall i, j :: 0 <= i < j < |xs| ==> xs[i] != xs[j]
  }

  /** A sorting keeps how many elements satisfy `p`. */
  lemma {:induction false} FilterInsertSize<A>(less: (A, A) -> bool, p: A -> bool, s: seq<A>, x: A)
    requires x !in s
    ensures |Filter(p, Insert(less, s, x))| == |Filter(p, s)| + (if p(x) then 1 else 0)
    ensures |Insert(less, s, x)| == |s| + 1
    decreases s
  {
    if s == [] {
      assert Filter(p, [x][1..]) == [];
    } else if less(s[0], x) {
      assert ([x] + s)[1..] == s;
    } else {
      assert s[0] in s && s == [s[0]] + s[1..];
      FilterInsertSize(less, p, s[1..], x);
      var rest := Insert(less, s[1..], x);
      assert ([s[0]] + rest)[1..] == rest;
    }
  }

  lemma {:induction false} FilterSortSize<A>(less: (A, A) -> bool, p: A -> bool, xs: seq<A>)
    requires NoRepetition(xs)
    ensures |Filter(p, SortDesc(less, xs))| == |Filter(p, xs)|
    ensures |SortDesc(less, xs)| == |xs|
    decreases xs
  {
    if xs != [] {
      assert forall i :: 0 <= i < |xs[1..]| ==> xs[1..][i] == xs[i + 1];
      FilterSortSize(less, p, xs[1..]);
      SortMembers(less, xs[1..]);
      FilterInsertSize(less, p, SortDesc(less, xs[1..]), xs[0]);
    }
  }

  lemma SortSizeExact<A>(less: (A, A) -> bool, xs: seq<A>)
    requires NoRepetition(xs)
    ensures |SortDesc(less, xs)| == |xs|
  {
    FilterSortSize(less, (x: A) => true, xs);
  }

  /** An element is among the first `n` if and only if fewer than `n` are greater. */
  lemma RankInTake<A(!new)>(less: (A, A) -> bool, s: seq<A>, x: A, n: nat, greater: A -> bool)
    requires StrictTotal(less) && Descending(less, s) && x in s && forall y :: greater(y) <==> less(x, y)
    ensures x in Take(s, n) <==> |Filter(greater, s)| < n
  {
    InsertMembers(less, s, x);
    InsertDescending(less, s, x);
    DescendingUnique(less, Insert(less, s, x), s);
    SurvivesIff(less, s, x, n, greater);
  }

  /** The first `n` elements that satisfy `p` can be taken from any part of the list that has them. */
  lemma {:induction false} SubPage<A(!new)>(less: (A, A) -> bool, all: seq<A>, part: seq<A>, p: A -> bool, n: nat)
    requires StrictTotal(less) && Descending(less, all) && Descending(less, part)
    requires forall x :: x in part ==> x in all
    requires forall x :: x in Take(Filter(p, all), n) ==> x in part
    ensures Take(Filter(p, part), n) == Take(Filter(p, all), n)
    decreases all
  {
    assert |part| > 0 ==> part[0] in part;
    if all != [] && n > 0 {
      var h, rest := all[0], Filter(p, all[1..]);
      assert all == [h] + all[1..];
      assert p(h) ==> Filter(p, all) == [h] + rest && Take([h] + rest, n)[0] == h;
      assert p(h) ==> h in Take(Filter(p, all), n);
      if h in part {
        SameHead(less, all, part);
        forall x | x in part[1..] ensures x in all[1..] {
          TailMembers(less, part, x);
          TailMembers(less, all, x);
        }
        RestOfPage(less, all, part, p, n);
        if p(h) {
          SubPage(less, all[1..], part[1..], p, n - 1);
          TakeCons(h, rest, n);
          TakeCons(h, Filter(p, part[1..]), n);
        } else {
          SubPage(less, all[1..], part[1..], p, n);
        }
      } else {
        forall x | x in part ensures x in all[1..] {
          TailMembers(less, all, x);
        }
        SubPage(less, all[1..], part, p, n);
      }
    }
  }

  lemma RestOfPage<A(!new)>(less: (A, A) -> bool, all: seq<A>, part: seq<A>, p: A -> bool, n: nat)
    requires StrictTotal(less) && Descending(less, all) && Descending(less, part)
    requires all != [] && part != [] && part[0] == all[0]
    requires forall x :: x in Take(Filter(p, all), n) ==> x in part
    requires n > 0 || !p(all[0])
    ensures forall x :: x in Take(Filter(p, all[1..]), if p(all[0]) then n - 1 else n) ==> x in part[1..]
  {
    var rest := Filter(p, all[1..]);
    FilterMembers(p, all[1..]);
    var m := if p(all[0]) then n - 1 else n;
    if p(all[0]) {
      TakeCons(all[0], rest, n);
    }
    forall x | x in Take(rest, m) ensures x in part[1..] {
      assert x in rest && x in Take(Filter(p, all), n);
      TailMembers(less, all, x);
      TailMembers(less, part, x);
    }
  }
}
