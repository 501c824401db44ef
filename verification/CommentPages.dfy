/**
 The comments of a task, oldest first.  A page is read with one row more than it shows, so that
 a cursor is handed out only if something follows.
 */
module CommentPages {
  import opened Wrappers
  import opened Uuid
  import opened SortedSeq
  import opened ListCache
  import opened ListMeaning

  /** The order of `ORDER BY id ASC`, largest first: the oldest id is the largest. */
  predicate Older(a: Uuid, b: Uuid) {
    Less(b, a)
  }

  lemma AgeOrder()
    ensures StrictTotal(Older)
  {
  }

  predicate After(u: Uuid, cursor: Option<Uuid>) {
    cursor.Some? ==> Less(cursor.value, u)
  }

  function Beyond(cursor: Option<Uuid>): Uuid -> bool {
    (u: Uuid) => After(u, cursor)
  }

  /** `WHERE task_id = $1 [AND id > cursor] ORDER BY id ASC` */
  function Left(rows: seq<Listing>, task: nat, cursor: Option<Uuid>): seq<Uuid> {
    Filter(Beyond(cursor), SortDesc(Older, KeyIds(rows, task)))
  }

  /** Whether a comment of the task comes behind the cursor. */
  ghost predicate IsBehind(rows: seq<Listing>, task: nat, cursor: Option<Uuid>, u: Uuid) {
    Listing(task, u) in rows && (cursor.Some? ==> Less(cursor.value, u))
  }

  /**
   GetTaskComments behind its access check: the oldest comments behind the cursor, at most `limit`,
   the oldest first; and the last of them as a cursor if and only if more follow.
   */
  method GetTaskComments(rows: seq<Listing>, task: nat, limit: nat, cursor: Option<Uuid>)
    returns (comments: seq<Uuid>, next: Option<Uuid>)
    requires limit > 0
    ensures |comments| <= limit
    ensures forall i, j :: 0 <= i < j < |comments| ==> Less(comments[i], comments[j])
    ensures forall u :: u in comments ==> IsBehind(rows, task, cursor, u)
    ensures forall u :: IsBehind(rows, task, cursor, u) && u !in comments ==>
              |comments| == limit && forall v :: v in comments ==> Less(v, u)
    ensures next.Some? <==> exists u :: IsBehind(rows, task, cursor, u) && u !in comments
    ensures next.Some? ==> |comments| == limit && next.value == comments[limit - 1]
    ensures (comments, next) == Page(rows, task, limit, cursor)
    ensures next.Some? <==> |Left(rows, task, cursor)| > limit
  {
    LeftMeans(rows, task, limit, cursor);
    comments := Take(Left(rows, task, cursor), limit + 1);
    next := None;
    if |comments| > limit {
      next := Some(comments[limit - 1]);
      assert comments[..limit] == Left(rows, task, cursor)[..limit];
      comments := comments[..limit];
    }
    assert comments == Take(Left(rows, task, cursor), limit);
  }

  lemma LeftMeans(rows: seq<Listing>, task: nat, limit: nat, cursor: Option<Uuid>)
    ensures var left := Left(rows, task, cursor);
            var page := Take(left, limit);
            && (forall i, j :: 0 <= i < j < |page| ==> Less(page[i], page[j]))
            && (forall u :: u in left <==> IsBehind(rows, task, cursor, u))
            && (forall u :: u in page ==> u in left)
            && (forall u :: IsBehind(rows, task, cursor, u) && u !in page ==>
                  |page| == limit && forall v :: v in page ==> Less(v, u))
            && (|left| > limit <==> exists u :: IsBehind(rows, task, cursor, u) && u !in page)
  {
    var left := Left(rows, task, cursor);
    var page := Take(left, limit);
    LeftIs(rows, task, cursor);
    KeyIdsIff(rows, task);
    forall u | u in left && u !in page ensures |page| == limit && forall v :: v in page ==> Older(u, v) {
      TakeIsTop(Older, left, limit, u);
    }
    if |left| > limit {
      assert left[limit] in left;
      assert forall i :: 0 <= i < limit ==> Older(left[limit], left[i]);
      assert left[limit] !in page;
    } else {
      assert page == left;
    }
  }

  /** The first `limit` comments beyond the cursor, and the last of them if more follow. */
  function Page(rows: seq<Listing>, task: nat, limit: nat, cursor: Option<Uuid>): (seq<Uuid>, Option<Uuid>)
    requires limit > 0
  {
    var left := Left(rows, task, cursor);
    (Take(left, limit), if |left| > limit then Some(left[limit - 1]) else None)
  }

  lemma LeftIs(rows: seq<Listing>, task: nat, cursor: Option<Uuid>)
    ensures Descending(Older, Left(rows, task, cursor))
    ensures forall u :: u in Left(rows, task, cursor) <==> u in KeyIds(rows, task) && After(u, cursor)
  {
    AgeOrder();
    SortMembers(Older, KeyIds(rows, task));
    SortDescending(Older, KeyIds(rows, task));
    var all := SortDesc(Older, KeyIds(rows, task));
    FilterMembers(Beyond(cursor), all);
    FilterDescending(Older, Beyond(cursor), all);
  }

  /** What is beyond the cursor that a page hands out is what the page has left. */
  lemma NextLeavesRest(rows: seq<Listing>, task: nat, limit: nat, cursor: Option<Uuid>)
    requires 0 < limit < |Left(rows, task, cursor)|
    ensures Left(rows, task, Some(Left(rows, task, cursor)[limit - 1])) == Left(rows, task, cursor)[limit..]
  {
    AgeOrder();
    var left := Left(rows, task, cursor);
    var rest := Left(rows, task, Some(left[limit - 1]));
    LeftIs(rows, task, cursor);
    LeftIs(rows, task, Some(left[limit - 1]));
    assert left[limit - 1] in left;
    forall u ensures u in rest <==> u in left[limit..] {
      if u in left {
        var i :| 0 <= i < |left| && left[i] == u;
        if i >= limit {
          assert left[limit..][i - limit] == u;
        }
      }
      if u in left[limit..] {
        var i :| 0 <= i < |left[limit..]| && left[limit..][i] == u;
        assert left[limit + i] == u;
      }
    }
    DescendingUnique(Older, rest, left[limit..]);
  }

  function Walk(rows: seq<Listing>, task: nat, limit: nat, cursor: Option<Uuid>): seq<seq<Uuid>>
    requires limit > 0
    decreases |Left(rows, task, cursor)|
  {
    var (page, next) := Page(rows, task, limit, cursor);
    if next.None? then [page]
    else
      NextLeavesRest(rows, task, limit, cursor);
      [page] + Walk(rows, task, limit, next)
  }

  function Concat(pages: seq<seq<Uuid>>): seq<Uuid> {
    if pages == [] then [] else pages[0] + Concat(pages[1..])
  }

  /** The pages of a walk are the comments of the task, each once, and no page is empty unless all are. */
  lemma {:induction false} WalkIsAll(rows: seq<Listing>, task: nat, limit: nat, cursor: Option<Uuid>)
    requires limit > 0
    ensures Concat(Walk(rows, task, limit, cursor)) == Left(rows, task, cursor)
    ensures Left(rows, task, cursor) != [] ==> forall page :: page in Walk(rows, task, limit, cursor) ==> page != []
    decreases |Left(rows, task, cursor)|
  {
    var left := Left(rows, task, cursor);
    var page, next := Page(rows, task, limit, cursor).0, Page(rows, task, limit, cursor).1;
    if next.Some? {
      NextLeavesRest(rows, task, limit, cursor);
      WalkIsAll(rows, task, limit, next);
      var rest := Walk(rows, task, limit, next);
      assert ([page] + rest)[1..] == rest;
      assert left == left[..limit] + left[limit..];
    } else {
      var none: seq<seq<Uuid>> := [];
      assert [page][1..] == none && page + Concat(none) == page;
    }
  }
}
