/**
 Walking a cached column page by page.  A client sends the last id of a full page back as the
 cursor; the cache turns it into an exclusive score bound.
 */
module ColumnWalk {
  import opened Wrappers
  import opened Uuid
  import opened SortedSeq
  import opened ColumnCache
  import opened ColumnRuns

  /** The cursor that GetTasksByProject returns with a page. */
  function NextCursor(page: seq<Uuid>, limit: nat): Option<Uuid> {
    if page != [] && |page| == limit then Some(page[|page| - 1]) else None
  }

  /** The entries below a bound. */
  function Below(z: ZSet, bound: Option<int>): ZSet {
    Filter((e: Entry) => bound.None? || e.score < bound.value, z)
  }

  /** The bound that a version 7 cursor stands for. */
  function ScoreBound(cursor: Option<Uuid>): Option<int> {
    if cursor.None? then None else Some(cursor.value.ms as int)
  }

  lemma BelowKeeps(z: ZSet, bound: Option<int>)
    requires OwnScores(z)
    ensures OwnScores(Below(z, bound))
    ensures forall e :: e in Below(z, bound) <==> e in z && (bound.None? || e.score < bound.value)
  {
    var p := (e: Entry) => bound.None? || e.score < bound.value;
    FilterMembers(p, z);
    FilterDescending(EntryLess, p, z);
  }

  lemma {:induction false} IdsAt(es: seq<Entry>)
    requires NoMarker(es)
    ensures |Ids(es)| == |es| && forall i :: 0 <= i < |es| ==> es[i].member == Id(Ids(es)[i])
    decreases es
  {
    if es != [] {
      assert es[0] in es;
      IdsAt(es[1..]);
    }
  }

  lemma {:induction false} ScoreFound(z: ZSet, id: Uuid)
    requires OwnScores(z)
    ensures Own(id) in z ==> ZScore(z, Id(id)) == Some(id.ms)
    ensures Own(id) !in z ==> ZScore(z, Id(id)) == None
    decreases z
  {
    if z != [] {
      assert z == [z[0]] + z[1..];
      assert z[0] in z;
      ScoreFound(z[1..], id);
    }
  }

  /**
   The two ways to find the bound agree: the score of the cursor's own entry is the timestamp
   in the cursor.
   */
  lemma BoundsAgree(z: ZSet, c: Uuid)
    requires OwnScores(z) && IsV7(c)
    ensures Bound(z, Some(c)) == Some(c.ms)
  {
    ScoreFound(z, c);
  }

  /** So a cursor outlives its task: the next page is the same after the task has left the column. */
  lemma CursorSurvivesRemoval(z: ZSet, c: Uuid, limit: nat)
    requires OwnScores(z) && IsV7(c)
    ensures PageIds(ZRem(z, Id(c)), limit, Some(c)) == PageIds(z, limit, Some(c))
  {
    EntryOrder();
    var z' := ZRem(z, Id(c));
    ZRemKeeps(z, Id(c));
    BoundsAgree(z, c);
    BoundsAgree(z', c);
    BelowKeeps(z, Some(c.ms));
    BelowKeeps(z', Some(c.ms));
    DescendingUnique(EntryLess, Below(z, Some(c.ms)), Below(z', Some(c.ms)));
  }

  /** A cursor that is no version 7 id finds no bound: the walk starts over. */
  lemma ForeignCursorStartsOver(z: ZSet, c: Uuid, limit: nat)
    requires OwnScores(z) && !IsV7(c)
    ensures PageIds(z, limit, Some(c)) == PageIds(z, limit, None)
  {
    ScoreFound(z, c);
  }

  /** A column that is known to be empty has one empty page, whatever the cursor. */
  lemma MarkerShowsNothing(limit: nat, cursor: Option<Uuid>)
    ensures PageIds([Entry(-1, Empty)], limit, cursor) == []
    ensures NextCursor(PageIds([Entry(-1, Empty)], limit, cursor), limit).None?
  {
    var z: ZSet := [Entry(-1, Empty)];
    var none: ZSet := [];
    var below := Below(z, Bound(z, cursor));
    assert z[1..] == none && (below == z || below == none);
    assert Ids(none) == [] && Ids(z) == [];
    assert Take(below, limit) == below || Take(below, limit) == none;
  }

  /******* The walk *******/

  lemma BoundOnPage(z: ZSet, cursor: Option<Uuid>, limit: nat)
    requires OwnScores(z) && NoMarker(z)
    requires cursor.Some? ==> IsV7(cursor.value)
    ensures var b := ScoreBound(cursor);
            var page := PageIds(z, limit, cursor);
            && |page| == |Take(Below(z, b), limit)|
            && forall i :: 0 <= i < |page| ==> Below(z, b)[i] == Own(page[i]) && IsV7(page[i]) && Own(page[i]) in z
  {
    var b := ScoreBound(cursor);
    if cursor.Some? {
      BoundsAgree(z, cursor.value);
    }
    BelowKeeps(z, b);
    var es := Take(Below(z, b), limit);
    forall e | e in es ensures e in Below(z, b) {
    }
    IdsAt(es);
    forall i | 0 <= i < |es| ensures es[i] == Own(Ids(es)[i]) && IsV7(Ids(es)[i]) && Own(Ids(es)[i]) in z {
      assert es[i] in es;
    }
  }

  /** A full page moves the bound down, so the walk ends. */
  lemma BelowShrinks(z: ZSet, cursor: Option<Uuid>, limit: nat)
    requires OwnScores(z) && NoMarker(z)
    requires cursor.Some? ==> IsV7(cursor.value)
    requires NextCursor(PageIds(z, limit, cursor), limit).Some?
    ensures var next := NextCursor(PageIds(z, limit, cursor), limit).value;
            var b := ScoreBound(cursor);
            && IsV7(next) && Own(next) in Below(z, b)
            && |Below(z, Some(next.ms))| < |Below(z, b)|
  {
    var page := PageIds(z, limit, cursor);
    var next := page[|page| - 1];
    var b := ScoreBound(cursor);
    BoundOnPage(z, cursor, limit);
    assert Below(z, b)[|page| - 1] == Own(next);
    assert Own(next) in Below(z, b);
    BelowKeeps(z, b);
    BelowLess(z, b, next.ms);
  }

  lemma {:induction false} BelowLess(z: ZSet, b: Option<int>, s: int)
    requires b.None? || s <= b.value
    ensures |Below(z, Some(s))| <= |Below(z, b)|
    ensures (exists e :: e in z && e.score == s && (b.None? || s < b.value)) ==> |Below(z, Some(s))| < |Below(z, b)|
    decreases z
  {
    if z != [] {
      assert z == [z[0]] + z[1..];
      BelowLess(z[1..], b, s);
    }
  }

  /** Page after page, as long as the server hands out a cursor. */
  function Walk(z: ZSet, limit: nat, cursor: Option<Uuid>): (pages: seq<seq<Uuid>>)
    requires OwnScores(z) && NoMarker(z)
    requires cursor.Some? ==> IsV7(cursor.value)
    decreases |Below(z, ScoreBound(cursor))|
  {
    var page := PageIds(z, limit, cursor);
    var next := NextCursor(page, limit);
    if next.None? then [page]
    else
      BelowShrinks(z, cursor, limit);
      [page] + Walk(z, limit, next)
  }

  function Flat(pages: seq<seq<Uuid>>): seq<Uuid> {
    if pages == [] then [] else pages[0] + Flat(pages[1..])
  }

  /** `id` ranks below the last id of one of the full pages, in the same millisecond. */
  ghost predicate CutOff(pages: seq<seq<Uuid>>, limit: nat, id: Uuid) {
    exists i :: 0 <= i < |pages| && CutOffBy(NextCursor(pages[i], limit), id)
  }

  predicate CutOffBy(last: Option<Uuid>, id: Uuid) {
    last.Some? && last.value.ms == id.ms && Less(id, last.value)
  }

  ghost predicate DescendingIds(ids: seq<Uuid>) {
    forall i, j :: 0 <= i < j < |ids| ==> Less(ids[j], ids[i])
  }

  lemma CutOffSplit(page: seq<Uuid>, rest: seq<seq<Uuid>>, limit: nat, id: Uuid)
    ensures CutOff([page] + rest, limit, id) <==> CutOffBy(NextCursor(page, limit), id) || CutOff(rest, limit, id)
  {
    var pages := [page] + rest;
    if CutOff(rest, limit, id) {
      var i :| 0 <= i < |rest| && CutOffBy(NextCursor(rest[i], limit), id);
      assert pages[i + 1] == rest[i];
    }
    if CutOffBy(NextCursor(page, limit), id) {
      assert pages[0] == page;
    }
    if CutOff(pages, limit, id) && !CutOffBy(NextCursor(page, limit), id) {
      var i :| 0 <= i < |pages| && CutOffBy(NextCursor(pages[i], limit), id);
      assert rest[i - 1] == pages[i];
    }
  }

  /** A full page is the top of the entries below the bound. */
  lemma FullPageIsTop(z: ZSet, limit: nat, cursor: Option<Uuid>, id: Uuid)
    requires OwnScores(z) && NoMarker(z)
    requires cursor.Some? ==> IsV7(cursor.value)
    requires NextCursor(PageIds(z, limit, cursor), limit).Some?
    ensures var page, es := PageIds(z, limit, cursor), Below(z, ScoreBound(cursor));
            && OwnScores(es) && 0 < limit <= |es| && es[limit - 1] == Own(page[|page| - 1])
            && (id in page <==> Own(id) in es[..limit])
  {
    BoundOnPage(z, cursor, limit);
    BelowKeeps(z, ScoreBound(cursor));
    PageMembers(Below(z, ScoreBound(cursor)), PageIds(z, limit, cursor), id);
  }

  lemma PageMembers(es: ZSet, page: seq<Uuid>, id: Uuid)
    requires |page| <= |es| && forall i :: 0 <= i < |page| ==> es[i] == Own(page[i])
    ensures id in page <==> Own(id) in es[..|page|]
  {
    if id in page {
      var i :| 0 <= i < |page| && page[i] == id;
      assert es[..|page|][i] == Own(id);
    }
    if Own(id) in es[..|page|] {
      var i :| 0 <= i < |page| && es[..|page|][i] == Own(id);
      assert page[i] == id;
    }
  }

  /** What one full page contributes. */
  lemma FullPage(z: ZSet, limit: nat, cursor: Option<Uuid>, id: Uuid)
    requires OwnScores(z) && NoMarker(z)
    requires cursor.Some? ==> IsV7(cursor.value)
    requires NextCursor(PageIds(z, limit, cursor), limit).Some?
    ensures var page := PageIds(z, limit, cursor);
            var next := page[|page| - 1];
            var b := ScoreBound(cursor);
            && (id in page ==> Own(id) in Below(z, b) && next.ms <= id.ms && !Less(id, next))
            && (Own(id) in Below(z, b) ==>
                  id in page || (id.ms == next.ms && Less(id, next)) || Own(id) in Below(z, Some(next.ms)))
            && (Own(id) in Below(z, Some(next.ms)) ==> Own(id) in Below(z, b) && id.ms < next.ms)
  {
    var page := PageIds(z, limit, cursor);
    var next := page[|page| - 1];
    FullPageIsTop(z, limit, cursor, id);
    BelowKeeps(z, ScoreBound(cursor));
    BelowKeeps(z, Some(next.ms));
    var es := Below(z, ScoreBound(cursor));
    if Own(id) in es {
      TakeSplits(EntryLess, es, limit, Own(id));
    }
    assert Own(next) in es;
  }

  lemma PageDescends(z: ZSet, limit: nat, cursor: Option<Uuid>)
    requires OwnScores(z) && NoMarker(z)
    requires cursor.Some? ==> IsV7(cursor.value)
    ensures DescendingIds(PageIds(z, limit, cursor))
  {
    var b := ScoreBound(cursor);
    BoundOnPage(z, cursor, limit);
    BelowKeeps(z, b);
    var page, es := PageIds(z, limit, cursor), Below(z, b);
    forall i, j | 0 <= i < j < |page| ensures Less(page[j], page[i]) {
      assert EntryLess(es[j], es[i]);
    }
  }

  lemma LastPage(z: ZSet, limit: nat, cursor: Option<Uuid>, id: Uuid)
    requires OwnScores(z) && NoMarker(z) && limit > 0
    requires cursor.Some? ==> IsV7(cursor.value)
    requires NextCursor(PageIds(z, limit, cursor), limit).None?
    ensures id in PageIds(z, limit, cursor) <==>
            Own(id) in Below(z, ScoreBound(cursor))
  {
    var b := ScoreBound(cursor);
    BoundOnPage(z, cursor, limit);
    var page, es := PageIds(z, limit, cursor), Below(z, b);
    assert Take(es, limit) == es;
    if Own(id) in es {
      var i :| 0 <= i < |es| && es[i] == Own(id);
      assert page[i] == id;
    }
  }

  /**
   A walk yields, in strictly descending order and so without repetition, exactly the ids of
   the column below its cursor that are not cut off by the end of a full page.
   */
  lemma {:induction false} WalkVisits(z: ZSet, limit: nat, cursor: Option<Uuid>)
    requires OwnScores(z) && NoMarker(z) && limit > 0
    requires cursor.Some? ==> IsV7(cursor.value)
    ensures var pages := Walk(z, limit, cursor);
            var b := ScoreBound(cursor);
            && DescendingIds(Flat(pages))
            && (forall id :: id in Flat(pages) <==> Own(id) in Below(z, b) && !CutOff(pages, limit, id))
    decreases |Below(z, ScoreBound(cursor))|
  {
    var page := PageIds(z, limit, cursor);
    var next := NextCursor(page, limit);
    var b := ScoreBound(cursor);
    PageDescends(z, limit, cursor);
    if next.None? {
      LastPageWalk(z, limit, cursor);
    } else {
      BelowShrinks(z, cursor, limit);
      WalkVisits(z, limit, next);
      var rest := Walk(z, limit, next);
      assert Flat([page] + rest) == page + Flat(rest) by {
        assert ([page] + rest)[1..] == rest;
      }
      forall id ensures id in page + Flat(rest) <==> Own(id) in Below(z, b) && !CutOff([page] + rest, limit, id) {
        FullPage(z, limit, cursor, id);
        CutOffSplit(page, rest, limit, id);
        LaterCutsAreBelow(z, limit, next, id);
      }
      PagesDescend(z, limit, cursor, page, Flat(rest));
    }
  }

  lemma LastPageWalk(z: ZSet, limit: nat, cursor: Option<Uuid>)
    requires OwnScores(z) && NoMarker(z) && limit > 0
    requires cursor.Some? ==> IsV7(cursor.value)
    requires NextCursor(PageIds(z, limit, cursor), limit).None?
    ensures var pages := Walk(z, limit, cursor);
            var b := ScoreBound(cursor);
            && Flat(pages) == PageIds(z, limit, cursor)
            && (forall id :: id in Flat(pages) <==> Own(id) in Below(z, b) && !CutOff(pages, limit, id))
  {
    var page := PageIds(z, limit, cursor);
    var none: seq<seq<Uuid>> := [];
    assert [page][1..] == none && page + Flat(none) == page;
    assert Walk(z, limit, cursor) == [page];
    forall id ensures id in page <==>
        Own(id) in Below(z, ScoreBound(cursor)) && !CutOff([page], limit, id) {
      LastPage(z, limit, cursor, id);
      assert [page] == [page] + none;
      CutOffSplit(page, none, limit, id);
    }
  }

  /** The later pages of a walk end below the cursor, so they cut nothing off above it. */
  lemma {:induction false} LaterCutsAreBelow(z: ZSet, limit: nat, cursor: Option<Uuid>, id: Uuid)
    requires OwnScores(z) && NoMarker(z) && limit > 0
    requires cursor.Some? && IsV7(cursor.value)
    ensures CutOff(Walk(z, limit, cursor), limit, id) ==> id.ms < cursor.value.ms
    decreases |Below(z, Some(cursor.value.ms))|
  {
    var page := PageIds(z, limit, cursor);
    var next := NextCursor(page, limit);
    var none: seq<seq<Uuid>> := [];
    if next.Some? {
      BelowShrinks(z, cursor, limit);
      BelowKeeps(z, Some(cursor.value.ms));
      LaterCutsAreBelow(z, limit, next, id);
      CutOffSplit(page, Walk(z, limit, next), limit, id);
    } else {
      assert [page] == [page] + none;
      CutOffSplit(page, none, limit, id);
    }
  }

  lemma PagesDescend(z: ZSet, limit: nat, cursor: Option<Uuid>, page: seq<Uuid>, rest: seq<Uuid>)
    requires OwnScores(z) && NoMarker(z) && page == PageIds(z, limit, cursor)
    requires cursor.Some? ==> IsV7(cursor.value)
    requires NextCursor(page, limit).Some? && DescendingIds(page) && DescendingIds(rest)
    requires forall id :: id in rest ==> Own(id) in Below(z, Some(page[|page| - 1].ms))
    ensures DescendingIds(page + rest)
  {
    forall i, j | 0 <= i < |page| && 0 <= j < |rest| ensures Less(rest[j], page[i]) {
      assert page[i] in page && rest[j] in rest;
      FullPage(z, limit, cursor, page[i]);
      FullPage(z, limit, cursor, rest[j]);
    }
  }

  ghost predicate DistinctTimes(z: ZSet) {
    forall d, e :: d in z && e in z && d.score == e.score ==> d == e
  }

  /** A walk from the top returned every task of the column. */
  ghost predicate Complete(z: ZSet, limit: nat)
    requires OwnScores(z) && NoMarker(z)
  {
    forall id :: Own(id) in z ==> id in Flat(Walk(z, limit, None))
  }

  lemma {:induction false} PageEndsInColumn(z: ZSet, limit: nat, cursor: Option<Uuid>, i: nat)
    requires OwnScores(z) && NoMarker(z)
    requires cursor.Some? ==> IsV7(cursor.value)
    requires i < |Walk(z, limit, cursor)| && NextCursor(Walk(z, limit, cursor)[i], limit).Some?
    ensures Own(NextCursor(Walk(z, limit, cursor)[i], limit).value) in z
    decreases i
  {
    var page := PageIds(z, limit, cursor);
    var next := NextCursor(page, limit);
    if next.Some? {
      BelowShrinks(z, cursor, limit);
      BelowKeeps(z, ScoreBound(cursor));
      var rest := Walk(z, limit, next);
      if i > 0 {
        assert Walk(z, limit, cursor)[i] == rest[i - 1];
        PageEndsInColumn(z, limit, next, i - 1);
      }
    }
  }

  /** Complete for every page size if and only if no two tasks share a millisecond. */
  lemma CompleteIffDistinct(z: ZSet)
    requires OwnScores(z) && NoMarker(z)
    ensures (forall limit: nat :: limit > 0 ==> Complete(z, limit)) <==> DistinctTimes(z)
  {
    BelowKeeps(z, None);
    if DistinctTimes(z) {
      forall limit: nat | limit > 0 ensures Complete(z, limit) {
        WalkVisits(z, limit, None);
        var pages := Walk(z, limit, None);
        forall id | Own(id) in z ensures !CutOff(pages, limit, id) {
          if CutOff(pages, limit, id) {
            var i :| 0 <= i < |pages| && CutOffBy(NextCursor(pages[i], limit), id);
            PageEndsInColumn(z, limit, None, i);
          }
        }
      }
    } else {
      var d, e :| d in z && e in z && d.score == e.score && d != e;
      EntryOrder();
      if EntryLess(d, e) {
        OneByOneSkips(z, e.member.id, d.member.id);
      } else {
        OneByOneSkips(z, d.member.id, e.member.id);
      }
    }
  }

  /** One id a page: of two tasks in one millisecond, the lower is never returned. */
  lemma OneByOneSkips(z: ZSet, high: Uuid, low: Uuid)
    requires OwnScores(z) && NoMarker(z) && Own(high) in z && Own(low) in z
    requires high.ms == low.ms && Less(low, high)
    ensures !Complete(z, 1)
  {
    BelowKeeps(z, None);
    WalkVisits(z, 1, None);
    var pages := Walk(z, 1, None);
    if high in Flat(pages) {
      OnSomePage(pages, high);
      var j :| 0 <= j < |pages| && high in pages[j];
      OneIdPages(z, None, j);
      CutsOffLow(pages, j, high, low);
    } else {
      var j :| 0 <= j < |pages| && CutOffBy(NextCursor(pages[j], 1), high);
      CutsOffLow(pages, j, high, low);
    }
  }

  lemma CutsOffLow(pages: seq<seq<Uuid>>, j: nat, high: Uuid, low: Uuid)
    requires j < |pages| && high.ms == low.ms && Less(low, high)
    requires pages[j] == [high] || CutOffBy(NextCursor(pages[j], 1), high)
    ensures CutOff(pages, 1, low)
  {
    assert CutOffBy(NextCursor(pages[j], 1), low);
  }

  lemma {:induction false} OnSomePage(pages: seq<seq<Uuid>>, id: Uuid)
    requires id in Flat(pages)
    ensures exists i :: 0 <= i < |pages| && id in pages[i]
    decreases pages
  {
    if id !in pages[0] {
      OnSomePage(pages[1..], id);
      var i :| 0 <= i < |pages[1..]| && id in pages[1..][i];
      assert id in pages[i + 1];
    } else {
      assert id in pages[0];
    }
  }

  lemma {:induction false} OneIdPages(z: ZSet, cursor: Option<Uuid>, i: nat)
    requires OwnScores(z) && NoMarker(z)
    requires cursor.Some? ==> IsV7(cursor.value)
    requires i < |Walk(z, 1, cursor)|
    ensures |Walk(z, 1, cursor)[i]| <= 1
    decreases i
  {
    BoundOnPage(z, cursor, 1);
    var next := NextCursor(PageIds(z, 1, cursor), 1);
    if i > 0 && next.Some? {
      BelowShrinks(z, cursor, 1);
      OneIdPages(z, next, i - 1);
    }
  }
}
