/**
 Walks over a cached list, page after page, while other requests create entries, read, or the
 cache expires between the pages.
 */
module ListWalk {
  import opened Wrappers
  import opened Uuid
  import opened SortedSeq
  import opened ColumnCache
  import opened ColumnWalk
  import opened ListCache

  /** How many entries of `key` the events create. */
  function Creations(es: seq<Event>, key: nat): nat {
    if es == [] then 0
    else (if es[0].Created? && es[0].key == key then 1 else 0) + Creations(es[1..], key)
  }

  function AllCreations(gaps: seq<seq<Event>>, key: nat): nat {
    if gaps == [] then 0 else Creations(gaps[0], key) + AllCreations(gaps[1..], key)
  }

  /** Ids are only ever added, one for each creation. */
  lemma {:induction false} RunAddsIds(l: Lists, kind: Kind, es: seq<Event>, key: nat)
    ensures var ids, ids' := KeyIds(l.rows, key), KeyIds(Run(l, kind, es).rows, key);
            && |ids'| == |ids| + Creations(es, key)
            && (forall u :: u in ids ==> u in ids')
            && (forall u :: u in ids' ==> u in ids || Created(key, u) in es)
    decreases es
  {
    if es != [] {
      var l1 := Step(l, kind, es[0]);
      RunAddsIds(l1, kind, es[1..], key);
      if es[0].Created? {
        KeyIdsAdd(l.rows, Listing(es[0].key, es[0].id), key);
      }
      assert es == [es[0]] + es[1..];
      assert forall u :: u in KeyIds(l1.rows, key) ==> u in KeyIds(l.rows, key) || Created(key, u) == es[0];
    }
  }

  function Gap(gaps: seq<seq<Event>>): seq<Event> {
    if gaps == [] then [] else gaps[0]
  }

  function LaterGaps(gaps: seq<seq<Event>>): seq<seq<Event>> {
    if gaps == [] then [] else gaps[1..]
  }

  /** All ids of the key, with those that the gaps will create, are within what a load brings. */
  predicate Fits(l: Lists, kind: Kind, key: nat, gaps: seq<seq<Event>>) {
    |KeyIds(l.rows, key)| + AllCreations(gaps, key) <= kind.cap
  }

  function Remaining(l: Lists, key: nat, cursor: Option<Uuid>): seq<Uuid> {
    Filter(Under(cursor), Sorted(l.rows, key))
  }

  lemma RemainingIs(l: Lists, key: nat, cursor: Option<Uuid>)
    ensures Descending(Less, Remaining(l, key, cursor))
    ensures forall u :: u in Remaining(l, key, cursor) <==> u in KeyIds(l.rows, key) && Before(u, cursor)
  {
    SortedIs(l.rows, key);
    FilterMembers(Under(cursor), Sorted(l.rows, key));
    FilterDescending(Less, Under(cursor), Sorted(l.rows, key));
  }

  lemma {:induction false} FilterShrinks(s: seq<Uuid>, cursor: Option<Uuid>, last: Uuid)
    requires Before(last, cursor)
    ensures |Filter(Under(Some(last)), s)| <= |Filter(Under(cursor), s)|
    ensures last in s ==> |Filter(Under(Some(last)), s)| < |Filter(Under(cursor), s)|
    decreases s
  {
    if s != [] {
      FilterShrinks(s[1..], cursor, last);
      assert s == [s[0]] + s[1..];
    }
  }

  /** The state when the next page is read. */
  function AfterGap(l: Lists, kind: Kind, key: nat, gaps: seq<seq<Event>>): Lists {
    Run(AfterRead(l, kind, key), kind, Gap(gaps))
  }

  lemma AfterGapKeeps(l: Lists, kind: Kind, key: nat, gaps: seq<seq<Event>>)
    requires ListsOk(l, kind) && kind.cap > 0 && Fits(l, kind, key, gaps)
    ensures ListsOk(AfterGap(l, kind, key, gaps), kind)
    ensures Fits(AfterGap(l, kind, key, gaps), kind, key, LaterGaps(gaps))
    ensures gaps == [] ==> AfterGap(l, kind, key, gaps).rows == l.rows
  {
    ReadKeeps(l, kind, key);
    RunKeeps(AfterRead(l, kind, key), kind, Gap(gaps));
    RunAddsIds(AfterRead(l, kind, key), kind, Gap(gaps), key);
  }

  /** A page is the top of what remains. */
  lemma PageIsTop(l: Lists, kind: Kind, key: nat, limit: nat, cursor: Option<Uuid>, gaps: seq<seq<Event>>)
    requires ListsOk(l, kind) && Fits(l, kind, key, gaps)
    ensures ReadPage(l, kind, key, limit, cursor) == Take(Remaining(l, key, cursor), limit)
  {
    SmallIsWithinCap(l.rows, kind, key, limit, cursor);
    PageAgrees(l, kind, key, limit, cursor);
  }

  lemma WalkAdvances(l: Lists, kind: Kind, key: nat, limit: nat, cursor: Option<Uuid>, gaps: seq<seq<Event>>)
    requires ListsOk(l, kind) && kind.cap > 0 && Fits(l, kind, key, gaps)
    requires NextCursor(ReadPage(l, kind, key, limit, cursor), limit).Some?
    ensures var next := NextCursor(ReadPage(l, kind, key, limit, cursor), limit);
            && next.value in Remaining(l, key, cursor) && Before(next.value, cursor)
            && (gaps == [] ==>
                  |Remaining(AfterGap(l, kind, key, gaps), key, next)| < |Remaining(l, key, cursor)|)
  {
    var page := ReadPage(l, kind, key, limit, cursor);
    var last := page[|page| - 1];
    PageIsTop(l, kind, key, limit, cursor, gaps);
    RemainingIs(l, key, cursor);
    assert last == Remaining(l, key, cursor)[|page| - 1];
    SortedIs(l.rows, key);
    FilterShrinks(Sorted(l.rows, key), cursor, last);
    AfterGapKeeps(l, kind, key, gaps);
  }

  /** All ids that a client gets who asks for pages as long as they are full. */
  ghost function Walk(
    l: Lists, kind: Kind, key: nat, limit: nat, cursor: Option<Uuid>, gaps: seq<seq<Event>>): seq<Uuid>
    requires ListsOk(l, kind) && kind.cap > 0 && Fits(l, kind, key, gaps)
    decreases |gaps|, |Remaining(l, key, cursor)|
  {
    var page := ReadPage(l, kind, key, limit, cursor);
    var next := NextCursor(page, limit);
    if next.None? then page
    else
      WalkAdvances(l, kind, key, limit, cursor, gaps);
      AfterGapKeeps(l, kind, key, gaps);
      page + Walk(AfterGap(l, kind, key, gaps), kind, key, limit, next, LaterGaps(gaps))
  }

  ghost predicate CreatedInGaps(gaps: seq<seq<Event>>, key: nat, u: Uuid) {
    exists i :: 0 <= i < |gaps| && Created(key, u) in gaps[i]
  }

  /**
   What a walk from `cursor` is to yield: in strictly descending order, every id below the cursor
   that `rows` have, and nothing that is neither there nor created in the gaps.
   */
  ghost predicate Yields(ids: seq<Uuid>, rows: seq<Listing>, key: nat, cursor: Option<Uuid>, gaps: seq<seq<Event>>) {
    && Descending(Less, ids)
    && (forall u :: u in KeyIds(rows, key) && Before(u, cursor) ==> u in ids)
    && (forall u :: u in ids ==> Before(u, cursor) && (u in KeyIds(rows, key) || CreatedInGaps(gaps, key, u)))
  }

  /** An id remains after a full page, or was on it. */
  lemma OnPageOrRemains(
    l: Lists, kind: Kind, key: nat, limit: nat, cursor: Option<Uuid>, gaps: seq<seq<Event>>, u: Uuid)
    requires ListsOk(l, kind) && kind.cap > 0 && Fits(l, kind, key, gaps)
    requires NextCursor(ReadPage(l, kind, key, limit, cursor), limit).Some?
    ensures var page := ReadPage(l, kind, key, limit, cursor);
            var last := page[|page| - 1];
            && Descending(Less, page)
            && (u in page ==> u in Remaining(l, key, cursor) && !Less(u, last))
            && (u in Remaining(l, key, cursor) ==> u in page || Less(u, last))
  {
    IdOrder();
    PageIsTop(l, kind, key, limit, cursor, gaps);
    RemainingIs(l, key, cursor);
    var page, all := ReadPage(l, kind, key, limit, cursor), Remaining(l, key, cursor);
    assert page == all[..limit];
    if u in all {
      TakeSplits(Less, all, limit, u);
    }
    assert u in page ==> u in all;
  }

  /**
   Whatever happens between the pages, a walk yields in strictly descending order, so once each,
   every id below its cursor that was there when it started, and nothing that was neither there
   nor created meanwhile.
   */
  lemma {:induction false} WalkIsComplete(
    l: Lists, kind: Kind, key: nat, limit: nat, cursor: Option<Uuid>, gaps: seq<seq<Event>>)
    requires ListsOk(l, kind) && kind.cap > 0 && Fits(l, kind, key, gaps) && limit > 0
    ensures Yields(Walk(l, kind, key, limit, cursor, gaps), l.rows, key, cursor, gaps)
    decreases |gaps|, |Remaining(l, key, cursor)|
  {
    var page := ReadPage(l, kind, key, limit, cursor);
    var next := NextCursor(page, limit);
    PageIsTop(l, kind, key, limit, cursor, gaps);
    RemainingIs(l, key, cursor);
    if next.Some? {
      WalkAdvances(l, kind, key, limit, cursor, gaps);
      AfterGapKeeps(l, kind, key, gaps);
      WalkIsComplete(AfterGap(l, kind, key, gaps), kind, key, limit, next, LaterGaps(gaps));
      FullPageThenRest(l, kind, key, limit, cursor, gaps,
                       Walk(AfterGap(l, kind, key, gaps), kind, key, limit, next, LaterGaps(gaps)));
    } else {
      assert Take(Remaining(l, key, cursor), limit) == Remaining(l, key, cursor);
    }
  }

  /** A page and the rest together. */
  lemma FullPageThenRest(
    l: Lists, kind: Kind, key: nat, limit: nat, cursor: Option<Uuid>, gaps: seq<seq<Event>>, rest: seq<Uuid>)
    requires ListsOk(l, kind) && kind.cap > 0 && Fits(l, kind, key, gaps)
    requires NextCursor(ReadPage(l, kind, key, limit, cursor), limit).Some?
    requires Yields(rest, AfterGap(l, kind, key, gaps).rows, key,
                    NextCursor(ReadPage(l, kind, key, limit, cursor), limit), LaterGaps(gaps))
    ensures Yields(ReadPage(l, kind, key, limit, cursor) + rest, l.rows, key, cursor, gaps)
  {
    PageAboveRest(l, kind, key, limit, cursor, gaps, rest);
    var page := ReadPage(l, kind, key, limit, cursor);
    forall u | u in KeyIds(l.rows, key) && Before(u, cursor) ensures u in page + rest {
      RemainingIs(l, key, cursor);
      OnPageOrRemains(l, kind, key, limit, cursor, gaps, u);
      RunAddsIds(AfterRead(l, kind, key), kind, Gap(gaps), key);
    }
    forall u | u in page + rest
      ensures Before(u, cursor) && (u in KeyIds(l.rows, key) || CreatedInGaps(gaps, key, u))
    {
      FromPageOrRest(l, kind, key, limit, cursor, gaps, rest, u);
    }
  }

  /** The rest starts below the page. */
  lemma PageAboveRest(
    l: Lists, kind: Kind, key: nat, limit: nat, cursor: Option<Uuid>, gaps: seq<seq<Event>>, rest: seq<Uuid>)
    requires ListsOk(l, kind) && kind.cap > 0 && Fits(l, kind, key, gaps)
    requires NextCursor(ReadPage(l, kind, key, limit, cursor), limit).Some?
    requires Yields(rest, AfterGap(l, kind, key, gaps).rows, key,
                    NextCursor(ReadPage(l, kind, key, limit, cursor), limit), LaterGaps(gaps))
    ensures Descending(Less, ReadPage(l, kind, key, limit, cursor) + rest)
  {
    var page := ReadPage(l, kind, key, limit, cursor);
    OnPageOrRemains(l, kind, key, limit, cursor, gaps, page[|page| - 1]);
    forall i, j | 0 <= i < |page| && 0 <= j < |rest| ensures Less(rest[j], page[i]) {
      assert page[i] in page && rest[j] in rest;
      OnPageOrRemains(l, kind, key, limit, cursor, gaps, page[i]);
    }
  }

  lemma FromPageOrRest(
    l: Lists, kind: Kind, key: nat, limit: nat, cursor: Option<Uuid>, gaps: seq<seq<Event>>, rest: seq<Uuid>, u: Uuid)
    requires ListsOk(l, kind) && kind.cap > 0 && Fits(l, kind, key, gaps)
    requires NextCursor(ReadPage(l, kind, key, limit, cursor), limit).Some?
    requires Yields(rest, AfterGap(l, kind, key, gaps).rows, key,
                    NextCursor(ReadPage(l, kind, key, limit, cursor), limit), LaterGaps(gaps))
    requires u in ReadPage(l, kind, key, limit, cursor) || u in rest
    ensures Before(u, cursor) && (u in KeyIds(l.rows, key) || CreatedInGaps(gaps, key, u))
  {
    RemainingIs(l, key, cursor);
    if u in ReadPage(l, kind, key, limit, cursor) {
      OnPageOrRemains(l, kind, key, limit, cursor, gaps, u);
    } else {
      WalkAdvances(l, kind, key, limit, cursor, gaps);
      RunAddsIds(AfterRead(l, kind, key), kind, Gap(gaps), key);
      GapsSplit(gaps, key, u);
    }
  }

  lemma GapsSplit(gaps: seq<seq<Event>>, key: nat, u: Uuid)
    ensures CreatedInGaps(LaterGaps(gaps), key, u) || Created(key, u) in Gap(gaps) ==> CreatedInGaps(gaps, key, u)
  {
    if CreatedInGaps(LaterGaps(gaps), key, u) {
      var i :| 0 <= i < |LaterGaps(gaps)| && Created(key, u) in LaterGaps(gaps)[i];
      assert gaps[i + 1] == LaterGaps(gaps)[i];
    } else if Created(key, u) in Gap(gaps) {
      assert gaps[0] == Gap(gaps);
    }
  }
}
