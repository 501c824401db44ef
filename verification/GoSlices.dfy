/**
 Go slices: a window on a backing array that may be shared with other slices.  Only the
 two-index forms `s[:m]` and `s[m:]` are modelled, so the capacity of a window always runs
 on to the capacity of the slice it was cut from.
 */
module GoSlices {
  /** The cells `lo` to `hi` of an array, read from the front. */
  function Cells<R>(a: array<R>, lo: nat, hi: nat): (s: seq<R>)
    requires lo <= hi <= a.Length
    reads a
    ensures |s| == hi - lo
    decreases hi - lo
  {
    if lo == hi then [] else [a[lo]] + Cells(a, lo + 1, hi)
  }

  lemma {:induction false} CellsAreSubarray<R>(a: array<R>, lo: nat, hi: nat)
    requires lo <= hi <= a.Length
    ensures Cells(a, lo, hi) == a[lo..hi]
    decreases hi - lo
  {
    if lo < hi {
      CellsAreSubarray(a, lo + 1, hi);
    }
  }

  /** `Nil` is Go's nil slice: no backing array, length and capacity zero. */
  datatype Slice<R> = Nil | Window(arr: array<R>, off: nat, len: nat, cap: nat) {
    ghost predicate Valid() {
      Window? ==> len <= cap && off + cap <= arr.Length
    }

    function Len(): nat {
      if Nil? then 0 else len
    }

    /** The elements the slice shows. */
    function Elems(): (s: seq<R>)
      requires Valid()
      reads if Window? then {arr} else {}
      ensures |s| == Len()
    {
      if Nil? then [] else Cells(arr, off, off + len)
    }

    /** `s[:m]` keeps the whole capacity: the spare room reaches over the rest of `s`. */
    function UpTo(m: nat): (s: Slice<R>)
      requires Window? && Valid() && m <= len
      ensures s.Valid() && s.Window? && s.arr == arr
    {
      Window(arr, off, m, cap)
    }

    /** `s[m:]` */
    function From(m: nat): (s: Slice<R>)
      requires Window? && Valid() && m <= len
      ensures s.Valid() && s.Window? && s.arr == arr
    {
      Window(arr, off + m, len - m, cap - m)
    }

    ghost function Backing(): set<object> {
      if Nil? then {} else {arr}
    }
  }

  /** What the cells of a slice hold is what the slice shows. */
  lemma ElemsAre<R>(s: Slice<R>, elems: seq<R>)
    requires s.Window? && s.Valid() && |elems| == s.len
    requires forall i :: 0 <= i < s.len ==> s.arr[s.off + i] == elems[i]
    ensures s.Elems() == elems
  {
    CellsAreSubarray(s.arr, s.off, s.off + s.len);
  }

  lemma ElemsAt<R>(s: Slice<R>)
    requires s.Window? && s.Valid()
    ensures forall i :: 0 <= i < s.len ==> s.Elems()[i] == s.arr[s.off + i]
  {
    CellsAreSubarray(s.arr, s.off, s.off + s.len);
  }

  /** The two halves `s[:m]` and `s[m:]` show the first and the other elements. */
  lemma SplitElems<R>(s: Slice<R>, m: nat)
    requires s.Window? && s.Valid() && m <= s.len
    ensures s.UpTo(m).Elems() == s.Elems()[..m]
    ensures s.From(m).Elems() == s.Elems()[m..]
  {
    ElemsAt(s);
    ElemsAre(s.UpTo(m), s.Elems()[..m]);
    ElemsAre(s.From(m), s.Elems()[m..]);
  }

  /** `added` stored right behind the elements of `s`, over its spare capacity. */
  method StoreBehind<R(0)>(s: Slice<R>, added: seq<R>) returns (r: Slice<R>)
    requires s.Window? && s.Valid() && s.len + |added| <= s.cap
    modifies s.arr
    ensures r == Window(s.arr, s.off, s.len + |added|, s.cap)
    ensures r.Valid() && r.Elems() == old(s.Elems()) + added
    ensures forall i :: 0 <= i < s.arr.Length && !(s.off + s.len <= i < s.off + s.len + |added|) ==>
                          s.arr[i] == old(s.arr[i])
  {
    var a, at := s.arr, s.off + s.len;
    ElemsAt(s);
    ghost var all := s.Elems() + added;
    forall i | at <= i < at + |added| {
      a[i] := added[i - at];
    }
    r := Window(a, s.off, s.len + |added|, s.cap);
    ElemsAre(r, all);
  }

  /** A new array that holds `all` and some spare room. */
  method NewSlice<R(0)>(all: seq<R>) returns (r: Slice<R>)
    ensures r.Window? && fresh(r.arr) && r.Valid() && r.Elems() == all
  {
    var spare: nat :| true;
    var a := new R[|all| + spare];
    forall i | 0 <= i < |all| {
      a[i] := all[i];
    }
    r := Window(a, 0, |all|, a.Length);
    ElemsAre(r, all);
  }

  /**
   Go's `append(s, extra...)`.  When the spare capacity of `s` suffices, the elements are
   copied into the backing array of `s`, over whatever other slices show there; otherwise
   the result lives in a new array, with some spare room.
   */
  method Append<R(0)>(s: Slice<R>, extra: Slice<R>) returns (r: Slice<R>)
    requires s.Valid() && extra.Valid()
    modifies s.Backing()
    ensures r.Valid() && r.Elems() == old(s.Elems() + extra.Elems())
    ensures extra.Len() == 0 ==> r == s
    ensures extra.Len() > 0 && s.Window? && s.len + extra.Len() <= s.cap ==>
              r == Window(s.arr, s.off, s.len + extra.Len(), s.cap)
    ensures extra.Len() > 0 && !(s.Window? && s.len + extra.Len() <= s.cap) ==>
              r.Window? && fresh(r.arr)
    ensures s.Window? ==>
              forall i :: 0 <= i < s.arr.Length &&
                          !(s.off + s.len <= i < s.off + s.len + extra.Len() <= s.off + s.cap) ==>
                            s.arr[i] == old(s.arr[i])
  {
    if extra.Len() == 0 {
      return s;
    }
    if s.Window? && s.len + extra.len <= s.cap {
      r := StoreBehind(s, extra.Elems());
    } else {
      r := NewSlice(s.Elems() + extra.Elems());
    }
  }
}
