/** Lists made of what each element of another list contributes. */
module Collecting {
  /** The concatenation of what `f` makes of each element. */
  function Collect<E, X>(f: E -> seq<X>, s: seq<E>): seq<X> {
    if s == [] then [] else f(s[0]) + Collect(f, s[1..])
  }

  lemma {:induction false} CollectConcat<E, X>(f: E -> seq<X>, a: seq<E>, b: seq<E>)
    ensures Collect(f, a + b) == Collect(f, a) + Collect(f, b)
    decreases a
  {
    if a == [] {
      assert a + b == b;
    } else {
      assert (a + b)[1..] == a[1..] + b;
      CollectConcat(f, a[1..], b);
    }
  }

  lemma CollectAdd<E, X>(f: E -> seq<X>, s: seq<E>, e: E)
    ensures Collect(f, s + [e]) == Collect(f, s) + f(e)
  {
    CollectConcat(f, s, [e]);
    assert [e][1..] == [];
    assert f(e) + [] == f(e);
  }
}
