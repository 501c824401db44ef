/**
 How many statements the halving search issues when the database rejects a batch exactly
 if it contains a poisonous row, and the bounds on that number.
 */
module SplitCost {
  import opened Powers

  function Poisonous<R>(rejects: R -> bool, rows: seq<R>): (k: nat)
    ensures k <= |rows|
  {
    if rows == [] then 0 else (if rejects(rows[0]) then 1 else 0) + Poisonous(rejects, rows[1..])
  }

  lemma {:induction false} PoisonousConcat<R>(rejects: R -> bool, a: seq<R>, b: seq<R>)
    ensures Poisonous(rejects, a + b) == Poisonous(rejects, a) + Poisonous(rejects, b)
  {
    if a == [] {
      assert a + b == b;
    } else {
      assert (a + b)[1..] == a[1..] + b;
      PoisonousConcat(rejects, a[1..], b);
    }
  }

  /** The statements of one run: one for the batch, and two halves below it if it is rejected. */
  function Statements<R>(rejects: R -> bool, rows: seq<R>): nat
    decreases |rows|
  {
    if rows == [] then 0
    else if Poisonous(rejects, rows) == 0 || |rows| == 1 then 1
    else 1 + Statements(rejects, rows[..|rows| / 2]) + Statements(rejects, rows[|rows| / 2..])
  }

  /** The ceiling of the binary logarithm: the least `l` with `n <= 2^l`. */
  function CeilLog2(n: nat): (l: nat)
    ensures n <= Pow2(l)
    ensures forall m: nat :: n <= Pow2(m) ==> l <= m
  {
    if n <= 1 then 0
    else
      var l := CeilLog2((n + 1) / 2);
      assert forall m: nat :: n <= Pow2(m) ==> m > 0 && (n + 1) / 2 <= Pow2(m - 1);
      1 + l
  }

  lemma HalvesArithmetic(k: nat, kl: nat, kr: nat, l: nat, nl: nat, nr: nat)
    requires l > 0 && k == kl + kr > 0
    requires nl <= 1 + 2 * (kl * (l - 1)) && nr <= 1 + 2 * (kr * (l - 1))
    ensures 1 + nl + nr <= 1 + 2 * (k * l)
  {
    assert (kl + kr) * l == kl * (l - 1) + kr * (l - 1) + kl + kr;
  }

  lemma {:induction false} LevelBound<R>(rejects: R -> bool, rows: seq<R>, l: nat)
    requires 0 < |rows| <= Pow2(l)
    ensures Statements(rejects, rows) <= 1 + 2 * (Poisonous(rejects, rows) * l)
    decreases |rows|, 1
  {
    if Poisonous(rejects, rows) > 0 && |rows| > 1 {
      HalvesBound(rejects, rows, l);
    } else {
      assert Poisonous(rejects, rows) * l >= 0;
    }
  }

  lemma {:induction false} HalvesBound<R>(rejects: R -> bool, rows: seq<R>, l: nat)
    requires 1 < |rows| <= Pow2(l) && Poisonous(rejects, rows) > 0
    ensures Statements(rejects, rows) <= 1 + 2 * (Poisonous(rejects, rows) * l)
    decreases |rows|, 0
  {
    var left, right := rows[..|rows| / 2], rows[|rows| / 2..];
    assert left + right == rows;
    PoisonousConcat(rejects, left, right);
    LevelBound(rejects, left, l - 1);
    LevelBound(rejects, right, l - 1);
    HalvesArithmetic(Poisonous(rejects, rows), Poisonous(rejects, left), Poisonous(rejects, right), l,
                     Statements(rejects, left), Statements(rejects, right));
  }

  /** Few poisonous rows cost few statements: one plus two per poisonous row and level. */
  lemma {:induction false} LogBound<R>(rejects: R -> bool, rows: seq<R>)
    requires rows != []
    ensures Statements(rejects, rows) <= 1 + 2 * (Poisonous(rejects, rows) * CeilLog2(|rows|))
  {
    LevelBound(rejects, rows, CeilLog2(|rows|));
  }

  /** However many rows are poisonous, a run never needs more than `2n - 1` statements. */
  lemma {:induction false} LinearBound<R>(rejects: R -> bool, rows: seq<R>)
    requires rows != []
    ensures Statements(rejects, rows) <= 2 * |rows| - 1
    decreases |rows|
  {
    if Poisonous(rejects, rows) > 0 && |rows| > 1 {
      LinearBound(rejects, rows[..|rows| / 2]);
      LinearBound(rejects, rows[|rows| / 2..]);
    }
  }

  /** The linear bound is reached when every row is poisonous. */
  lemma {:induction false} LinearBoundTight<R>(rejects: R -> bool, rows: seq<R>)
    requires rows != [] && Poisonous(rejects, rows) == |rows|
    ensures Statements(rejects, rows) == 2 * |rows| - 1
    decreases |rows|
  {
    if |rows| > 1 {
      var left, right := rows[..|rows| / 2], rows[|rows| / 2..];
      assert left + right == rows;
      PoisonousConcat(rejects, left, right);
      LinearBoundTight(rejects, left);
      LinearBoundTight(rejects, right);
    }
  }
}
