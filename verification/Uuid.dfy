/**
 UUIDs of version 7 (sections 5.7 and 6.11 of RFC 9562): a 48-bit millisecond timestamp in
 front of 80 further bits.  The services compare them as strings, as database keys and by the
 score they compute from the timestamp; this module shows that these orders fit together, so
 that the others can work with the pair of timestamp and rest.
 */
module Uuid {
  import opened Powers

  datatype Uuid = Uuid(ms: nat, version: nat, rest: nat)

  /** The order of ids: timestamp first. */
  predicate Less(a: Uuid, b: Uuid) {
    if a.ms != b.ms then a.ms < b.ms
    else if a.version != b.version then a.version < b.version
    else a.rest < b.rest
  }

  predicate IsV7(u: Uuid) {
    u.version == 7
  }

  /******* Canonical strings *******/

  predicate IsHex(c: char) {
    '0' <= c <= '9' || 'a' <= c <= 'f'
  }

  function HexVal(c: char): (v: nat)
    requires IsHex(c)
    ensures v < 16
  {
    if c <= '9' then (c - '0') as int else (c - 'a') as int + 10
  }

  predicate IsDash(i: int) {
    i == 8 || i == 13 || i == 18 || i == 23
  }

  /** Lower-case canonical form: 8-4-4-4-12 hexadecimal digits. */
  predicate Canonical(s: string) {
    |s| == 36 && forall i :: 0 <= i < |s| ==> if IsDash(i) then s[i] == '-' else IsHex(s[i])
  }

  /** Digits and dashes only. */
  predicate Hexes(s: string) {
    forall i :: 0 <= i < |s| ==> s[i] == '-' || IsHex(s[i])
  }

  /** The big-endian number that the digits spell. */
  function Number(s: string): nat
    requires Hexes(s)
  {
    if s == [] then 0
    else
      var n, c := Number(s[..|s| - 1]), s[|s| - 1];
      if c == '-' then n else 16 * n + HexVal(c)
  }

  /** The order of two strings of one length: by the first character that differs. */
  ghost predicate StringLess(a: string, b: string)
    requires |a| == |b|
  {
    exists k :: 0 <= k < |a| && a[..k] == b[..k] && a[k] < b[k]
  }

  /** Dashes at the same places. */
  predicate SameShape(a: string, b: string) {
    && |a| == |b| && Hexes(a) && Hexes(b)
    && forall i :: 0 <= i < |a| ==> (a[i] == '-' <==> b[i] == '-')
  }

  /** Comparing two strings is comparing their fronts first. */
  lemma StringLessSplit(a: string, b: string, m: nat)
    requires m <= |a| == |b|
    ensures StringLess(a, b) <==>
            StringLess(a[..m], b[..m]) || (a[..m] == b[..m] && StringLess(a[m..], b[m..]))
  {
    if StringLess(a, b) {
      FrontOrBack(a, b, m);
    }
    if StringLess(a[..m], b[..m]) {
      var k :| 0 <= k < m && a[..m][..k] == b[..m][..k] && a[..m][k] < b[..m][k];
      assert a[..k] == a[..m][..k] && b[..k] == b[..m][..k];
    } else if a[..m] == b[..m] && StringLess(a[m..], b[m..]) {
      var k :| 0 <= k < |a[m..]| && a[m..][..k] == b[m..][..k] && a[m..][k] < b[m..][k];
      assert a[..m + k] == a[..m] + a[m..][..k] && b[..m + k] == b[..m] + b[m..][..k];
      assert a[m + k] < b[m + k];
    }
  }

  lemma FrontOrBack(a: string, b: string, m: nat)
    requires m <= |a| == |b| && StringLess(a, b)
    ensures StringLess(a[..m], b[..m]) || (a[..m] == b[..m] && StringLess(a[m..], b[m..]))
  {
    var k :| 0 <= k < |a| && a[..k] == b[..k] && a[k] < b[k];
    if k < m {
      assert a[..m][..k] == a[..k] && b[..m][..k] == b[..k];
      assert a[..m][k] < b[..m][k];
    } else {
      assert a[..m] == a[..k][..m] && b[..m] == b[..k][..m];
      assert a[m..][..k - m] == a[..k][m..] && b[m..][..k - m] == b[..k][m..];
      assert a[m..][k - m] < b[m..][k - m];
    }
  }

  lemma StringLessOne(a: string, b: string)
    requires |a| == |b| == 1
    ensures StringLess(a, b) <==> a[0] < b[0]
  {
    assert a[..0] == b[..0];
  }

  lemma HexOrder(c: char, d: char)
    requires IsHex(c) && IsHex(d)
    ensures c < d <==> HexVal(c) < HexVal(d)
    ensures c == d <==> HexVal(c) == HexVal(d)
  {
  }

  /** String order is big-endian numeric order, and the string is determined by its number. */
  lemma {:induction false} StringOrderIsNumeric(a: string, b: string)
    requires SameShape(a, b)
    ensures StringLess(a, b) <==> Number(a) < Number(b)
    ensures a == b <==> Number(a) == Number(b)
    decreases |a|
  {
    if a != [] {
      var m := |a| - 1;
      StringOrderIsNumeric(a[..m], b[..m]);
      StringLessSplit(a, b, m);
      StringLessOne(a[m..], b[m..]);
      LastDigitDecides(a, b);
    }
  }

  lemma LastDigitDecides(a: string, b: string)
    requires SameShape(a, b) && a != []
    ensures var m := |a| - 1;
            var n, n' := Number(a[..m]), Number(b[..m]);
            && (Number(a) < Number(b) <==> n < n' || (n == n' && a[m] < b[m]))
            && (Number(a) == Number(b) <==> n == n' && a[m] == b[m])
            && (a == b <==> a[..m] == b[..m] && a[m] == b[m])
  {
    var m := |a| - 1;
    assert a == a[..m] + [a[m]] && b == b[..m] + [b[m]];
    if a[m] != '-' {
      HexOrder(a[m], b[m]);
    }
  }

  /** uuid.Parse on canonical strings: timestamp digits, version digit and remaining digits. */
  function Parse(s: string): Uuid
    requires Canonical(s)
  {
    Uuid(Number(s[..13]), Number(s[13..15]), Number(s[15..]))
  }

  /** The order of two ids as strings, by their three parts. */
  lemma PartsOrder(a: string, b: string)
    requires Canonical(a) && Canonical(b)
    ensures StringLess(a, b) <==>
            || StringLess(a[..13], b[..13])
            || (a[..13] == b[..13] &&
                (StringLess(a[13..15], b[13..15]) || (a[13..15] == b[13..15] && StringLess(a[15..], b[15..]))))
  {
    StringLessSplit(a, b, 13);
    StringLessSplit(a[13..], b[13..], 2);
    assert a[13..][..2] == a[13..15] && b[13..][..2] == b[13..15];
    assert a[13..][2..] == a[15..] && b[13..][2..] == b[15..];
  }

  lemma PartsEqual(a: string, b: string)
    requires Canonical(a) && Canonical(b)
    ensures a == b <==> a[..13] == b[..13] && a[13..15] == b[13..15] && a[15..] == b[15..]
  {
    assert a == a[..13] + a[13..15] + a[15..] && b == b[..13] + b[13..15] + b[15..];
  }

  /** On canonical strings, string order is id order. */
  lemma ParseKeepsOrder(a: string, b: string)
    requires Canonical(a) && Canonical(b)
    ensures StringLess(a, b) <==> Less(Parse(a), Parse(b))
    ensures a == b <==> Parse(a) == Parse(b)
  {
    PartsOrder(a, b);
    PartsEqual(a, b);
    StringOrderIsNumeric(a[..13], b[..13]);
    StringOrderIsNumeric(a[13..15], b[13..15]);
    StringOrderIsNumeric(a[15..], b[15..]);
  }

  /** The version digit is the one in front of the third group. */
  lemma VersionDigit(s: string)
    requires Canonical(s)
    ensures Parse(s).version == HexVal(s[14])
  {
    var two, one := s[13..15], [s[13]];
    assert two[..1] == one && two[1] == s[14] && Hexes(two) && Hexes(one);
    assert one[..0] == [] && Number(one) == 0;
    assert Number(two) == 16 * Number(two[..1]) + HexVal(s[14]);
  }

  /******* The score *******/

  /** Bitwise or of natural numbers. */
  function Or(x: nat, y: nat): nat
    decreases x + y
  {
    if x == 0 && y == 0 then 0
    else 2 * Or(x / 2, y / 2) + (if x % 2 == 1 || y % 2 == 1 then 1 else 0)
  }

  /** Shift left. */
  function Shl(x: nat, k: nat): nat {
    if k == 0 then x else 2 * Shl(x, k - 1)
  }

  lemma {:induction false} OrZero(x: nat)
    ensures Or(x, 0) == x
  {
    if x > 0 {
      OrZero(x / 2);
    }
  }

  /** Where the bits do not meet, or is addition. */
  lemma {:induction false} OrDisjoint(x: nat, k: nat, y: nat)
    requires y < Pow2(k)
    ensures Or(Shl(x, k), y) == Shl(x, k) + y
  {
    if k == 0 {
      OrZero(x);
    } else {
      OrDisjoint(x, k - 1, y / 2);
    }
  }

  /** Byte `i` of the timestamp, as uuid.Parse reads it from the digits of the string. */
  function TimeByte(s: string, i: nat): (b: nat)
    requires Canonical(s) && i < 6
    ensures b < 256
  {
    var at := if i < 4 then 2 * i else 2 * i + 1;
    16 * HexVal(s[at]) + HexVal(s[at + 1])
  }

  /** Six bytes, shifted into place and or-ed. */
  function ShiftOr(b0: nat, b1: nat, b2: nat, b3: nat, b4: nat, b5: nat): nat {
    Or(Or(Or(Or(Or(Shl(b0, 40), Shl(b1, 32)), Shl(b2, 24)), Shl(b3, 16)), Shl(b4, 8)), b5)
  }

  /** getUUIDv7Score behind its version check. */
  function Score(s: string): nat
    requires Canonical(s)
  {
    ShiftOr(TimeByte(s, 0), TimeByte(s, 1), TimeByte(s, 2), TimeByte(s, 3), TimeByte(s, 4), TimeByte(s, 5))
  }

  lemma {:induction false} ShlByte(acc: nat, b: nat, k: nat)
    requires b < 256
    ensures Shl(acc, k + 8) == Shl(256 * acc, k)
    ensures Shl(acc, k + 8) + Shl(b, k) == Shl(256 * acc + b, k)
    ensures Shl(b, k) < Pow2(k + 8)
  {
    if k == 0 {
      assert Shl(acc, 1) == 2 * acc && Pow2(1) == 2;
      assert Shl(acc, 2) == 4 * acc && Pow2(2) == 4;
      assert Shl(acc, 3) == 8 * acc && Pow2(3) == 8;
      assert Shl(acc, 4) == 16 * acc && Pow2(4) == 16;
      assert Shl(acc, 5) == 32 * acc && Pow2(5) == 32;
      assert Shl(acc, 6) == 64 * acc && Pow2(6) == 64;
      assert Shl(acc, 7) == 128 * acc && Pow2(7) == 128;
      assert Shl(acc, 8) == 256 * acc && Pow2(8) == 256;
    } else {
      ShlByte(acc, b, k - 1);
    }
  }

  /** One more byte below those already in place. */
  lemma OrStep(acc: nat, k: nat, b: nat)
    requires b < 256
    ensures Or(Shl(acc, k + 8), Shl(b, k)) == Shl(256 * acc + b, k)
  {
    ShlByte(acc, b, k);
    OrDisjoint(acc, k + 8, Shl(b, k));
  }

  /** Six bytes as a big-endian number. */
  function BigEndian(b0: nat, b1: nat, b2: nat, b3: nat, b4: nat, b5: nat): nat {
    256 * (256 * (256 * (256 * (256 * b0 + b1) + b2) + b3) + b4) + b5
  }

  lemma FirstFourShifted(b0: nat, b1: nat, b2: nat, b3: nat)
    requires b1 < 256 && b2 < 256 && b3 < 256
    ensures Or(Or(Or(Shl(b0, 40), Shl(b1, 32)), Shl(b2, 24)), Shl(b3, 16))
         == Shl(256 * (256 * (256 * b0 + b1) + b2) + b3, 16)
  {
    OrStep(b0, 32, b1);
    OrStep(256 * b0 + b1, 24, b2);
    OrStep(256 * (256 * b0 + b1) + b2, 16, b3);
  }

  lemma ShiftOrIsBigEndian(b0: nat, b1: nat, b2: nat, b3: nat, b4: nat, b5: nat)
    requires b1 < 256 && b2 < 256 && b3 < 256 && b4 < 256 && b5 < 256
    ensures ShiftOr(b0, b1, b2, b3, b4, b5) == BigEndian(b0, b1, b2, b3, b4, b5)
  {
    var first := 256 * (256 * (256 * b0 + b1) + b2) + b3;
    FirstFourShifted(b0, b1, b2, b3);
    OrStep(first, 8, b4);
    OrStep(256 * first + b4, 0, b5);
  }

  lemma NumberStep(s: string, k: nat)
    requires k < |s| && Hexes(s)
    ensures Number(s[..k + 1]) ==
            if s[k] == '-' then Number(s[..k]) else 16 * Number(s[..k]) + HexVal(s[k])
  {
    assert s[..k + 1][..k] == s[..k];
  }

  /** Two digits add a byte. */
  lemma NumberByte(s: string, i: nat)
    requires Canonical(s) && i < 6
    ensures var at := if i < 4 then 2 * i else 2 * i + 1;
            Number(s[..at + 2]) == 256 * Number(s[..at]) + TimeByte(s, i)
  {
    var at := if i < 4 then 2 * i else 2 * i + 1;
    NumberStep(s, at);
    NumberStep(s, at + 1);
  }

  lemma FirstFourBytes(s: string)
    requires Canonical(s)
    ensures Number(s[..8]) ==
            256 * (256 * (256 * TimeByte(s, 0) + TimeByte(s, 1)) + TimeByte(s, 2)) + TimeByte(s, 3)
  {
    assert s[..0] == [];
    NumberByte(s, 0);
    NumberByte(s, 1);
    NumberByte(s, 2);
    NumberByte(s, 3);
  }

  lemma LastTwoBytes(s: string)
    requires Canonical(s)
    ensures Number(s[..13]) == 256 * (256 * Number(s[..8]) + TimeByte(s, 4)) + TimeByte(s, 5)
  {
    NumberStep(s, 8);
    NumberByte(s, 4);
    NumberByte(s, 5);
  }

  lemma TimestampIsBigEndian(s: string)
    requires Canonical(s)
    ensures Number(s[..13]) ==
            BigEndian(TimeByte(s, 0), TimeByte(s, 1), TimeByte(s, 2), TimeByte(s, 3), TimeByte(s, 4), TimeByte(s, 5))
  {
    FirstFourBytes(s);
    LastTwoBytes(s);
  }

  /**
   The shift-or score is the timestamp, the first 48 bits of the id; it is below 2^53, so a
   float64 holds it exactly.
   */
  lemma ScoreIsTimestamp(s: string)
    requires Canonical(s)
    ensures Score(s) == Parse(s).ms < 0x1_0000_0000_0000 < 0x20_0000_0000_0000
  {
    TimestampIsBigEndian(s);
    ShiftOrIsBigEndian(TimeByte(s, 0), TimeByte(s, 1), TimeByte(s, 2), TimeByte(s, 3), TimeByte(s, 4), TimeByte(s, 5));
  }

  /** Id order refines score order. */
  lemma ScoreMonotone(a: string, b: string)
    requires Canonical(a) && Canonical(b) && StringLess(a, b)
    ensures Score(a) <= Score(b)
  {
    ParseKeepsOrder(a, b);
    ScoreIsTimestamp(a);
    ScoreIsTimestamp(b);
  }

  /** The example of appendix A.6 of RFC 9562. */
  lemma RfcExample(s: string)
    requires s == "017f22e2-79b0-7cc3-98c4-dc0c0c07398f"
    ensures Canonical(s) && Parse(s).ms == Score(s) == 0x017F22E279B0 && IsV7(Parse(s))
  {
    VersionDigit(s);
    ScoreIsTimestamp(s);
    RfcDigits(s);
    RfcTimestamp(s[..13]);
  }

  lemma RfcDigits(s: string)
    requires s == "017f22e2-79b0-7cc3-98c4-dc0c0c07398f"
    ensures Canonical(s) && HexVal(s[14]) == 7 && s[..13] == "017f22e2-79b0"
  {
  }

  lemma RfcTimestamp(t: string)
    requires t == "017f22e2-79b0"
    ensures Hexes(t) && Number(t) == 0x017F22E279B0
  {
    var first := t[..8];
    RfcFirst(first);
    assert t[..9] == first + "-";
    NumberStep(t, 8);
    assert t[..9][..8] == first && t[..8] == first;
    NumberStep(t, 9);
    NumberStep(t, 10);
    NumberStep(t, 11);
    NumberStep(t, 12);
    assert t[..13] == t;
  }

  lemma RfcFirst(t: string)
    requires t == "017f22e2"
    ensures Hexes(t) && Number(t) == 0x017F22E2
  {
    var four := t[..4];
    RfcFour(four);
    assert t[..5][..4] == four;
    NumberStep(t, 4);
    NumberStep(t, 5);
    NumberStep(t, 6);
    NumberStep(t, 7);
    assert t[..8] == t;
  }

  lemma RfcFour(t: string)
    requires t == "017f"
    ensures Hexes(t) && Number(t) == 0x017F
  {
    assert t[..0] == "";
    NumberStep(t, 0);
    NumberStep(t, 1);
    NumberStep(t, 2);
    NumberStep(t, 3);
    assert t[..4] == t;
  }
}
