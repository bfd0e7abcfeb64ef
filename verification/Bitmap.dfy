/**
 Bitmap<N>: a set of small identifiers kept in N 64-bit words, its enumeration in
 increasing order, and its hexadecimal form without leading zero bytes. Words are
 natural numbers below 2^64 and the bitwise operators act on binary digits.
 */
module Bitmap {
  import opened Basics

  // ----- binary digits -----

  function Pow2(k: nat): (p: nat)
    ensures p > 0
  {
    if k == 0 then 1 else 2 * Pow2(k - 1)
  }

  predicate Bit(w: nat, k: nat) {
    if k == 0 then w % 2 == 1 else Bit(w / 2, k - 1)
  }

  function Or(a: nat, b: nat): nat {
    if a == 0 && b == 0 then 0
    else 2 * Or(a / 2, b / 2) + if a % 2 == 1 || b % 2 == 1 then 1 else 0
  }

  /** `a & ~b`. */
  function AndNot(a: nat, b: nat): nat {
    if a == 0 then 0
    else 2 * AndNot(a / 2, b / 2) + if a % 2 == 1 && b % 2 == 0 then 1 else 0
  }

  /** `__builtin_ctzll` of a non-zero word. */
  function TrailingZeros(w: nat): nat
    requires w > 0
  {
    if w % 2 == 1 then 0 else 1 + TrailingZeros(w / 2)
  }

  lemma {:induction false} OrBit(a: nat, b: nat, k: nat)
    ensures Bit(Or(a, b), k) <==> Bit(a, k) || Bit(b, k)
  {
    if a == 0 && b == 0 {
      ZeroBit(k);
    } else {
      var low := if a % 2 == 1 || b % 2 == 1 then 1 else 0;
      if k > 0 {
        OrBit(a / 2, b / 2, k - 1);
      }
    }
  }

  lemma {:induction false} AndNotBit(a: nat, b: nat, k: nat)
    ensures Bit(AndNot(a, b), k) <==> Bit(a, k) && !Bit(b, k)
  {
    if a == 0 {
      ZeroBit(k);
    } else {
      var low := if a % 2 == 1 && b % 2 == 0 then 1 else 0;
      if k > 0 {
        AndNotBit(a / 2, b / 2, k - 1);
      }
    }
  }

  lemma {:induction false} ZeroBit(k: nat)
    ensures !Bit(0, k)
  {
    if k > 0 {
      ZeroBit(k - 1);
    }
  }

  lemma {:induction false} PowBit(j: nat, k: nat)
    ensures Bit(Pow2(j), k) <==> j == k
  {
    if j > 0 && k > 0 {
      PowBit(j - 1, k - 1);
    } else if k > 0 {
      ZeroBit(k - 1);
    }
  }

  /** `(1 << s) - 1` has exactly the bits below `s`. */
  lemma {:induction false} MaskBit(s: nat, k: nat)
    ensures Bit(Pow2(s) - 1, k) <==> k < s
  {
    if s == 0 {
      ZeroBit(k);
    } else if k > 0 {
      assert (Pow2(s) - 1) / 2 == Pow2(s - 1) - 1;
      MaskBit(s - 1, k - 1);
    }
  }

  /** A word is determined by its bits. */
  lemma {:induction false} SameBits(a: nat, b: nat)
    requires forall k: nat :: Bit(a, k) == Bit(b, k)
    ensures a == b
    decreases a + b
  {
    assert Bit(a, 0) == Bit(b, 0);
    if a + b > 0 {
      forall k: nat ensures Bit(a / 2, k) == Bit(b / 2, k) {
        assert Bit(a, k + 1) == Bit(b, k + 1);
      }
      SameBits(a / 2, b / 2);
    }
  }

  /** A word below `2^n` has no bit at or above `n`. */
  lemma {:induction false} HighBitsClear(w: nat, n: nat, k: nat)
    requires w < Pow2(n) && n <= k
    ensures !Bit(w, k)
  {
    if n == 0 {
      ZeroBit(k);
    } else {
      HighBitsClear(w / 2, n - 1, k - 1);
    }
  }

  lemma {:induction false} OrStaysSmall(a: nat, b: nat, n: nat)
    requires a < Pow2(n) && b < Pow2(n)
    ensures Or(a, b) < Pow2(n)
  {
    if n > 0 {
      OrStaysSmall(a / 2, b / 2, n - 1);
    }
  }

  lemma {:induction false} AndNotShrinks(a: nat, b: nat)
    ensures AndNot(a, b) <= a
  {
    if a > 0 {
      AndNotShrinks(a / 2, b / 2);
    }
  }

  lemma {:induction false} PowStaysSmall(k: nat, n: nat)
    requires k < n
    ensures Pow2(k) < Pow2(n)
  {
    if k + 1 < n {
      PowStaysSmall(k, n - 1);
    }
  }

  lemma {:induction false} HasBit(w: nat)
    requires w > 0
    ensures Bit(w, TrailingZeros(w))
    ensures forall k | 0 <= k < TrailingZeros(w) :: !Bit(w, k)
  {
    if w % 2 == 0 {
      HasBit(w / 2);
      forall k | 0 <= k < TrailingZeros(w) ensures !Bit(w, k) {
        if k > 0 {
          assert !Bit(w / 2, k - 1);
        }
      }
    }
  }

  /** Shifting right and masking, as `isSetBit` does, reads the bit. */
  lemma {:induction false} ShiftReadsBit(w: nat, k: nat)
    ensures (w / Pow2(k)) % 2 == 1 <==> Bit(w, k)
  {
    if k > 0 {
      ShiftReadsBit(w / 2, k - 1);
      DivTwice(w, Pow2(k - 1));
    }
  }

  lemma DivTwice(w: nat, p: nat)
    requires p > 0
    ensures w / (2 * p) == w / 2 / p
  {
    var q, r := w / 2 / p, w / 2 % p;
    assert w == 2 * (w / 2) + w % 2 && w / 2 == p * q + r;
    assert w == (2 * p) * q + (2 * r + w % 2) by {
      assert (2 * p) * q == 2 * (p * q);
    }
    QuotientIs(w, 2 * p, q, 2 * r + w % 2);
  }

  // ----- the set a word array stands for -----

  ghost predicate Words(ws: seq<nat>) {
    forall i | 0 <= i < |ws| :: ws[i] < Pow2(64)
  }

  predicate Member(ws: seq<nat>, id: nat) {
    id / 64 < |ws| && Bit(ws[id / 64], id % 64)
  }

  function Elements(ws: seq<nat>): set<nat> {
    set id | 0 <= id < 64 * |ws| && Member(ws, id)
  }

  lemma MemberIsElement(ws: seq<nat>, id: nat)
    ensures id in Elements(ws) <==> Member(ws, id)
  {
  }

  /** Two word arrays of the same length are equal exactly when they stand for the
      same set. */
  lemma EqualIffSameElements(a: seq<nat>, b: seq<nat>)
    requires |a| == |b| && Words(a) && Words(b)
    ensures a == b <==> Elements(a) == Elements(b)
  {
    if Elements(a) == Elements(b) {
      forall i | 0 <= i < |a| ensures a[i] == b[i] {
        forall k: nat ensures Bit(a[i], k) == Bit(b[i], k) {
          if k < 64 {
            var id: nat := 64 * i + k;
            assert id / 64 == i && id % 64 == k;
            MemberIsElement(a, id);
            MemberIsElement(b, id);
          } else {
            HighBitsClear(a[i], 64, k);
            HighBitsClear(b[i], 64, k);
          }
        }
        SameBits(a[i], b[i]);
      }
    }
  }

  lemma SetWord(ws: seq<nat>, id: nat)
    requires Words(ws) && id / 64 < |ws|
    ensures var r := ws[id / 64 := Or(ws[id / 64], Pow2(id % 64))];
            Words(r) && Elements(r) == Elements(ws) + {id}
  {
    var i, o := id / 64, id % 64;
    var r := ws[i := Or(ws[i], Pow2(o))];
    PowStaysSmall(o, 64);
    OrStaysSmall(ws[i], Pow2(o), 64);
    forall x: nat ensures x in Elements(r) <==> x in Elements(ws) + {id} {
      SetWordAt(ws, id, x);
    }
  }

  lemma SetWordAt(ws: seq<nat>, id: nat, x: nat)
    requires id / 64 < |ws|
    ensures Member(ws[id / 64 := Or(ws[id / 64], Pow2(id % 64))], x) <==> Member(ws, x) || x == id
  {
    OrBit(ws[id / 64], Pow2(id % 64), x % 64);
    PowBit(id % 64, x % 64);
  }

  lemma ClearWord(ws: seq<nat>, id: nat)
    requires Words(ws) && id / 64 < |ws|
    ensures var r := ws[id / 64 := AndNot(ws[id / 64], Pow2(id % 64))];
            Words(r) && Elements(r) == Elements(ws) - {id}
  {
    var i, o := id / 64, id % 64;
    var r := ws[i := AndNot(ws[i], Pow2(o))];
    AndNotShrinks(ws[i], Pow2(o));
    forall x: nat ensures x in Elements(r) <==> x in Elements(ws) - {id} {
      AndNotBit(ws[i], Pow2(o), x % 64);
      PowBit(o, x % 64);
    }
  }

  /** Utils::bitmapGetNext: the least set bit at or after `start`, or -1. */
  method BitmapGetNext(bitmap: nat, start: nat) returns (bit: int)
    requires bitmap < Pow2(64)
    ensures bit == -1 ==> forall k | start <= k < 64 :: !Bit(bitmap, k)
    ensures bit != -1 ==> start <= bit < 64 && Bit(bitmap, bit) && forall k | start <= k < bit :: !Bit(bitmap, k)
  {
    if start >= 64 {
      return -1;
    }
    var mask := Pow2(start) - 1;
    var rest := AndNot(bitmap, mask);
    forall k: nat ensures Bit(rest, k) <==> Bit(bitmap, k) && k >= start {
      AndNotBit(bitmap, mask, k);
      MaskBit(start, k);
    }
    if rest == 0 {
      forall k: nat | start <= k < 64 ensures !Bit(bitmap, k) {
        ZeroBit(k);
        assert !Bit(rest, k);
      }
      return -1;
    }
    HasBit(rest);
    bit := TrailingZeros(rest);
    assert Bit(rest, bit);
    if bit >= 64 {
      HighBitsClear(bitmap, 64, bit);
    }
    forall k | start <= k < bit ensures !Bit(bitmap, k) {
      assert !Bit(rest, k);
    }
  }

  const TWO_TO_THE_16: nat := 0x1_0000

  // ----- the loop that enumerates a bitmap -----

  /** The least element at or after `start`, or -1. */
  function NextFrom(ws: seq<nat>, start: nat): int
    decreases 64 * |ws| - start
  {
    if start >= 64 * |ws| then -1
    else if Member(ws, start) then start
    else NextFrom(ws, start + 1)
  }

  lemma {:induction false} NextFromIsLeast(ws: seq<nat>, start: nat)
    ensures var next := NextFrom(ws, start);
            && (next == -1 || (next >= start && next in Elements(ws)))
            && (forall id | id in Elements(ws) && id >= start :: next != -1 && next <= id)
    decreases 64 * |ws| - start
  {
    if start < 64 * |ws| && !Member(ws, start) {
      NextFromIsLeast(ws, start + 1);
    }
  }

  lemma LeastIsNextFrom(ws: seq<nat>, start: nat, next: int)
    requires next == -1 ==> forall id | id in Elements(ws) :: id < start
    requires next != -1 ==> next in Elements(ws) && next >= start && forall id | id in Elements(ws) && id >= start :: next <= id
    ensures next == NextFrom(ws, start)
  {
    NextFromIsLeast(ws, start);
    hide Elements, NextFrom;
  }

  /** The loop variable of `for (id = getNext(0); id >= 0; id = getNext(id + 1))` in
      turn `k`; the argument is 16 bits wide. */
  function LoopVariable(ws: seq<nat>, k: nat): int {
    if k == 0 then NextFrom(ws, 0)
    else
      var id := LoopVariable(ws, k - 1);
      if id < 0 then -1 else NextFrom(ws, (id + 1) % TWO_TO_THE_16)
  }

  lemma FirstTurn(ws: seq<nat>)
    ensures LoopVariable(ws, 0) == NextFrom(ws, 0)
  {
  }

  lemma NextTurn(ws: seq<nat>, k: nat)
    requires LoopVariable(ws, k) >= 0
    ensures LoopVariable(ws, k + 1) == NextFrom(ws, (LoopVariable(ws, k) + 1) % TWO_TO_THE_16)
  {
  }

  lemma {:induction false} LoopGoesOn(ws: seq<nat>, x: nat, k: nat)
    requires x in Elements(ws) && x >= TWO_TO_THE_16 - 1
    ensures LoopVariable(ws, k) >= 0
  {
    hide Elements, NextFrom;
    if k == 0 {
      NextFromIsLeast(ws, 0);
    } else {
      LoopGoesOn(ws, x, k - 1);
      NextFromIsLeast(ws, (LoopVariable(ws, k - 1) + 1) % TWO_TO_THE_16);
    }
  }

  lemma {:induction false} LoopAdvances(ws: seq<nat>, k: nat)
    requires forall x | x in Elements(ws) :: x < TWO_TO_THE_16 - 1
    ensures LoopVariable(ws, k) == -1 || (LoopVariable(ws, k) in Elements(ws) && LoopVariable(ws, k) >= k)
  {
    hide Elements, NextFrom;
    if k == 0 {
      NextFromIsLeast(ws, 0);
    } else {
      LoopAdvances(ws, k - 1);
      var id := LoopVariable(ws, k - 1);
      if id >= 0 {
        NextFromIsLeast(ws, id + 1);
      }
    }
  }

  /** The loop ends if and only if every member is below 65535. */
  lemma EnumerationEnds(ws: seq<nat>)
    ensures (exists k: nat :: LoopVariable(ws, k) == -1) <==> (forall x | x in Elements(ws) :: x < TWO_TO_THE_16 - 1)
  {
    hide Elements, LoopVariable;
    if forall x | x in Elements(ws) :: x < TWO_TO_THE_16 - 1 {
      LoopAdvances(ws, TWO_TO_THE_16);
    } else {
      var x :| x in Elements(ws) && x >= TWO_TO_THE_16 - 1;
      forall k: nat ensures LoopVariable(ws, k) != -1 {
        LoopGoesOn(ws, x, k);
      }
    }
  }

  class Bitmap {
    const bitmap: array<nat>

    ghost predicate Valid()
      reads this, bitmap
    {
      Words(bitmap[..])
    }

    ghost function Contents(): set<nat>
      reads this, bitmap
    {
      Elements(bitmap[..])
    }

    constructor (n: nat)
      ensures Valid() && fresh(bitmap) && bitmap.Length == n && Contents() == {}
    {
      bitmap := new nat[n](_ => 0);
      new;
      forall id: nat ensures id !in Contents() {
        ZeroBit(id % 64);
      }
    }

    method SetBit(id: nat)
      requires Valid() && id < TWO_TO_THE_16
      modifies bitmap
      ensures Valid()
      ensures Contents() == old(Contents()) + (if id < 64 * bitmap.Length then {id} else {})
    {
      var idx, offset := id / 64, id % 64;
      if idx < bitmap.Length {
        SetWord(bitmap[..], id);
        ghost var was := bitmap[..];
        bitmap[idx] := Or(bitmap[idx], Pow2(offset));
        assert bitmap[..] == was[idx := Or(was[idx], Pow2(offset))];
      }
    }

    method ClearBit(id: nat)
      requires Valid() && id < TWO_TO_THE_16
      modifies bitmap
      ensures Valid() && Contents() == old(Contents()) - {id}
    {
      var idx, offset := id / 64, id % 64;
      if idx < bitmap.Length {
        ClearWord(bitmap[..], id);
        ghost var was := bitmap[..];
        bitmap[idx] := AndNot(bitmap[idx], Pow2(offset));
        assert bitmap[..] == was[idx := AndNot(was[idx], Pow2(offset))];
      }
    }

    method IsSetBit(id: nat) returns (yes: bool)
      requires Valid() && id < TWO_TO_THE_16
      ensures yes <==> id in Contents()
    {
      var idx, offset := id / 64, id % 64;
      if idx < bitmap.Length {
        ShiftReadsBit(bitmap[idx], offset);
        return (bitmap[idx] / Pow2(offset)) % 2 == 1;
      }
      return false;
    }

    /** The least element at or after `start`, or -1. */
    method GetNext(start: nat) returns (next: int)
      requires Valid() && start < TWO_TO_THE_16
      ensures next == -1 ==> forall id | id in Contents() :: id < start
      ensures next != -1 ==> next in Contents() && next >= start && forall id | id in Contents() && id >= start :: next <= id
      ensures next == NextFrom(bitmap[..], start)
    {
      hide Elements;
      next := Search(start);
      ghost var ws := bitmap[..];
      assert Contents() == Elements(ws);
      LeastIsNextFrom(ws, start, next);
    }

    method Search(start: nat) returns (next: int)
      requires Valid() && start < TWO_TO_THE_16
      ensures next == -1 ==> forall id | id in Contents() :: id < start
      ensures next != -1 ==> next in Contents() && next >= start && forall id | id in Contents() && id >= start :: next <= id
    {
      hide Elements, NoneIn, Pow2;
      var startIdx, i := start / 64, start / 64;
      ghost var ws := bitmap[..];
      NothingBetween(ws, start, 64 * i);
      while i < bitmap.Length
        invariant i >= startIdx
        invariant NoneIn(ws, start, 64 * i)
      {
        var from := if i == startIdx then start % 64 else 0;
        var bit := BitmapGetNext(bitmap[i], from);
        NothingBefore(ws, start, i, from, if bit == -1 then 64 else bit);
        if bit >= 0 {
          FoundAt(ws, start, i, bit);
          return 64 * i + bit;
        }
        i := i + 1;
      }
      NothingAfter(ws, start, i);
      return -1;
    }

    /** The client loop, for the sets it ends on. */
    method Enumerate() returns (ids: seq<nat>)
      requires Valid() && forall x | x in Contents() :: x < TWO_TO_THE_16 - 1
      ensures forall x | x in ids :: x in Contents()
      ensures forall x | x in Contents() :: x in ids
      ensures forall i, j | 0 <= i < j < |ids| :: ids[i] < ids[j]
    {
      hide Elements, NextFrom, LoopVariable;
      ghost var ws := bitmap[..];
      ids := [];
      var id := GetNext(0);
      FirstTurn(ws);
      ghost var done := 0;
      while id >= 0
        invariant id == -1 || (id in Contents() && id >= done && forall x | x in Contents() && x >= done :: id <= x)
        invariant id == -1 ==> forall x | x in Contents() :: x < done
        invariant forall i | 0 <= i < |ids| :: ids[i] in Contents() && ids[i] < done
        invariant forall x | x in Contents() && x < done :: x in ids
        invariant forall i, j | 0 <= i < j < |ids| :: ids[i] < ids[j]
        invariant done <= TWO_TO_THE_16 && bitmap[..] == ws && id == LoopVariable(ws, |ids|)
        decreases TWO_TO_THE_16 - done
      {
        NextTurn(ws, |ids|);
        ids := ids + [id];
        done := id + 1;
        id := GetNext((id + 1) % TWO_TO_THE_16);
      }
    }

    /** The argument is passed by value: `b` is a copy of its words. */
    method BitmapOr(b: seq<nat>)
      requires Valid() && Words(b) && |b| == bitmap.Length
      modifies bitmap
      ensures Valid() && Contents() == old(Contents()) + Elements(b)
    {
      ghost var was := bitmap[..];
      for i := 0 to bitmap.Length
        invariant forall k | 0 <= k < i :: bitmap[k] == Or(was[k], b[k])
        invariant forall k | i <= k < bitmap.Length :: bitmap[k] == was[k]
      {
        bitmap[i] := Or(bitmap[i], b[i]);
      }
      OrWords(was, b, bitmap[..]);
    }

    method Equal(b: Bitmap) returns (yes: bool)
      requires Valid() && b.Valid() && b.bitmap.Length == bitmap.Length
      ensures yes <==> Contents() == b.Contents()
    {
      EqualIffSameElements(bitmap[..], b.bitmap[..]);
      yes := bitmap[..] == b.bitmap[..];
    }
  }

  ghost predicate NoneIn(ws: seq<nat>, from: nat, to: nat) {
    forall id: nat | from <= id < to :: !Member(ws, id)
  }

  lemma NothingBefore(ws: seq<nat>, start: nat, i: nat, from: nat, bit: nat)
    requires i < |ws| && i >= start / 64 && from == (if i == start / 64 then start % 64 else 0) && bit <= 64
    requires NoneIn(ws, start, 64 * i)
    requires forall k | from <= k < bit :: !Bit(ws[i], k)
    ensures NoneIn(ws, start, 64 * i + bit)
  {
    forall id: nat | start <= id < 64 * i + bit ensures !Member(ws, id) {
      if id >= 64 * i {
        assert id / 64 == i && id % 64 == id - 64 * i;
      }
    }
  }

  lemma NothingBetween(ws: seq<nat>, from: nat, until: nat)
    requires until <= from
    ensures NoneIn(ws, from, until)
  {
  }

  lemma FoundAt(ws: seq<nat>, start: nat, i: nat, bit: nat)
    requires i < |ws| && bit < 64 && Bit(ws[i], bit) && NoneIn(ws, start, 64 * i + bit)
    ensures 64 * i + bit in Elements(ws)
    ensures forall id | id in Elements(ws) && id >= start :: 64 * i + bit <= id
  {
    assert (64 * i + bit) / 64 == i && (64 * i + bit) % 64 == bit;
  }

  lemma NothingAfter(ws: seq<nat>, start: nat, i: nat)
    requires i >= |ws| && NoneIn(ws, start, 64 * i)
    ensures forall id | id in Elements(ws) :: id < start
  {
  }

  lemma OrWords(a: seq<nat>, b: seq<nat>, r: seq<nat>)
    requires |a| == |b| == |r| && Words(a) && Words(b)
    requires forall k | 0 <= k < |r| :: r[k] == Or(a[k], b[k])
    ensures Words(r) && Elements(r) == Elements(a) + Elements(b)
  {
    forall k | 0 <= k < |r| ensures r[k] < Pow2(64) {
      OrStaysSmall(a[k], b[k], 64);
    }
    forall x: nat ensures x in Elements(r) <==> x in Elements(a) + Elements(b) {
      if x / 64 < |r| {
        OrBit(a[x / 64], b[x / 64], x % 64);
      }
    }
  }
}
