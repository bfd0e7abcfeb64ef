/**
 Definitions shared by the other modules.
 */
module Basics {

  /** A pointer that may be null, or a value that may be missing. */
  datatype Option<+T> = None | Some(value: T)

  const TWO_TO_THE_31: int := 0x8000_0000
  const TWO_TO_THE_32: int := 0x1_0000_0000
  const TWO_TO_THE_64: int := 0x1_0000_0000_0000_0000

  function Min(a: nat, b: nat): nat {
    if a <= b then a else b
  }

  /** A 32-bit counter follows the count it is the remainder of. */
  lemma IncRemainder(x: nat)
    ensures (x % TWO_TO_THE_32 + 1) % TWO_TO_THE_32 == (x + 1) % TWO_TO_THE_32
  {
  }

  lemma MultipleIsFar(n: nat, k: int)
    ensures k >= 1 ==> n * k >= n
    ensures k <= -1 ==> n * k + n <= 0
    ensures k == 0 ==> n * k == 0
  {
  }

  lemma QuotientIs(x: nat, n: nat, q: nat, r: nat)
    requires x == n * q + r && r < n
    ensures x / n == q && x % n == r
  {
    var a, b := x / n, x % n;
    assert x == n * a + b;
    assert n * (q - a) == b - r by {
      assert n * (q - a) == n * q - n * a;
    }
    MultipleIsFar(n, q - a);
  }
}
