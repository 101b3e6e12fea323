/** Powers of two, the wrap-around of 64-bit signed integers, and initial segments of the numbers. */
module Arithmetic {

  /** One second in nanoseconds. */
  const SECOND: int := 1_000_000_000

  const TWO_62: int := 0x4000_0000_0000_0000
  const TWO_63: int := 0x8000_0000_0000_0000
  const TWO_64: int := 0x1_0000_0000_0000_0000

  function Pow2(k: nat): (p: nat)
    ensures p > 0
  {
    if k == 0 then 1 else 2 * Pow2(k - 1)
  }

  function Min(a: int, b: int): int {
    if a < b then a else b
  }

  function Max(a: int, b: int): int {
    if a < b then b else a
  }

  /** The numbers below n, in order. */
  function UpTo(n: nat): (s: seq<nat>)
    ensures |s| == n && forall k :: 0 <= k < n ==> s[k] == k
  {
    seq(n, k => k)
  }

  predicate IsInt64(x: int) {
    -TWO_63 <= x < TWO_63
  }

  /** The int64 that int64 arithmetic leaves of x. */
  function Wrap64(x: int): (w: int)
    ensures IsInt64(w) && (IsInt64(x) ==> w == x) && (w - x) % TWO_64 == 0
  {
    var r := x % TWO_64;
    if r < TWO_63 then r else r - TWO_64
  }

  lemma Associate(a: int, b: int, c: int)
    ensures a * (b * c) == (a * b) * c
  {
  }

  lemma {:induction false} Pow2Add(a: nat, b: nat)
    ensures Pow2(a + b) == Pow2(a) * Pow2(b)
  {
    if a > 0 {
      Pow2Add(a - 1, b);
      Associate(2, Pow2(a - 1), Pow2(b));
    }
  }

  lemma {:induction false} Pow2Monotone(a: nat, b: nat)
    requires a <= b
    ensures Pow2(a) <= Pow2(b)
  {
    if a < b {
      Pow2Monotone(a, b - 1);
    }
  }

  lemma Pow2Values()
    ensures Pow2(24) == 0x100_0000 && Pow2(62) == TWO_62 && Pow2(63) == TWO_63 && Pow2(64) == TWO_64
  {
    assert Pow2(8) == 0x100;
    Pow2Add(8, 8);
    Pow2Add(16, 8);
    Pow2Add(16, 16);
    Pow2Add(32, 32);
    assert Pow2(64) == 2 * Pow2(63) && Pow2(63) == 2 * Pow2(62);
  }

  lemma MulMonotone(a: int, b: int, c: int)
    requires a <= b && 0 <= c
    ensures a * c <= b * c && c * a <= c * b
  {
  }

  /** A positive multiple of d is at least d. */
  lemma PositiveMultiple(d: int, k: int)
    requires d > 0 && d * k > 0
    ensures d * k >= d
  {
    if k <= 0 {
      MulMonotone(k, 0, d);
    } else {
      MulMonotone(1, k, d);
    }
  }
}
