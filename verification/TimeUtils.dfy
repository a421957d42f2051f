/** Comparison of 32-bit millisecond clocks that wrap (talk/base/timeutils.cc). */
module TimeUtils {

  const WRAP := 0x1_0000_0000
  const HALF := 0x8000_0000

  type uint32 = x: int | 0 <= x < 0x1_0000_0000

  function Uint32(x: int): uint32 { x % WRAP }

  /** Conversion to a signed 32-bit number. */
  function Int32(x: int): int {
    var u := x % WRAP;
    if u < HALF then u else u - WRAP
  }

  predicate TimeIsBetween(earlier: uint32, middle: uint32, later: uint32) {
    if earlier <= later then earlier <= middle <= later
    else !(later < middle && middle < earlier)
  }

  /** The implementation that is compiled in. */
  predicate TimeIsLaterOrEqual(earlier: uint32, later: uint32) {
    var diff := Int32(later - earlier);
    diff >= 0 && Uint32(diff) < HALF
  }

  predicate TimeIsLater(earlier: uint32, later: uint32) {
    var diff := Int32(later - earlier);
    diff > 0 && Uint32(diff) < HALF
  }

  function TimeDiff(later: uint32, earlier: uint32): int {
    Int32(later - earlier)
  }

  /** The implementation it replaces. */
  predicate PlainLaterOrEqual(earlier: uint32, later: uint32) {
    TimeIsBetween(earlier, later, Uint32(earlier + HALF))
  }

  predicate PlainLater(earlier: uint32, later: uint32) {
    !TimeIsBetween(later, earlier, Uint32(later + HALF))
  }

  function PlainDiff(later: uint32, earlier: uint32): int {
    if TimeIsBetween(earlier, later, Uint32(earlier + HALF)) then
      if earlier <= later then Int32(later - earlier) else Int32(later + (WRAP - 1 - earlier) + 1)
    else
      if later <= earlier then Int32(-(earlier - later)) else Int32(-(earlier + (WRAP - 1 - later) + 1))
  }

  /** The two differ in one comparison only, and there only for clocks half the
      range apart. */
  lemma FastAgreesExactlyWhen(a: uint32, b: uint32)
    ensures TimeIsLaterOrEqual(a, b) == PlainLaterOrEqual(a, b) <==> Uint32(b - a) != HALF
    ensures TimeIsLater(a, b) == PlainLater(a, b)
    ensures TimeDiff(b, a) == PlainDiff(b, a)
  {
    Forward(a, b);
    Forward(b, a);
    Forward(a, Uint32(a + HALF));
    Forward(b, Uint32(b + HALF));
  }

  /** How far b is ahead of a on the circle. */
  lemma Forward(a: uint32, b: uint32)
    ensures Uint32(b - a) == if a <= b then b - a else b - a + WRAP
  {
  }

  /** Clocks less than half the range apart in true time compare as true time
      does, across the wrap too. */
  lemma TrueTime(a: int, b: int)
    requires -HALF < b - a < HALF
    ensures TimeIsLater(Uint32(a), Uint32(b)) <==> a < b
    ensures TimeIsLaterOrEqual(Uint32(a), Uint32(b)) <==> a <= b
    ensures TimeDiff(Uint32(b), Uint32(a)) == b - a
  {
    Residue(a, b);
  }

  lemma Residue(a: int, b: int)
    ensures (Uint32(b) - Uint32(a)) % WRAP == (b - a) % WRAP
  {
    var qa, qb := a / WRAP, b / WRAP;
    assert a == qa * WRAP + a % WRAP && b == qb * WRAP + b % WRAP;
    assert b - a == (b % WRAP - a % WRAP) + (qb - qa) * WRAP;
    Turns(b % WRAP - a % WRAP, qb - qa);
  }

  lemma {:induction false} Turns(x: int, k: int)
    ensures (x + k * WRAP) % WRAP == x % WRAP
    decreases if k < 0 then -k else k
  {
    if k > 0 {
      Turns(x, k - 1);
      assert x + k * WRAP == (x + (k - 1) * WRAP) + WRAP;
    } else if k < 0 {
      Turns(x, k + 1);
      assert x + k * WRAP == (x + (k + 1) * WRAP) - WRAP;
    }
  }

  /** Triggers as plain numbers order as true time does while they, and the
      clock, are within half the range and do not cross the wrap. */
  lemma NoWrapPlain(a: uint32, b: uint32)
    requires -HALF < b - a < HALF
    ensures TimeIsLater(a, b) <==> a < b
    ensures TimeDiff(b, a) == b - a
  {
    TrueTime(a, b);
  }
}
