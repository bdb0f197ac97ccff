/**
 * C# `int` arithmetic where the client relies on it: 32-bit wrap-around of an
 * unchecked subtraction, the saturating `(int)` cast of a `double`, and
 * conversion of ticks to whole seconds, rounded toward zero.
 */
module Numerics {

  const Int32Min: int := -0x8000_0000
  const Int32Max: int := 0x7FFF_FFFF
  const Modulus32: int := 0x1_0000_0000

  /** The values of C#'s `int`. */
  // The bounds are written out here and in Wrap32, not taken from Int32Min and
  // Int32Max, so that the solver sees plain numbers rather than constant symbols.
  type Int32 = x: int | -0x8000_0000 <= x <= 0x7FFF_FFFF

  predicate InInt32(x: int) {
    Int32Min <= x <= Int32Max
  }

  /** An unchecked 32-bit result: the one `int` congruent to `x` modulo 2^32. */
  function Wrap32(x: int): (r: Int32)
    ensures (x - r) % Modulus32 == 0
    ensures InInt32(x) ==> r == x
  {
    var m := (x + 0x8000_0000) % 0x1_0000_0000;
    assert InInt32(x) ==> m == x + 0x8000_0000;
    m - 0x8000_0000
  }

  /** The distance between two integers. */
  function Distance(a: int, b: int): nat {
    if a >= b then a - b else b - a
  }

  /** `(int)d` for a `double` holding the whole number `x`: the `int` nearest
      to `x`, so values beyond the range of `int` become its nearest bound. */
  function Saturate32(x: int): (r: Int32)
    ensures forall y: int :: InInt32(y) ==> Distance(x, r) <= Distance(x, y)
    ensures InInt32(x) ==> r == x
    ensures x < Int32Min ==> r == Int32Min
    ensures x > Int32Max ==> r == Int32Max
  {
    if x < Int32Min then Int32Min else if x > Int32Max then Int32Max else x
  }

  /** Ticks (100 ns) in one second. */
  const TicksPerSecond: int := 10_000_000

  // WholeSeconds writes TicksPerSecond as the literal 10_000_000: with a named
  // constant its products would be non-linear arithmetic for the solver.
  /** Whole seconds in `ticks`, rounded toward zero as C#'s `(int)` cast rounds
      (Dafny's own `/` rounds toward negative infinity for negative operands). */
  function WholeSeconds(ticks: int): (s: int)
    ensures ticks >= 0 ==> s >= 0 && s * 10_000_000 <= ticks < s * 10_000_000 + 10_000_000
    ensures ticks < 0 ==> s <= 0 && s * 10_000_000 - 10_000_000 < ticks <= s * 10_000_000
  {
    if ticks >= 0 then ticks / 10_000_000 else -((-ticks) / 10_000_000)
  }
}
