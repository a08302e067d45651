/** The JVM integer ranges the source relies on. */
module Limits {

  /** `Int.MIN_VALUE`, `Int.MAX_VALUE` (32-bit). */
  const IntMin: int := -0x8000_0000
  const IntMax: int := 0x7fff_ffff

  /** `Long.MIN_VALUE`, `Long.MAX_VALUE` (64-bit). */
  const LongMin: int := -0x8000_0000_0000_0000
  const LongMax: int := 0x7fff_ffff_ffff_ffff

  predicate IsInt(x: int) {
    IntMin <= x <= IntMax
  }

  /** `max(0, x)`, as `coerceAtLeast(0)` and `Math.max(0, x)` compute it. */
  function Max0(x: int): (r: int)
    ensures r >= 0 && r >= x && (r == x || r == 0)
  {
    if x < 0 then 0 else x
  }

  /** 32-bit two's-complement wrap-around of a mathematical integer, as Kotlin `Int` arithmetic does. */
  function WrapInt(x: int): (r: int)
    ensures IsInt(r)
    ensures (x - r) % 0x1_0000_0000 == 0
    ensures IsInt(x) ==> r == x
  {
    (x - IntMin) % 0x1_0000_0000 + IntMin
  }
}
