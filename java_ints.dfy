/** The fixed-width integers of the Java side, made explicit over Dafny's unbounded `int`. */
module JavaInts {
  const INT_MIN: int := -0x8000_0000
  const INT_MAX: int := 0x7fff_ffff
  const LONG_MIN: int := -0x8000_0000_0000_0000
  const LONG_MAX: int := 0x7fff_ffff_ffff_ffff

  predicate IsInt(x: int) { INT_MIN <= x <= INT_MAX }

  predicate IsLong(x: int) { LONG_MIN <= x <= LONG_MAX }

  /** Two's-complement narrowing to 32 bits: what an `int` expression evaluates to in Java. */
  function WrapInt(x: int): (r: int)
    ensures IsInt(r)
    ensures IsInt(x) ==> r == x
    ensures (x - r) % 0x1_0000_0000 == 0
  {
    (x - INT_MIN) % 0x1_0000_0000 + INT_MIN
  }
}
