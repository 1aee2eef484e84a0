/** Java `int` arithmetic on Dafny's unbounded integers. */
module Int32 {

  const MIN_VALUE: int := -0x8000_0000
  const MAX_VALUE: int := 0x7FFF_FFFF
  const MODULUS: int := 0x1_0000_0000

  predicate InRange(x: int) {
    MIN_VALUE <= x <= MAX_VALUE
  }

  /** The two's-complement wrap-around of a Java `int` result. */
  function Wrap(x: int): (r: int)
    ensures InRange(r)
    ensures (x - r) % MODULUS == 0
    ensures InRange(x) ==> r == x
  {
    (x - MIN_VALUE) % MODULUS + MIN_VALUE
  }

  function Min(a: int, b: int): (r: int)
    ensures r <= a && r <= b
    ensures r == a || r == b
  {
    if a <= b then a else b
  }
}
