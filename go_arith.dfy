/** Integer division as Go performs it on int64 operands: the quotient is
    truncated toward zero and the remainder takes the sign of the dividend.
    Dafny's own / and % are Euclidean; the two agree when the dividend is
    non-negative. */
module GoArith {

  /** Go's `a / b` for a positive divisor. */
  function Quo(a: int, b: int): int
    requires b > 0
  {
    if a >= 0 then a / b else -((-a) / b)
  }

  /** Go's `a % b` for a positive divisor. */
  function Rem(a: int, b: int): int
    requires b > 0
  {
    if a >= 0 then a % b else -((-a) % b)
  }
}
