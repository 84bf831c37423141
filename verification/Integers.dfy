/** Go's integer division and remainder, which truncate toward zero; divisors here are positive. */
module Integers {

  function QuoTrunc(a: int, b: int): int
    requires b > 0
  {
    if a >= 0 then a / b else -((-a) / b)
  }

  function RemTrunc(a: int, b: int): int
    requires b > 0
  {
    a - QuoTrunc(a, b) * b
  }
}
