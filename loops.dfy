/** Counting the rounds of Go's counted `for` loops. */
module Loops {

  /** The number of rounds of `for i := 0; i < n; i++`: `n`, and none when
      `n` is not positive. */
  function Iterations(n: int): (r: nat)
  {
    if n > 0 then n else 0
  }
}
