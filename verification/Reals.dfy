/** Arithmetic that several models share. */
module Reals {
  function Abs(x: real): (a: real)
    ensures a >= 0.0
  {
    if x < 0.0 then -x else x
  }
}
