/** `min`, `max` and `saturating_sub`. */
module Naturals {

  function Min(a: nat, b: nat): nat {
    if a <= b then a else b
  }

  function Max(a: nat, b: nat): nat {
    if a >= b then a else b
  }

  function Minus(a: nat, b: nat): nat {
    if a >= b then a - b else 0
  }
}
