/** 32-bit serial number arithmetic (section 3.2 of RFC 1982), as lib/isc/serial.c has it. */
module Serials {

  const MODULUS := 0x1_0000_0000

  const HALF := 0x8000_0000

  type Serial = x: int | 0 <= x < MODULUS

  /** How far `b` has to be advanced to reach `a`. */
  function Diff(a: Serial, b: Serial): (d: Serial)
    ensures d == (if a >= b then a - b else a - b + MODULUS)
  {
    (a - b) % MODULUS
  }

  predicate Lt(a: Serial, b: Serial) {
    HALF < Diff(a, b)
  }

  predicate Gt(a: Serial, b: Serial) {
    0 < Diff(a, b) < HALF
  }

  predicate Ge(a: Serial, b: Serial) {
    a == b || Gt(a, b)
  }
}
