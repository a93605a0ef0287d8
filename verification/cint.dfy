/** C integer semantics the model needs: division that truncates toward
    zero (C99) and the 32-bit unsigned/signed conversions of `guint`/`gint`. */
module CInt {

  const Two32: int := 0x1_0000_0000
  const Two31: int := 0x8000_0000

  type uint32 = x: int | 0 <= x < 0x1_0000_0000

  function Abs(x: int): nat { if x < 0 then -x else x }

  /** C's `a / b`: the quotient truncated toward zero. */
  function CDiv(a: int, b: int): int
    requires b != 0
  {
    if a >= 0 then (if b > 0 then a / b else -(a / -b))
    else (if b > 0 then -((-a) / b) else (-a) / (-b))
  }

  /** C's `a % b`: the remainder takes the sign of the dividend. */
  function CMod(a: int, b: int): (r: int)
    requires b != 0
    ensures CDiv(a, b) * b + r == a
    ensures Abs(r) < Abs(b)
    ensures a >= 0 ==> r >= 0
    ensures a <= 0 ==> r <= 0
  {
    a - CDiv(a, b) * b
  }

  lemma CDivNonNegative(a: int, b: int)
    requires a >= 0 && b > 0
    ensures CDiv(a, b) == a / b && CMod(a, b) == a % b
  {
  }

  /** Reduction modulo 2^32: what an unsigned 32-bit result holds. */
  function Wrap32(x: int): (r: uint32)
    ensures (r - x) % Two32 == 0
    ensures 0 <= x < Two32 ==> r == x
  {
    x % Two32
  }

  /** A negative difference of 32-bit values wraps to itself plus 2^32. */
  lemma WrapNegative(x: int)
    requires -Two32 <= x < 0
    ensures Wrap32(x) == x + Two32
  {
    assert (x + Two32) % Two32 == x % Two32;
  }

  lemma ProductNonNegative(a: nat, b: nat)
    ensures a * b >= 0
  {
  }

  /** The conversion of a 32-bit unsigned value to `gint` (two's complement). */
  function ToInt32(u: uint32): (r: int)
    ensures -Two31 <= r < Two31
    ensures (r - u) % Two32 == 0
  {
    if u < Two31 then u else u - Two32
  }

  /** Reinterpreting `x - y` computed in unsigned arithmetic as a `gint`
      gives back `x - y` whenever that difference fits in a `gint`. */
  lemma SignedRoundTrip(d: int)
    requires -Two31 <= d < Two31
    ensures ToInt32(Wrap32(d)) == d
  {
  }
}
