/** Shared vocabulary of the UI stack: the optional result used in place of
    a NULL pointer, the two region records of the common header, and the
    C integer operations whose semantics differ from Dafny's. */
module Common {

  /** A C pointer result that may be NULL. */
  datatype Option<+T> = None | Some(value: T)

  /** Screen rectangle in LCD coordinates (y grows downwards). */
  datatype Region = Region(x: int, y: int, width: int, height: int)

  /** Rectangle in Cartesian coordinates (y grows upwards), as produced by
      the font engine's string measurement. */
  datatype RegionCar = RegionCar(x: int, y: int, width: int, height: int)

  /** An `unsigned int` colour value (32 bits). */
  type Color = c: int | 0 <= c < 0x1_0000_0000

  /** C's `/` on `int` for a positive divisor: the quotient is truncated
      towards zero, so the remainder takes the sign of the dividend. */
  function CDiv(a: int, b: int): (q: int)
    requires b > 0
    ensures a >= 0 ==> 0 <= a - q * b < b
    ensures a < 0 ==> -b < a - q * b <= 0
  {
    if a >= 0 then a / b else -((-a) / b)
  }

  /** C's logical `!` on an `int` status: 1 for zero, 0 for anything else. */
  function CNot(v: int): (r: int)
    ensures r == 0 || r == 1
    ensures (r != 0) <==> (v == 0)
  {
    if v == 0 then 1 else 0
  }
}
