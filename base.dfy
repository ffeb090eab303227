/** Swift's integer operations and conversions that the piano widget relies on,
    stated over Dafny's unbounded integers and exact reals. */
module Base {

  datatype Option<+T> = None | Some(value: T)

  /** Swift's `%` on `Int`: the remainder of a division truncated toward zero,
      so it carries the sign of the dividend (Dafny's own `%` never is negative). */
  function Rem(a: int, b: int): (r: int)
    requires b > 0
    ensures exists q :: a == q * b + r
    ensures a >= 0 ==> 0 <= r < b
    ensures a < 0 ==> -b < r <= 0
  {
    if a >= 0 then
      assert a == (a / b) * b + a % b;
      a % b
    else
      assert a == -((-a) / b) * b - (-a) % b;
      -((-a) % b)
  }

  /** Swift's `Int(_:)` applied to a floating-point value: it truncates toward
      zero, so it rounds down above zero and up below zero. */
  function Trunc(r: real): (t: int)
    ensures r >= 0.0 ==> t >= 0 && t as real <= r < t as real + 1.0
    ensures r < 0.0 ==> t <= 0 && t as real - 1.0 < r <= t as real
  {
    if r >= 0.0 then r.Floor else -((-r).Floor)
  }

  /** Swift's `UInt8`; the conversion `UInt8(_:)` traps outside 0...255. */
  newtype UInt8 = x: int | 0 <= x < 256
}
