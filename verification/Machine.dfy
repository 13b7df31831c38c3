/** The fixed-width integers the library computes with, and the C++ conversions between them. */
module Machine {

  newtype int16 = x: int | -0x8000 <= x < 0x8000
  newtype int32 = x: int | -0x8000_0000 <= x < 0x8000_0000
  newtype uint32 = x: int | 0 <= x < 0x1_0000_0000
  newtype uint64 = x: int | 0 <= x < 0x1_0000_0000_0000_0000
  newtype uint8 = x: int | 0 <= x < 0x100

  type int64 = x: int | -0x8000_0000_0000_0000 <= x < 0x8000_0000_0000_0000

  /** C++ integer division by a positive divisor: the quotient is truncated towards zero. */
  function Quot(a: int, b: int): (q: int)
    requires 0 < b
  {
    if 0 <= a then a / b else -((-a) / b)
  }

  /** Conversion to a 16-bit signed integer, the representation of `date::year`. */
  function ToInt16(x: int): (r: int16)
    ensures (r as int - x) % 0x1_0000 == 0
    ensures -0x8000 <= x < 0x8000 ==> r as int == x
  {
    var u := x % 0x1_0000;
    (if u < 0x8000 then u else u - 0x1_0000) as int16
  }

  /** Conversion to a 32-bit signed integer: the low half of a 64-bit column value. */
  function ToInt32(x: int): (r: int32)
    ensures (r as int - x) % 0x1_0000_0000 == 0
    ensures -0x8000_0000 <= x < 0x8000_0000 ==> r as int == x
  {
    var u := x % 0x1_0000_0000;
    (if u < 0x8000_0000 then u else u - 0x1_0000_0000) as int32
  }

  /** Conversion to an 8-bit unsigned integer, the representation of `month`, `day` and `weekday`. */
  function ToUint8(x: int): (r: uint8)
    ensures (r as int - x) % 0x100 == 0
    ensures 0 <= x < 0x100 ==> r as int == x
  {
    (x % 0x100) as uint8
  }

  predicate FitsInt32(x: int) { -0x8000_0000 <= x < 0x8000_0000 }

  // ----- Division -----

  lemma QuotientIs(a: int, b: int, q: int)
    requires 0 < b && b * q <= a < b * q + b
    ensures a / b == q
  {
    var d := a / b;
    assert d < q ==> b * (d + 1) <= b * q;
    assert q < d ==> b * (q + 1) <= b * d;
  }

  lemma ResidueIs(a: int, b: int, q: int, r: int)
    requires 0 < b && a == b * q + r && 0 <= r < b
    ensures a % b == r
  {
    QuotientIs(a, b, q);
  }
}
