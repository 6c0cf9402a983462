/** Value types shared by the tracker model: the bytes of a QByteArray, the
    `double` results of the similarity score, and an optional value. */
module Primitives {

  /** One element of a QByteArray, held as its unsigned value. */
  type Byte = b: int | 0 <= b < 256

  /** The value a byte has when read through a (signed) `char`:
      the two's-complement reading of the same eight bits. */
  function Signed(b: Byte): (v: int)
    ensures -128 <= v <= 127
    ensures v % 256 == b
  {
    if b < 128 then b else b - 256
  }

  /** A C++ `double`, with rounding abstracted away: either a real number or
      the NaN that an IEEE-754 division 0.0 / 0 produces. */
  datatype Double = Num(value: real) | NaN

  datatype Option<+T> = None | Some(value: T)
}
