/**
  The exact values a C# `float` or `double` division would round, and the
  bit patterns they are stored as.

  Rounding to IEEE 754 binary32/binary64 is not modelled: a quotient is kept
  exact (`Float`) and the conversion to a stored bit pattern is a parameter
  (`Rounding`).  Only the zero bit pattern is fixed, because IEEE 754 encodes
  +0.0 as all-zero bytes in both formats.
*/
module Floats {
  import Colors

  /** An exact IEEE-754 value before rounding: a real, an infinity or NaN. */
  datatype Float = Finite(value: real) | Infinity(negative: bool) | NaN

  /**
    The IEEE-754 quotient of an integer count by an integer total, before
    rounding: a real quotient when `total` is non-zero, and +/-infinity or
    NaN when it is zero.
  */
  function Divide(count: int, total: int): (q: Float)
    ensures total != 0 ==> q == Finite(count as real / total as real)
    ensures total == 0 ==> (q.NaN? <==> count == 0)
    ensures total == 0 && count != 0 ==> q == Infinity(count < 0)
  {
    if total != 0 then Finite(count as real / total as real)
    else if count == 0 then NaN
    else Infinity(count < 0)
  }

  /** The four little-endian bytes of a C# `float`. */
  type Bits32 = b: seq<Colors.byte> | |b| == 4 witness [0, 0, 0, 0]

  /** The eight little-endian bytes of a C# `double`. */
  type Bits64 = b: seq<Colors.byte> | |b| == 8 witness [0, 0, 0, 0, 0, 0, 0, 0]

  /** The bit pattern of +0.0f, the value of a fresh `float[]` element. */
  const ZeroSingle: Bits32 := [0, 0, 0, 0]

  /** The bit pattern of +0.0, the value of a fresh `double` field. */
  const ZeroDouble: Bits64 := [0, 0, 0, 0, 0, 0, 0, 0]

  /** Round-to-nearest conversion of an exact value to a stored bit pattern. */
  datatype Rounding = Rounding(single: Float -> Bits32, double: Float -> Bits64)
}
