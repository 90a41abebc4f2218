/**
  Packed RGBA colours and the integer colour distance of ImageUtils.
*/
module Colors {

  type byte = x: int | 0 <= x < 0x100
  type uint32 = x: int | 0 <= x < 0x1_0000_0000

  /** A Unity `Color32`: four 8-bit channels. */
  datatype Color32 = Color32(r: byte, g: byte, b: byte, a: byte)

  /** The `Color32` indexer: channel 0 is R, 1 is G, 2 is B and 3 is A. */
  function Channel(c: Color32, i: nat): byte
    requires i < 4
  {
    match i
    case 0 => c.r
    case 1 => c.g
    case 2 => c.b
    case 3 => c.a
  }

  /**
    Packs a colour into 32 bits, R in bits 24-31, G in 16-23, B in 8-15 and
    A in 0-7.  The source ORs shifted channels together; the shifted lanes
    are disjoint, so the OR is their sum, and `(uint)(r << 24)` loses no bits
    because a channel is below 256.
  */
  function ColorToInt(c: Color32): (v: uint32)
    ensures v / 0x100_0000 == c.r
    ensures (v / 0x1_0000) % 0x100 == c.g
    ensures (v / 0x100) % 0x100 == c.b
    ensures v % 0x100 == c.a
  {
    var rg := c.r * 0x100 + c.g;
    var rgb := rg * 0x100 + c.b;
    var v := rgb * 0x100 + c.a;
    DivMod256(rgb, c.a);
    DivMod256(rg, c.b);
    DivMod256(c.r, c.g);
    ShiftRight(v);
    v
  }

  lemma DivMod256(hi: int, lo: int)
    requires 0 <= lo < 0x100
    ensures (hi * 0x100 + lo) / 0x100 == hi
    ensures (hi * 0x100 + lo) % 0x100 == lo
  {
  }

  /** Shifting right by 16 or 24 bits is shifting by 8 bits two or three times. */
  lemma ShiftRight(v: nat)
    ensures v / 0x1_0000 == (v / 0x100) / 0x100
    ensures v / 0x100_0000 == ((v / 0x100) / 0x100) / 0x100
  {
  }

  /** Unpacks a 32-bit value; each `(byte)` cast keeps the low 8 bits of a shift. */
  function IntToColor32(v: uint32): (c: Color32)
    ensures ColorToInt(c) == v
  {
    ShiftRight(v);
    Color32(v / 0x100_0000, (v / 0x1_0000) % 0x100, (v / 0x100) % 0x100, v % 0x100)
  }

  /** Packing loses nothing: unpacking a packed colour gives the colour back. */
  lemma IntToColor32OfColorToInt(c: Color32)
    ensures IntToColor32(ColorToInt(c)) == c
  {
  }

  /** Packing is injective, so a packed value identifies one RGBA quadruple. */
  lemma ColorToIntInjective(c: Color32, d: Color32)
    ensures ColorToInt(c) == ColorToInt(d) <==> c == d
  {
    if ColorToInt(c) == ColorToInt(d) {
      IntToColor32OfColorToInt(c);
      IntToColor32OfColorToInt(d);
    }
  }

  /** The squared Euclidean distance of the RGB parts of two colours, in integers. */
  function ColorSquareDistance(x: Color32, y: Color32): (d: nat)
    ensures d == 0 <==> x.r == y.r && x.g == y.g && x.b == y.b
    ensures d <= 3 * 255 * 255
  {
    var dr := y.r - x.r;
    var dg := y.g - x.g;
    var db := y.b - x.b;
    SquareAtMost(dr);
    SquareAtMost(dg);
    SquareAtMost(db);
    dr * dr + dg * dg + db * db
  }

  lemma SquareAtMost(d: int)
    requires -255 <= d <= 255
    ensures 0 <= d * d <= 255 * 255
    ensures d * d == 0 <==> d == 0
  {
    var m := if d < 0 then -d else d;
    assert d * d == m * m;
    MulNonneg(m, 255 - m);
    assert m * m + m * (255 - m) == m * 255;
    MulNonneg(m, m);
    if m != 0 {
      MulNonneg(m - 1, m);
    }
  }

  lemma MulNonneg(x: int, y: int)
    requires 0 <= x && 0 <= y
    ensures 0 <= x * y
  {
  }

  /** The distance does not depend on the order of its arguments. */
  lemma ColorSquareDistanceSymmetric(x: Color32, y: Color32)
    ensures ColorSquareDistance(x, y) == ColorSquareDistance(y, x)
  {
  }

  /** Alpha plays no part in the distance. */
  lemma ColorSquareDistanceIgnoresAlpha(x: Color32, y: Color32, a: byte)
    ensures ColorSquareDistance(x.(a := a), y) == ColorSquareDistance(x, y)
  {
  }
}
