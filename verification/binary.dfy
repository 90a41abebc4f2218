/**
  The parts of .NET's `BinaryWriter` and `BinaryReader` that the index store
  uses, over byte sequences.

  A writer is a function from a value to its bytes; a reader takes the bytes
  still unread and returns the value with the bytes after it, or the
  exception the reader throws.  Integers are little-endian; a `float` or a
  `double` is its IEEE-754 bit pattern (`Floats.Bits32`, `Floats.Bits64`),
  which both classes copy byte for byte.  A string is its UTF-8 bytes after a
  7-bit encoded byte count.

  The 7-bit encoded int follows `BinaryReader.Read7BitEncodedInt` of the
  .NET Framework and Mono class libraries: at most five bytes, a fifth byte
  with its high bit set is a `FormatException`, and the groups are gathered
  into a 32-bit `int`, so bits past bit 31 are lost.
*/
module Binary {
  import opened Wrappers
  import opened Colors
  import opened Floats
  import opened Exceptions

  type int32 = x: int | -0x8000_0000 <= x < 0x8000_0000

  const MaxInt32: int := 0x7FFF_FFFF

  /** A value decoded from the front of a byte sequence, and the bytes after it. */
  datatype Read<+T> = Read(value: T, rest: seq<byte>)

  /** The outcome of one read. */
  type Parsed<T> = Result<Read<T>, Exception>

  /** `rest` is what is left of `s` once some of its front has been consumed. */
  predicate Suffix(rest: seq<byte>, s: seq<byte>) {
    |rest| <= |s| && rest == s[|s| - |rest|..]
  }

  // ---------------------------------------------------------------------------
  // Raw bytes

  /** The next `n` bytes, or `EndOfStream` when fewer than `n` are left. */
  function ReadBytes(s: seq<byte>, n: nat): (r: Parsed<seq<byte>>)
    ensures r.Success? <==> n <= |s|
    ensures r.Success? ==> r.value.value == s[..n] && r.value.rest == s[n..]
    ensures r.Failure? ==> r.error == EndOfStream
  {
    if |s| < n then Failure(EndOfStream) else Success(Read(s[..n], s[n..]))
  }

  /** `ReadSingle`: the four bytes of a `float`, kept as its bit pattern. */
  function ReadSingle(s: seq<byte>): (r: Parsed<Bits32>)
    ensures r.Success? <==> 4 <= |s|
    ensures r.Success? ==> r.value.value == s[..4] && r.value.rest == s[4..]
    ensures r.Failure? ==> r.error == EndOfStream
  {
    var b :- ReadBytes(s, 4);
    var bits: Bits32 := b.value;
    Success(Read(bits, b.rest))
  }

  /** `ReadDouble`: the eight bytes of a `double`, kept as its bit pattern. */
  function ReadDouble(s: seq<byte>): (r: Parsed<Bits64>)
    ensures r.Success? <==> 8 <= |s|
    ensures r.Success? ==> r.value.value == s[..8] && r.value.rest == s[8..]
    ensures r.Failure? ==> r.error == EndOfStream
  {
    var b :- ReadBytes(s, 8);
    var bits: Bits64 := b.value;
    Success(Read(bits, b.rest))
  }

  // ---------------------------------------------------------------------------
  // 32-bit integers

  /**
    `Write(uint)`: the four bytes of `v`, least significant first.  They are
    the lanes of `Colors.IntToColor32` in reverse order.
  */
  function WriteUInt32(v: uint32): (b: seq<byte>)
    ensures |b| == 4
    ensures b[0] == v % 0x100 && b[1] == (v / 0x100) % 0x100
    ensures b[2] == (v / 0x1_0000) % 0x100 && b[3] == v / 0x100_0000
  {
    var c := IntToColor32(v);
    [c.a, c.b, c.g, c.r]
  }

  /** `ReadUInt32`: four bytes, least significant first. */
  function ReadUInt32(s: seq<byte>): (r: Parsed<uint32>)
    ensures r.Success? <==> 4 <= |s|
    ensures r.Success? ==> r.value.rest == s[4..]
    ensures r.Failure? ==> r.error == EndOfStream
  {
    var b :- ReadBytes(s, 4);
    Success(Read(ColorToInt(Color32(b.value[3], b.value[2], b.value[1], b.value[0])), b.rest))
  }

  /** The 32-bit two's complement pattern of an `int`, as the `(uint)` cast gives it. */
  function Unsigned(v: int32): (u: uint32)
    ensures u % 0x1_0000_0000 == v % 0x1_0000_0000
  {
    if v < 0 then v + 0x1_0000_0000 else v
  }

  /** The `int` whose two's complement pattern is `u`, as the `(int)` cast gives it. */
  function Signed(u: uint32): (v: int32)
    ensures v % 0x1_0000_0000 == u
  {
    if u < 0x8000_0000 then u else u - 0x1_0000_0000
  }

  /** `Write(int)`: the two's complement pattern, least significant byte first. */
  function WriteInt32(v: int32): (b: seq<byte>)
    ensures |b| == 4
  {
    WriteUInt32(Unsigned(v))
  }

  /** `ReadInt32`: four bytes read as a two's complement `int`. */
  function ReadInt32(s: seq<byte>): (r: Parsed<int32>)
    ensures r.Success? <==> 4 <= |s|
    ensures r.Success? ==> r.value.rest == s[4..]
    ensures r.Failure? ==> r.error == EndOfStream
  {
    var u :- ReadUInt32(s);
    Success(Read(Signed(u.value), u.rest))
  }

  /** Reading back a written `uint` gives it back and leaves what followed it. */
  lemma ReadUInt32OfWrite(v: uint32, rest: seq<byte>)
    ensures ReadUInt32(WriteUInt32(v) + rest) == Success(Read(v, rest))
  {
    var s := WriteUInt32(v) + rest;
    assert s[..4] == WriteUInt32(v) && s[4..] == rest;
  }

  /** Every four bytes are the encoding of exactly the `uint` read from them. */
  lemma WriteUInt32OfRead(s: seq<byte>)
    requires 4 <= |s|
    ensures WriteUInt32(ReadUInt32(s).value.value) == s[..4]
  {
    IntToColor32OfColorToInt(Color32(s[3], s[2], s[1], s[0]));
  }

  /** Reading back a written `int`, negative ones included, gives it back. */
  lemma ReadInt32OfWrite(v: int32, rest: seq<byte>)
    ensures ReadInt32(WriteInt32(v) + rest) == Success(Read(v, rest))
  {
    ReadUInt32OfWrite(Unsigned(v), rest);
  }

  // ---------------------------------------------------------------------------
  // 7-bit encoded ints

  /** The weight of the `k`-th 7-bit group: 128^k. */
  function GroupWeight(k: nat): (w: nat)
    ensures w >= 1
  {
    if k == 0 then 1 else 0x80 * GroupWeight(k - 1)
  }

  /**
    The 7-bit groups of `u`, least significant first; every byte but the last
    has its high bit set.
  */
  function Groups(u: nat): (b: seq<byte>)
    ensures |b| >= 1
    decreases u
  {
    if u < 0x80 then [u] else [u % 0x80 + 0x80] + Groups(u / 0x80)
  }

  /**
    `Write7BitEncodedInt`: the groups of the value cast to `uint`, so a
    negative value takes five bytes.
  */
  function Write7BitEncodedInt(v: int32): (b: seq<byte>)
    ensures 1 <= |b|
  {
    Groups(Unsigned(v))
  }

  /**
    The loop of `Read7BitEncodedInt` from its `k`-th byte on, as the value of
    the groups still to come: one more byte, then stop on a clear high bit,
    or fail when five bytes have all had it set.  The source ORs each group,
    shifted by 7k, into the result; the groups do not overlap, so the result
    is their weighted sum.
  */
  function ReadGroups(s: seq<byte>, k: nat): (r: Parsed<nat>)
    requires k < 5
    ensures r.Success? ==> Suffix(r.value.rest, s) && 1 <= |s| - |r.value.rest| <= 5 - k
    decreases 5 - k
  {
    if |s| == 0 then Failure(EndOfStream)
    else if s[0] < 0x80 then Success(Read(s[0], s[1..]))
    else if k == 4 then Failure(BadVarint)
    else
      var more :- ReadGroups(s[1..], k + 1);
      Success(Read(s[0] % 0x80 + 0x80 * more.value, more.rest))
  }

  /** `Read7BitEncodedInt`: the groups gathered into a 32-bit `int`. */
  function Read7BitEncodedInt(s: seq<byte>): (r: Parsed<int32>)
    ensures r.Success? ==> Suffix(r.value.rest, s) && 1 <= |s| - |r.value.rest| <= 5
    ensures |s| == 0 ==> r == Failure(EndOfStream)
  {
    var g :- ReadGroups(s, 0);
    Success(Read(Signed(g.value % 0x1_0000_0000), g.rest))
  }

  /** Reading the groups of a value small enough for the groups left gives the value back. */
  lemma {:induction false} ReadGroupsOfGroups(u: nat, k: nat, rest: seq<byte>)
    requires k < 5 && u < GroupWeight(5 - k)
    ensures ReadGroups(Groups(u) + rest, k) == Success(Read(u, rest))
    decreases u
  {
    var s := Groups(u) + rest;
    if u < 0x80 {
      assert s[0] == u && s[1..] == rest;
    } else {
      LastGroupWeight(k);
      GroupQuotient(u, GroupWeight(4 - k));
      assert s[0] == u % 0x80 + 0x80 && s[1..] == Groups(u / 0x80) + rest;
      ReadGroupsOfGroups(u / 0x80, k + 1, rest);
    }
  }

  /** The weight of the groups still open after `k` of them. */
  lemma LastGroupWeight(k: nat)
    requires k < 5
    ensures GroupWeight(5 - k) == 0x80 * GroupWeight(4 - k)
    ensures k == 4 ==> GroupWeight(5 - k) == 0x80
  {
  }

  lemma GroupQuotient(u: nat, x: nat)
    requires u < 0x80 * x
    ensures u / 0x80 < x
  {
  }

  /** A written 7-bit encoded int reads back as the same `int`, negative ones included. */
  lemma Read7BitEncodedIntOfWrite(v: int32, rest: seq<byte>)
    ensures Read7BitEncodedInt(Write7BitEncodedInt(v) + rest) == Success(Read(v, rest))
  {
    FiveGroups();
    ReadGroupsOfGroups(Unsigned(v), 0, rest);
    SignedOfUnsigned(v);
  }

  /** The two casts undo each other. */
  lemma SignedOfUnsigned(v: int32)
    ensures Signed(Unsigned(v) % 0x1_0000_0000) == v
  {
  }

  /** Five groups hold 35 bits, more than a `uint` has. */
  lemma FiveGroups()
    ensures GroupWeight(5) == 0x8_0000_0000
  {
  }

  /** The reader throws `FormatException` exactly when five leading bytes all have the high bit set. */
  lemma {:induction false} ReadGroupsOverlong(s: seq<byte>, k: nat)
    requires k < 5
    ensures ReadGroups(s, k) == Failure(BadVarint) <==>
              |s| >= 5 - k && forall i :: 0 <= i < 5 - k ==> s[i] >= 0x80
    decreases 5 - k
  {
    if |s| > 0 && s[0] >= 0x80 && k < 4 {
      ReadGroupsOverlong(s[1..], k + 1);
      if |s| >= 5 - k && forall i :: 1 <= i < 5 - k ==> s[i] >= 0x80 {
        assert forall i :: 0 <= i < 4 - k ==> s[1..][i] >= 0x80;
      }
      if |s[1..]| >= 4 - k && forall i :: 0 <= i < 4 - k ==> s[1..][i] >= 0x80 {
        assert forall i :: 1 <= i < 5 - k ==> s[i] == s[1..][i - 1];
      }
    }
  }

  /** `Read7BitEncodedInt` fails with `FormatException` exactly on five continuation bytes. */
  lemma Read7BitEncodedIntOverlong(s: seq<byte>)
    ensures Read7BitEncodedInt(s) == Failure(BadVarint) <==>
              |s| >= 5 && forall i :: 0 <= i < 5 ==> s[i] >= 0x80
  {
    ReadGroupsOverlong(s, 0);
  }

  // ---------------------------------------------------------------------------
  // Strings

  /** A .NET string as `BinaryWriter` writes it: its UTF-8 bytes. */
  type Text = seq<byte>

  /**
    `Write(string)`: the byte count as a 7-bit encoded int, then the bytes.
    The count is an `int`, so a string has at most `MaxInt32` bytes.
  */
  function WriteString(t: Text): (b: seq<byte>)
    requires |t| <= MaxInt32
    ensures |b| > |t|
  {
    Write7BitEncodedInt(|t|) + t
  }

  /**
    `ReadString`: a 7-bit encoded byte count, then that many bytes.  A
    negative count is an `IOException`; a zero count is the empty string.
  */
  function ReadString(s: seq<byte>): (r: Parsed<Text>)
    ensures r.Success? ==> Suffix(r.value.rest, s) && |s| - |r.value.rest| > |r.value.value|
    ensures |s| == 0 ==> r == Failure(EndOfStream)
  {
    var n :- Read7BitEncodedInt(s);
    if n.value < 0 then Failure(NegativeStringLength)
    else ReadBytes(n.rest, n.value)
  }

  /** A written string reads back as itself, leaving what followed it. */
  lemma ReadStringOfWrite(t: Text, rest: seq<byte>)
    requires |t| <= MaxInt32
    ensures ReadString(WriteString(t) + rest) == Success(Read(t, rest))
  {
    var s := WriteString(t) + rest;
    assert s == Write7BitEncodedInt(|t|) + (t + rest);
    Read7BitEncodedIntOfWrite(|t|, t + rest);
    assert (t + rest)[..|t|] == t && (t + rest)[|t|..] == rest;
  }

  /** A string whose length prefix is a negative `int` is rejected before any of its bytes are read. */
  lemma ReadStringNegativeLength(v: int32, rest: seq<byte>)
    requires v < 0
    ensures ReadString(Write7BitEncodedInt(v) + rest) == Failure(NegativeStringLength)
  {
    Read7BitEncodedIntOfWrite(v, rest);
  }
}
