/** `BinaryReader`: fixed-width reads from an immutable byte buffer in the
    document's byte order. The host's byte order drops out: the result of a
    read is defined directly by the document's endianness. */
module Common {
  import opened BymlTypes

  datatype BinaryReader = BinaryReader(data: seq<Byte>, bigEndian: bool)

  function Pow256(n: nat): (r: nat)
    ensures r > 0
  {
    if n == 0 then 1 else 256 * Pow256(n - 1)
  }

  /** The number whose big-endian bytes are `s` (most significant first). */
  function BigEndianValue(s: seq<Byte>): (r: nat)
    ensures r < Pow256(|s|)
  {
    if s == [] then 0 else BigEndianValue(s[..|s| - 1]) * 256 + s[|s| - 1]
  }

  /** The number whose little-endian bytes are `s` (least significant first). */
  function LittleEndianValue(s: seq<Byte>): (r: nat)
    ensures r < Pow256(|s|)
  {
    if s == [] then 0 else s[0] + 256 * LittleEndianValue(s[1..])
  }

  function Reverse(s: seq<Byte>): (r: seq<Byte>)
    ensures |r| == |s|
  {
    if s == [] then [] else Reverse(s[1..]) + [s[0]]
  }

  /** Little-endian is big-endian read backwards: a window and its reversal
      give the same number in the two byte orders. */
  lemma {:induction false} LittleEndianIsReversedBigEndian(s: seq<Byte>)
    ensures LittleEndianValue(s) == BigEndianValue(Reverse(s))
  {
    if s != [] {
      var t := Reverse(s);
      assert t[..|t| - 1] == Reverse(s[1..]);
      LittleEndianIsReversedBigEndian(s[1..]);
    }
  }

  /** `read<T>(offset)` for an unsigned T of `width` bytes: the memcpy of
      bytes [offset, offset + width) followed by the swap to the document's
      byte order. */
  function ReadUnsigned(br: BinaryReader, offset: nat, width: nat): (r: nat)
    requires offset + width <= |br.data|
    ensures r < Pow256(width)
  {
    var window := br.data[offset..offset + width];
    if br.bigEndian then BigEndianValue(window) else LittleEndianValue(window)
  }

  /** A read sees nothing but its own window and the byte order: the same
      bytes placed anywhere in any buffer read the same. */
  lemma ReadSeesOnlyItsWindow(br: BinaryReader, offset: nat, width: nat, other: BinaryReader, at: nat)
    requires offset + width <= |br.data| && at + width <= |other.data|
    requires other.bigEndian == br.bigEndian
    requires other.data[at..at + width] == br.data[offset..offset + width]
    ensures ReadUnsigned(other, at, width) == ReadUnsigned(br, offset, width)
  {
  }

  /** Reading the reversed window in the opposite byte order gives the same value. */
  lemma {:induction false} ReadOppositeOrder(br: BinaryReader, offset: nat, width: nat, other: BinaryReader, at: nat)
    requires offset + width <= |br.data| && at + width <= |other.data|
    requires other.bigEndian == !br.bigEndian
    requires other.data[at..at + width] == Reverse(br.data[offset..offset + width])
    ensures ReadUnsigned(other, at, width) == ReadUnsigned(br, offset, width)
  {
    var w := br.data[offset..offset + width];
    LittleEndianIsReversedBigEndian(w);
    ReverseReverse(w);
    LittleEndianIsReversedBigEndian(Reverse(w));
  }

  lemma {:induction false} ReverseReverse(s: seq<Byte>)
    ensures Reverse(Reverse(s)) == s
  {
    if s != [] {
      ReverseAppend(Reverse(s[1..]), [s[0]]);
      ReverseReverse(s[1..]);
    }
  }

  lemma {:induction false} ReverseAppend(a: seq<Byte>, b: seq<Byte>)
    ensures Reverse(a + b) == Reverse(b) + Reverse(a)
  {
    if a == [] {
      assert a + b == b;
    } else {
      assert (a + b)[1..] == a[1..] + b;
      ReverseAppend(a[1..], b);
    }
  }

  function ReadU8(br: BinaryReader, offset: nat): (r: Byte)
    requires offset + 1 <= |br.data|
    ensures r == br.data[offset]
  {
    assert br.data[offset..offset + 1] == [br.data[offset]];
    assert br.data[offset..offset + 1][1..] == [];
    ReadUnsigned(br, offset, 1)
  }

  function ReadU16(br: BinaryReader, offset: nat): (r: u16)
    requires offset + 2 <= |br.data|
  {
    ReadUnsigned(br, offset, 2)
  }

  function ReadU32(br: BinaryReader, offset: nat): (r: u32)
    requires offset + 4 <= |br.data|
  {
    ReadUnsigned(br, offset, 4)
  }

  function ReadU64(br: BinaryReader, offset: nat): (r: u64)
    requires offset + 8 <= |br.data|
  {
    assert Pow256(8) == 0x1_0000_0000_0000_0000;
    ReadUnsigned(br, offset, 8)
  }

  /** `read<T>` for u16, u32 and u64: the bytes copied out, byte-swapped
      when the document is little-endian, then taken most significant byte
      first. */
  lemma FixedWidthReads(br: BinaryReader, offset: nat)
    requires offset + 2 <= |br.data|
    ensures var w := br.data[offset..offset + 2];
      ReadU16(br, offset) == BigEndianValue(if br.bigEndian then w else Reverse(w))
    ensures offset + 4 <= |br.data| ==> var w := br.data[offset..offset + 4];
      ReadU32(br, offset) == BigEndianValue(if br.bigEndian then w else Reverse(w))
    ensures offset + 8 <= |br.data| ==> var w := br.data[offset..offset + 8];
      ReadU64(br, offset) == BigEndianValue(if br.bigEndian then w else Reverse(w))
  {
    LittleEndianIsReversedBigEndian(br.data[offset..offset + 2]);
    if offset + 4 <= |br.data| {
      LittleEndianIsReversedBigEndian(br.data[offset..offset + 4]);
    }
    if offset + 8 <= |br.data| {
      LittleEndianIsReversedBigEndian(br.data[offset..offset + 8]);
    }
  }

  /** `read<s64>`: the two's-complement reading of the 8-byte word. */
  function ReadS64(br: BinaryReader, offset: nat): (r: s64)
    requires offset + 8 <= |br.data|
    ensures r >= 0 ==> r == ReadU64(br, offset)
    ensures r < 0 ==> r + 0x1_0000_0000_0000_0000 == ReadU64(br, offset)
  {
    ToS64(ReadU64(br, offset))
  }

  /** `readU24`: the three bytes at `offset` with an explicit bit order. */
  function ReadU24(br: BinaryReader, offset: nat): (r: u32)
    requires offset + 3 <= |br.data|
    ensures r < 0x100_0000
  {
    var b0: int, b1: int, b2: int := br.data[offset], br.data[offset + 1], br.data[offset + 2];
    if br.bigEndian then b0 * 0x1_0000 + b1 * 0x100 + b2
    else b2 * 0x1_0000 + b1 * 0x100 + b0
  }

  /** The 24-bit read agrees with a generic 3-byte read in the document's byte order. */
  lemma ReadU24IsThreeByteRead(br: BinaryReader, offset: nat)
    requires offset + 3 <= |br.data|
    ensures ReadU24(br, offset) == ReadUnsigned(br, offset, 3)
  {
    var w := br.data[offset..offset + 3];
    BigEndianBytes(w);
    LittleEndianBytes(w);
  }

  /** A 32-bit read spelled out byte by byte. */
  lemma ReadU32Bytes(br: BinaryReader, offset: nat)
    requires offset + 4 <= |br.data|
    ensures var b0: int, b1: int, b2: int, b3: int :=
        br.data[offset], br.data[offset + 1], br.data[offset + 2], br.data[offset + 3];
      ReadU32(br, offset) ==
        if br.bigEndian then b0 * 0x100_0000 + b1 * 0x1_0000 + b2 * 0x100 + b3
        else b3 * 0x100_0000 + b2 * 0x1_0000 + b1 * 0x100 + b0
  {
    var w := br.data[offset..offset + 4];
    BigEndianBytes(w);
    LittleEndianBytes(w);
  }

  /** A 16-bit read spelled out byte by byte. */
  lemma ReadU16Bytes(br: BinaryReader, offset: nat)
    requires offset + 2 <= |br.data|
    ensures var b0: int, b1: int := br.data[offset], br.data[offset + 1];
      ReadU16(br, offset) == if br.bigEndian then b0 * 0x100 + b1 else b1 * 0x100 + b0
  {
    var w := br.data[offset..offset + 2];
    assert w[..1][..0] == [] && w[1..][1..] == [];
    assert BigEndianValue(w[..1]) == w[0];
    assert BigEndianValue(w) == w[0] as int * 0x100 + w[1];
    assert LittleEndianValue(w[1..]) == w[1];
    assert LittleEndianValue(w) == w[1] as int * 0x100 + w[0];
  }

  lemma BigEndianBytes(w: seq<Byte>)
    requires 3 <= |w| <= 4
    ensures |w| == 3 ==> BigEndianValue(w) == w[0] as int * 0x1_0000 + w[1] as int * 0x100 + w[2]
    ensures |w| == 4 ==>
      BigEndianValue(w) == w[0] as int * 0x100_0000 + w[1] as int * 0x1_0000 + w[2] as int * 0x100 + w[3]
  {
    var w3 := w[..3];
    assert w3[..2][..1][..0] == [];
    assert BigEndianValue(w3[..2][..1]) == w[0];
    assert BigEndianValue(w3[..2]) == w[0] as int * 0x100 + w[1];
    assert BigEndianValue(w3) == w[0] as int * 0x1_0000 + w[1] as int * 0x100 + w[2];
    if |w| == 4 {
      assert w[..3] == w3;
    } else {
      assert w == w3;
    }
  }

  lemma LittleEndianBytes(w: seq<Byte>)
    requires 3 <= |w| <= 4
    ensures |w| == 3 ==> LittleEndianValue(w) == w[2] as int * 0x1_0000 + w[1] as int * 0x100 + w[0]
    ensures |w| == 4 ==>
      LittleEndianValue(w) == w[3] as int * 0x100_0000 + w[2] as int * 0x1_0000 + w[1] as int * 0x100 + w[0]
  {
    var t := w[|w| - 3..];
    assert t[1..][1..][1..] == [];
    assert LittleEndianValue(t[1..][1..]) == t[2];
    assert LittleEndianValue(t[1..]) == t[1] as int + 0x100 * (t[2] as int);
    assert LittleEndianValue(t) == t[0] as int + 0x100 * (t[1] as int) + 0x1_0000 * (t[2] as int);
    if |w| == 4 {
      assert w[1..] == t;
    } else {
      assert w == t;
    }
  }

  /** `getString(offset)`: a pointer to buffer position `offset`; no bytes are copied. */
  function GetString(br: BinaryReader, offset: nat): (p: nat)
    ensures p == offset
  {
    offset
  }
}
