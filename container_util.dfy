/** Offset arithmetic of string tables, arrays and hashes, and the raw reads
    of their entries. Offsets are 64-bit in the source and `nat` here; the
    index products `4 * idx` and `8 * idx` are computed in 32 bits and wrap. */
module Util {
  import opened BymlTypes
  import opened Common

  /** The raw cell of a container item: the 32-bit word and its type tag. */
  datatype RawItemData = RawItemData(raw: u32, tag: Byte)

  /** A hash entry: the index of its key in the hash key table and its item. */
  datatype RawHashItem = RawHashItem(keyIndex: u32, data: RawItemData)

  /** `common::AlignUp(n, 4)`: the least multiple of 4 that is at least n. */
  function AlignUp4(n: nat): (r: nat)
    ensures r % 4 == 0 && n <= r < n + 4
  {
    (n + 3) / 4 * 4
  }

  /** The slot of string `idx` of the table at `tableOffset`. */
  function StringSlotOffset(tableOffset: nat, idx: u32): nat {
    tableOffset + 4 + U32(4 * idx)
  }

  /** `getStringOffset`: the position of string `idx`, whose slot holds its
      offset relative to the table. */
  function GetStringOffset(br: BinaryReader, tableOffset: nat, idx: u32): (r: nat)
    requires StringSlotOffset(tableOffset, idx) + 4 <= |br.data|
    ensures idx < 0x4000_0000 ==> r == tableOffset + ReadU32(br, tableOffset + 4 + 4 * idx)
  {
    tableOffset + ReadU32(br, StringSlotOffset(tableOffset, idx))
  }

  /** `readContainerSize`: the 24-bit count after the tag byte. */
  function ReadContainerSize(br: BinaryReader, offset: nat): (n: u32)
    requires offset + 4 <= |br.data|
    ensures n < 0x100_0000
    ensures n == ReadUnsigned(br, offset + 1, 3)
  {
    ReadU24IsThreeByteRead(br, offset + 1);
    ReadU24(br, offset + 1)
  }

  function GetArrayTypesOffset(offset: nat): nat {
    offset + 4
  }

  /** The values of an array start after its count header and its type
      bytes padded to a multiple of 4. */
  function GetArrayValuesOffset(offset: nat, numItems: u32): (r: nat)
    ensures r >= GetArrayTypesOffset(offset) + numItems
    ensures (r - offset) % 4 == 0
    ensures r < GetArrayTypesOffset(offset) + numItems + 4
  {
    GetArrayTypesOffset(offset) + AlignUp4(numItems)
  }

  /** `readArrayItem`: value word `idx` and type byte `idx`. */
  function ReadArrayItem(br: BinaryReader, typesOffset: nat, valuesOffset: nat, idx: u32): (item: RawItemData)
    requires valuesOffset + U32(4 * idx) + 4 <= |br.data|
    requires typesOffset + idx < |br.data|
    ensures idx < 0x4000_0000 ==> item.raw == ReadU32(br, valuesOffset + 4 * idx)
    ensures item.tag == br.data[typesOffset + idx]
  {
    RawItemData(ReadU32(br, valuesOffset + U32(4 * idx)), ReadU8(br, typesOffset + idx))
  }

  function GetHashItemsOffset(offset: nat): nat {
    offset + 4
  }

  /** Entry `idx` of a hash is the idx-th 8-byte record after the header. */
  function GetHashItemOffset(offset: nat, idx: u32): (r: nat)
    ensures idx < 0x2000_0000 ==> r == GetHashItemsOffset(offset) + 8 * idx
  {
    GetHashItemsOffset(offset) + U32(8 * idx)
  }

  /** `readHashItemWithItemOffset`: 24-bit key index, type byte, value word. */
  function ReadHashItemWithItemOffset(br: BinaryReader, itemOffset: nat): (item: RawHashItem)
    requires itemOffset + 8 <= |br.data|
    ensures item.keyIndex < 0x100_0000 && item.keyIndex == ReadUnsigned(br, itemOffset, 3)
    ensures item.data.tag == br.data[itemOffset + 3]
    ensures item.data.raw == ReadU32(br, itemOffset + 4)
  {
    ReadU24IsThreeByteRead(br, itemOffset);
    RawHashItem(ReadU24(br, itemOffset), RawItemData(ReadU32(br, itemOffset + 4), ReadU8(br, itemOffset + 3)))
  }

  /** `readHashItem`: entry `idx` of the hash at `offset`, read at its
      8-byte record. */
  function ReadHashItem(br: BinaryReader, offset: nat, idx: u32): (item: RawHashItem)
    requires GetHashItemOffset(offset, idx) + 8 <= |br.data|
    ensures idx < 0x2000_0000 ==>
      && item.keyIndex == ReadUnsigned(br, offset + 4 + 8 * idx, 3)
      && item.data.tag == br.data[offset + 4 + 8 * idx + 3]
      && item.data.raw == ReadU32(br, offset + 4 + 8 * idx + 4)
  {
    ReadHashItemWithItemOffset(br, GetHashItemOffset(offset, idx))
  }

  /** A container's header is its tag byte and the 24-bit count that
      `ReadContainerSize` reads: the array's type bytes and the hash's first
      entry both begin where that count ends. */
  lemma ContainerHeaderIsFourBytes(br: BinaryReader, offset: nat)
    requires offset + 4 <= |br.data|
    ensures GetArrayTypesOffset(offset) == GetHashItemsOffset(offset) == GetHashItemOffset(offset, 0)
    ensures GetArrayTypesOffset(offset) == offset + 1 + 3
    ensures ReadContainerSize(br, offset) == ReadUnsigned(br, offset + 1, GetArrayTypesOffset(offset) - (offset + 1))
  {
  }

  /** In an array with fewer than 2^24 items, type byte i lies before the
      values, and the value words that `ReadArrayItem` reads for two indices,
      at the u32-wrapped offsets, do not overlap. */
  lemma ArrayLayoutDisjoint(offset: nat, numItems: u32, i: u32, j: u32)
    requires i < numItems < 0x100_0000 && j < numItems
    ensures GetArrayTypesOffset(offset) + i < GetArrayValuesOffset(offset, numItems)
    ensures var v := GetArrayValuesOffset(offset, numItems); i < j ==> v + U32(4 * i) + 4 <= v + U32(4 * j)
  {
  }

  /** Two entries of a hash with fewer than 2^24 items occupy disjoint 8-byte records. */
  lemma HashEntriesDisjoint(offset: nat, i: u32, j: u32)
    requires i < j < 0x100_0000
    ensures GetHashItemOffset(offset, i) + 8 <= GetHashItemOffset(offset, j)
  {
  }
}
