/** The on-disk layout of a BYML document: the 16-byte header and the node tags. */
module BinaryFormat {
  import opened BymlTypes

  // ResHeader: magic (2 bytes), version (u16), then three u32 offsets
  // measured from the start of the buffer.
  const HEADER_SIZE: nat := 0x10
  const MAGIC_OFFSET: nat := 0
  const VERSION_OFFSET: nat := 2
  const HASH_KEY_TABLE_OFFSET_FIELD: nat := 4
  const STRING_TABLE_OFFSET_FIELD: nat := 8
  const ROOT_NODE_OFFSET_FIELD: nat := 12

  // NodeType: the tag byte of every node. Any byte can appear in a file,
  // so a tag is a Byte and the named node types are constants.
  const STRING: Byte := 0xA0
  const ARRAY: Byte := 0xC0
  const HASH: Byte := 0xC1
  const STRING_TABLE: Byte := 0xC2
  const BOOL: Byte := 0xD0
  const INT: Byte := 0xD1
  const FLOAT: Byte := 0xD2
  const UINT: Byte := 0xD3
  const INT64: Byte := 0xD4
  const UINT64: Byte := 0xD5
  const DOUBLE: Byte := 0xD6
  const NULL: Byte := 0xFF

  /** The twelve named tags, pairwise distinct. */
  function NamedTags(): (tags: seq<Byte>)
    ensures |tags| == 12
    ensures forall i, j :: 0 <= i < j < |tags| ==> tags[i] != tags[j]
  {
    [STRING, ARRAY, HASH, STRING_TABLE, BOOL, INT, FLOAT, UINT, INT64, UINT64, DOUBLE, NULL]
  }

  /** The tags a child of an array or hash may carry: every named tag but the string table's. */
  predicate IsNodeTag(t: Byte) {
    t == STRING || t == ARRAY || t == HASH || t == BOOL || t == INT || t == FLOAT ||
    t == UINT || t == INT64 || t == UINT64 || t == DOUBLE || t == NULL
  }

  /** Tags whose 32-bit cell is an offset to an 8-byte value stored elsewhere. */
  predicate IsOutOfLineTag(t: Byte) {
    t == INT64 || t == UINT64 || t == DOUBLE
  }

  function IsContainerType(t: Byte): (r: bool)
    ensures r <==> t == ARRAY || t == HASH
  {
    t == ARRAY || t == HASH
  }

  /** The source tests the range Bool..UInt; the ensures names the six tags it covers. */
  function IsValueType(t: Byte): (r: bool)
    ensures r <==> t in {STRING, NULL, BOOL, INT, FLOAT, UINT}
    ensures IsOutOfLineTag(t) ==> !r
  {
    t == STRING || t == NULL || (BOOL <= t && t <= UINT)
  }

  /** No tag is both a container type and a value type, and every one of
      them is a node tag. */
  lemma ContainerAndValueTypesDisjoint(t: Byte)
    ensures !(IsContainerType(t) && IsValueType(t))
    ensures IsContainerType(t) || IsValueType(t) || IsOutOfLineTag(t) <==> IsNodeTag(t)
  {
  }
}
