/** A concrete document showing that `isValid` does not check the order of
    hash keys, which `getByKey` relies on for finding a key that is there.

    The document is big-endian, version 2:
      0x00  header: hash key table at 0x10, no string table, root at 0x24
      0x10  hash key table of 2 strings: "b" at 0x20, "a" at 0x22
      0x24  root hash of 2 entries: key 0 ("b") -> Bool 1, key 1 ("a") -> Bool 0
    Its keys run "b", "a": out of order. */
module Scenarios {
  import opened BymlTypes
  import opened BinaryFormat
  import opened Common
  import opened CString
  import opened Util
  import opened Validator
  import opened Document
  import opened Value

  function UnsortedDocument(): (data: seq<Byte>)
    ensures |data| == 0x38
  {
    // header
    [0x42, 0x59, 0x00, 0x02, 0x00, 0x00, 0x00, 0x10] +
    [0x00, 0x00, 0x00, 0x00, 0x00, 0x00, 0x00, 0x24] +
    // hash key table: tag, count 2, three slots
    [0xC2, 0x00, 0x00, 0x02, 0x00, 0x00, 0x00, 0x10] +
    [0x00, 0x00, 0x00, 0x12, 0x00, 0x00, 0x00, 0x14] +
    // "b\0" "a\0", then the root hash header
    [0x62, 0x00, 0x61, 0x00, 0xC1, 0x00, 0x00, 0x02] +
    // entry 0: key 0, Bool, 1
    [0x00, 0x00, 0x00, 0xD0, 0x00, 0x00, 0x00, 0x01] +
    // entry 1: key 1, Bool, 0
    [0x00, 0x00, 0x01, 0xD0, 0x00, 0x00, 0x00, 0x00]
  }

  /** The big-endian 32-bit word at `offset` of the document. */
  lemma Word(offset: nat)
    requires offset + 4 <= 0x38
    ensures var d := UnsortedDocument();
      ReadU32(BinaryReader(d, true), offset) ==
        d[offset] as int * 0x100_0000 + d[offset + 1] as int * 0x1_0000 + d[offset + 2] as int * 0x100 + d[offset + 3] as int
  {
    ReadU32Bytes(BinaryReader(UnsortedDocument(), true), offset);
  }

  lemma HeaderWords()
    ensures var br := BinaryReader(UnsortedDocument(), true);
      && ReadU16(br, VERSION_OFFSET) == 2
      && ReadU32(br, HASH_KEY_TABLE_OFFSET_FIELD) == 0x10
      && ReadU32(br, STRING_TABLE_OFFSET_FIELD) == 0
      && ReadU32(br, ROOT_NODE_OFFSET_FIELD) == 0x24
  {
    ReadU16Bytes(BinaryReader(UnsortedDocument(), true), VERSION_OFFSET);
    Word(4);
    Word(8);
    Word(12);
  }

  lemma HeaderOfUnsortedDocument()
    ensures ParseHeader(UnsortedDocument()) == HeaderFields(true, 0x10, 0, 0x24, true)
  {
    HeaderWords();
  }

  const HEADER := HeaderFields(true, 0x10, 0, 0x24, true)

  /** The context `isValid` builds for the document. */
  function DocContext(): (ctx: Context)
    ensures ContextOk(ctx)
  {
    ValidationContext(UnsortedDocument(), HEADER)
  }

  lemma ContextOfUnsortedDocument()
    ensures DocContext().br == BinaryReader(UnsortedDocument(), true)
    ensures DocContext().bufferSize == 0x38
    ensures DocContext().hashKeyTableLen == 2 && DocContext().stringTableLen == 0
    ensures ReadU24(BinaryReader(UnsortedDocument(), true), 0x11) == 2
  {
    var ctx := DocContext();
    assert ctx.bufferSize == 0x38;
    assert ReadU24(ctx.br, 0x11) == 2;
  }

  /** Key slot `idx` of the table at 0x10 holds the relative offset `rel`. */
  lemma KeySlot(idx: u32, rel: nat)
    requires idx < 2 && rel < 0x100
    requires var d := UnsortedDocument();
      d[0x14 + 4 * idx] == 0 && d[0x15 + 4 * idx] == 0 && d[0x16 + 4 * idx] == 0 && d[0x17 + 4 * idx] == rel
    ensures GetStringOffset(BinaryReader(UnsortedDocument(), true), 0x10, idx) == 0x10 + rel
  {
    Word(0x14 + 4 * idx);
  }

  /** The two key slots point at "b" and "a". */
  lemma KeySlots()
    ensures GetStringOffset(BinaryReader(UnsortedDocument(), true), 0x10, 0) == 0x20
    ensures GetStringOffset(BinaryReader(UnsortedDocument(), true), 0x10, 1) == 0x22
  {
    KeySlot(0, 0x10);
    KeySlot(1, 0x12);
  }

  /** A string of one byte. */
  lemma OneByteString(s: seq<Byte>, p: nat, maxLen: nat)
    requires p + maxLen <= |s| && 2 <= maxLen
    requires s[p] != 0 && s[p + 1] == 0
    ensures StrNLen(s, p, maxLen) == 1
  {
    assert StrNLen(s, p + 1, maxLen - 1) == 0;
  }

  lemma KeysEndInNul()
    ensures StrNLen(UnsortedDocument(), 0x20, 0x38 - 0x20) == 1
    ensures StrNLen(UnsortedDocument(), 0x22, 0x38 - 0x22) == 1
  {
    OneByteString(UnsortedDocument(), 0x20, 0x38 - 0x20);
    OneByteString(UnsortedDocument(), 0x22, 0x38 - 0x22);
  }

  lemma KeyTableAccepted()
    ensures StringTableAccepted(DocContext(), 0x10)
  {
    var ctx := DocContext();
    ContextOfUnsortedDocument();
    KeySlots();
    KeysEndInNul();
    forall i: u32 | i < 2
      ensures StringEntryOk(ctx, 0x10, i)
    {
      assert i == 0 || i == 1;
    }
  }

  /** The root hash's two entries: key 0 and key 1, both Bool. */
  lemma RootEntries()
    ensures var br := BinaryReader(UnsortedDocument(), true);
      && ReadContainerSize(br, 0x24) == 2
      && ReadHashItemWithItemOffset(br, GetHashItemOffset(0x24, 0)).keyIndex == 0
      && ReadHashItemWithItemOffset(br, GetHashItemOffset(0x24, 0)).data.tag == BOOL
      && ReadHashItemWithItemOffset(br, GetHashItemOffset(0x24, 1)).keyIndex == 1
      && ReadHashItemWithItemOffset(br, GetHashItemOffset(0x24, 1)).data.tag == BOOL
  {
  }

  lemma RootHashAccepted(depth: nat)
    ensures HashCheck(DocContext(), 0x24, depth) == Accepted
  {
    var ctx := DocContext();
    ContextOfUnsortedDocument();
    RootEntries();
    assert HashItemsCheck(ctx, 0x24, 2, 2, depth) == Accepted;
    assert HashItemsCheck(ctx, 0x24, 2, 1, depth) == Accepted;
    assert HashItemsCheck(ctx, 0x24, 2, 0, depth) == Accepted;
  }

  /** A document with a valid header, one accepted key table, no string
      table and an accepted root hash passes `isValid`. */
  lemma RootHashDocumentIsValid(data: seq<Byte>, h: HeaderFields, depth: nat)
    requires h.hasValidHeader && h.stringTableOffset == 0
    requires h.hashKeyTableOffset != 0 && h.rootNodeOffset != 0
    requires h.hashKeyTableOffset < |data| && h.rootNodeOffset < |data|
    requires StringTableAccepted(ValidationContext(data, h), h.hashKeyTableOffset)
    requires data[h.rootNodeOffset] == HASH && depth >= 1
    requires HashCheck(ValidationContext(data, h), h.rootNodeOffset, depth - 1) == Accepted
    ensures Validity(data, h, depth) == Accepted
  {
  }

  /** The document passes `isValid` as soon as the check may enter the root. */
  lemma UnsortedDocumentIsValid(depth: nat)
    requires depth >= 1
    ensures Validity(UnsortedDocument(), HEADER, depth) == Accepted
  {
    KeyTableAccepted();
    RootHashAccepted(depth - 1);
    DocumentBytes();
    RootHashDocumentIsValid(UnsortedDocument(), HEADER, depth);
  }

  /** An entry whose key is a one-byte string. */
  lemma OneByteKey(h: Hash, idx: u32, b: Byte)
    requires h.EntryReadable(idx)
    requires h.Entry(idx).name + 2 <= h.reader.buffer.Size()
    requires b != 0
    requires h.reader.buffer.data[h.Entry(idx).name] == b
    requires h.reader.buffer.data[h.Entry(idx).name + 1] == 0
    ensures h.KeyReadable(idx) && h.KeyAt(idx) == [b]
  {
    var s, p := h.reader.buffer.data, h.Entry(idx).name;
    OneByteString(s, p, |s| - p);
  }

  /** A two-entry hash at 0x24 over a key table at 0x10 whose entries name
      key 0 and key 1, the table's strings being "b" and "a". */
  lemma KeysOfHash(h: Hash)
    requires h.offset == 0x24 && h.numItems == 2
    requires h.reader.hashKeyTableOffset == 0x10 && h.reader.buffer.Size() == 0x38
    requires var br := h.reader.Br();
      && ReadHashItemWithItemOffset(br, GetHashItemOffset(0x24, 0)).keyIndex == 0
      && ReadHashItemWithItemOffset(br, GetHashItemOffset(0x24, 1)).keyIndex == 1
      && GetStringOffset(br, 0x10, 0) == 0x20
      && GetStringOffset(br, 0x10, 1) == 0x22
    requires var d := h.reader.buffer.data;
      d[0x20] == 0x62 && d[0x21] == 0 && d[0x22] == 0x61 && d[0x23] == 0
    ensures h.Searchable() && h.KeyAt(0) == [0x62] && h.KeyAt(1) == [0x61]
  {
    assert h.EntryReadable(0) && h.Entry(0).name == 0x20;
    assert h.EntryReadable(1) && h.Entry(1).name == 0x22;
    OneByteKey(h, 0, 0x62);
    OneByteKey(h, 1, 0x61);
    forall idx: u32 | idx < h.numItems
      ensures h.KeyReadable(idx)
    {
      assert idx == 0 || idx == 1;
    }
  }

  /** Keys "b" then "a" are out of order. */
  lemma DescendingKeysAreNotSorted(h: Hash)
    requires h.Searchable() && 2 <= h.numItems
    requires h.KeyAt(0) == [0x62] && h.KeyAt(1) == [0x61]
    ensures !h.SortedKeys()
    ensures Less(h.KeyAt(1), h.KeyAt(0))
  {
    assert Compare([0x62], [0x61]) == 1;
    CompareMeaning([0x62], [0x61]);
  }

  /** With keys "b" then "a", the binary search for "a" probes entry 0,
      finds "b" greater and gives up below it: the key present at entry 1
      is not found. */
  lemma SearchMissesSecondKey(h: Hash)
    requires h.Searchable() && h.numItems == 2
    requires h.KeyAt(0) == [0x62] && h.KeyAt(1) == [0x61]
    ensures h.Search([0x61], 0, 1) == None
  {
    assert Compare([0x62], [0x61]) == 1;
  }

  /** The key table's strings and the root hash's own bytes. */
  lemma DocumentBytes()
    ensures var d := UnsortedDocument();
      && d[0x20] == 0x62 && d[0x21] == 0 && d[0x22] == 0x61 && d[0x23] == 0
      && d[0x24] == HASH
  {
  }

  /** Over this valid document the root hash can be searched, yet its keys
      are not sorted: what `isValid` accepts does not meet the condition
      under which `getByKey` finds every key that is present. */
  lemma ValidationDoesNotImplySortedKeys(reader: Reader)
    requires reader.buffer.data == UnsortedDocument()
    requires reader.Fields() == ParseHeader(UnsortedDocument())
    ensures Validity(reader.buffer.data, reader.Fields(), 1) == Accepted
    ensures GetRootHash(reader).Some?
    ensures GetRootHash(reader).value.Searchable()
    ensures !GetRootHash(reader).value.SortedKeys()
    ensures GetRootHash(reader).value.KeyAt(1) == [0x61]
    ensures GetRootHash(reader).value.Search([0x61], 0, 1) == None
  {
    HeaderOfUnsortedDocument();
    UnsortedDocumentIsValid(1);
    DocumentBytes();
    RootEntries();
    KeySlots();
    var hash := GetRootHash(reader).value;
    KeysOfHash(hash);
    DescendingKeysAreNotSorted(hash);
    SearchMissesSecondKey(hash);
  }
}
