/** What a successful `isValid` buys the navigation layer: every read that
    navigation from the root can perform is inside the buffer, every string
    it can reach is NUL-terminated inside the buffer, and every item it can
    reach has one of the eleven node tags.

    Navigation may descend arbitrarily deep while the check is cut off at a
    depth, so the guarantees are stated to the same depth: an item is safe
    at depth d when it can be read and, if it is a container, the container
    is safe at depth d - 1. */
module Safety {
  import opened BymlTypes
  import opened BinaryFormat
  import opened Common
  import opened CString
  import opened Util
  import opened Validator
  import opened Document
  import opened Value

  /** String `index` of the table at `tableOffset` can be located and
      dereferenced. */
  ghost predicate StringResolves(reader: Reader, tableOffset: nat, index: u32) {
    && StringSlotOffset(tableOffset, index) + 4 <= reader.buffer.Size()
    && NulBefore(reader.buffer.data, GetStringOffset(reader.Br(), tableOffset, index), reader.buffer.Size())
  }

  /** Everything a caller can do with an item is defined. */
  ghost predicate SafeItem(d: ItemData, depth: nat)
    decreases depth, 0
  {
    var tag, raw, size := d.raw.tag, d.raw.raw, d.reader.buffer.Size();
    && IsNodeTag(tag)
    && d.ValReadable()
    && (tag == STRING ==> StringResolves(d.reader, d.reader.stringTableOffset, raw))
    && (tag == ARRAY ==> depth > 0 && SafeArray(NewArray(d.reader, raw), depth - 1))
    && (tag == HASH ==> depth > 0 && SafeHash(NewHash(d.reader, raw), depth - 1))
  }

  /** Every item of the array can be read and is safe. */
  ghost predicate SafeArray(a: Array, depth: nat)
    decreases depth, 1
  {
    && (forall idx: nat | idx < a.numItems :: a.ItemInBounds(idx))
    && (forall idx: nat | idx < a.numItems :: SafeItem(a.At(idx), depth))
  }

  /** Every entry of the hash can be read, its key resolves (so the hash is
      searchable), and its item is safe. */
  ghost predicate SafeHash(h: Hash, depth: nat)
    decreases depth, 1
  {
    forall idx: u32 | idx < h.numItems :: h.KeyReadable(idx) && SafeItem(h.Entry(idx).data, depth)
  }

  /** The reader's accepted tables, under the context `isValid` builds. */
  ghost predicate TablesReady(reader: Reader) {
    var data, h := reader.buffer.data, reader.Fields();
    var ctx := ValidationContext(data, h);
    && (h.hashKeyTableOffset != 0 ==> StringTableAccepted(ctx, h.hashKeyTableOffset))
    && (h.stringTableOffset != 0 ==> StringTableAccepted(ctx, h.stringTableOffset))
  }

  /** A string index below a table's length resolves in that table. */
  lemma {:induction false} IndexInTableResolves(reader: Reader, tableOffset: u32, index: u32)
    requires var ctx := ValidationContext(reader.buffer.data, reader.Fields());
      tableOffset != 0 ==> StringTableAccepted(ctx, tableOffset)
    requires index < TableLen(ValidationContext(reader.buffer.data, reader.Fields()), tableOffset)
    ensures StringResolves(reader, tableOffset, index)
  {
    var ctx := ValidationContext(reader.buffer.data, reader.Fields());
    assert StringEntryOk(ctx, tableOffset, index);
    var p := GetStringOffset(ctx.br, tableOffset, index);
    NulBeforeExtends(reader.buffer.data, p, ctx.bufferSize, reader.buffer.Size());
  }

  /** The context's table lengths are those of the reader's two tables. */
  lemma ContextTableLengths(reader: Reader)
    ensures var ctx := ValidationContext(reader.buffer.data, reader.Fields());
      && ctx.hashKeyTableLen == TableLen(ctx, reader.hashKeyTableOffset)
      && ctx.stringTableLen == TableLen(ctx, reader.stringTableOffset)
  {
  }

  /** A node the validator accepts is safe to the same depth. */
  lemma {:induction false} AcceptedNodeIsSafe(reader: Reader, raw: u32, tag: Byte, depth: nat)
    requires TablesReady(reader)
    requires NodeCheck(ValidationContext(reader.buffer.data, reader.Fields()), raw, tag, depth) == Accepted
    ensures SafeItem(ItemData(reader, RawItemData(raw, tag)), depth)
    decreases depth, 0
  {
    var ctx := ValidationContext(reader.buffer.data, reader.Fields());
    AcceptedNodeTag(ctx, raw, tag, depth);
    ContextTableLengths(reader);
    if tag == STRING {
      IndexInTableResolves(reader, reader.stringTableOffset, raw);
    } else if tag == ARRAY {
      AcceptedArrayIsSafe(reader, raw, depth - 1);
    } else if tag == HASH {
      AcceptedHashIsSafe(reader, raw, depth - 1);
    }
  }

  lemma {:induction false} AcceptedArrayIsSafe(reader: Reader, offset: u32, depth: nat)
    requires TablesReady(reader)
    requires ArrayCheck(ValidationContext(reader.buffer.data, reader.Fields()), offset, depth) == Accepted
    ensures offset + 4 <= reader.buffer.Size()
    ensures SafeArray(NewArray(reader, offset), depth)
    decreases depth, 1
  {
    var ctx := ValidationContext(reader.buffer.data, reader.Fields());
    var a := NewArray(reader, offset);
    var n := a.numItems;
    var values := GetArrayValuesOffset(offset, n);
    assert values + 4 * n <= ctx.bufferSize;
    forall idx: nat | idx < n
      ensures a.ItemInBounds(idx)
    {
    }
    forall idx: nat | idx < n
      ensures SafeItem(a.At(idx), depth)
    {
      ArrayChildAccepted(ctx, offset, n, 0, idx, depth);
      var item := ReadArrayItem(ctx.br, GetArrayTypesOffset(offset), values, idx);
      assert a.At(idx) == ItemData(reader, item);
      AcceptedNodeIsSafe(reader, item.raw, item.tag, depth);
    }
  }

  lemma {:induction false} AcceptedHashIsSafe(reader: Reader, offset: u32, depth: nat)
    requires TablesReady(reader)
    requires HashCheck(ValidationContext(reader.buffer.data, reader.Fields()), offset, depth) == Accepted
    ensures offset + 4 <= reader.buffer.Size()
    ensures SafeHash(NewHash(reader, offset), depth)
    decreases depth, 1
  {
    var ctx := ValidationContext(reader.buffer.data, reader.Fields());
    var h := NewHash(reader, offset);
    var n := h.numItems;
    assert GetHashItemsOffset(offset) + 8 * n <= ctx.bufferSize;
    ContextTableLengths(reader);
    forall idx: u32 | idx < n
      ensures h.KeyReadable(idx) && SafeItem(h.Entry(idx).data, depth)
    {
      HashChildAccepted(ctx, offset, n, 0, idx, depth);
      var item := ReadHashItemWithItemOffset(ctx.br, GetHashItemOffset(offset, idx));
      IndexInTableResolves(reader, reader.hashKeyTableOffset, item.keyIndex);
      assert h.Entry(idx).data == ItemData(reader, item.data);
      AcceptedNodeIsSafe(reader, item.data.raw, item.data.tag, depth);
    }
  }

  /** The main guarantee. For a document `isValid` accepts, the root
      queries are defined; a root array or hash is there exactly when the
      root query says so, and it is safe to one level less than the check's
      depth. */
  lemma ValidDocumentIsSafe(reader: Reader, depth: nat)
    requires Validity(reader.buffer.data, reader.Fields(), depth) == Accepted
    ensures reader.rootNodeOffset != 0 ==> reader.rootNodeOffset + 4 <= reader.buffer.Size()
    ensures GetRootArray(reader).Some? ==> depth > 0 && SafeArray(GetRootArray(reader).value, depth - 1)
    ensures GetRootHash(reader).Some? ==> depth > 0 && SafeHash(GetRootHash(reader).value, depth - 1)
    ensures reader.rootNodeOffset != 0 <==> GetRootArray(reader).Some? || GetRootHash(reader).Some?
  {
    var data, h := reader.buffer.data, reader.Fields();
    AcceptedDocument(data, h, depth);
    if h.rootNodeOffset != 0 {
      if data[h.rootNodeOffset] == ARRAY {
        AcceptedArrayIsSafe(reader, h.rootNodeOffset, depth - 1);
      } else {
        AcceptedHashIsSafe(reader, h.rootNodeOffset, depth - 1);
      }
    }
  }

  /** A safe hash can be searched by key. */
  lemma SafeHashIsSearchable(h: Hash, depth: nat)
    requires SafeHash(h, depth)
    ensures h.Searchable()
  {
  }

  /** A safe item meets the precondition of every accessor, and a string
      item denotes a NUL-terminated string inside the buffer. */
  lemma SafeItemAccessors(d: ItemData, depth: nat)
    requires SafeItem(d, depth)
    ensures d.raw.tag == HASH ==> d.GetHash().Some? && depth > 0 && SafeHash(d.GetHash().value, depth - 1)
    ensures d.raw.tag == ARRAY ==> d.GetArray().Some? && depth > 0 && SafeArray(d.GetArray().value, depth - 1)
    ensures d.raw.tag == STRING ==> d.GetString().Some? && NulBefore(d.reader.buffer.data, d.GetString().value, d.reader.buffer.Size())
    ensures IsOutOfLineTag(d.raw.tag) ==> d.raw.raw + 8 <= d.reader.buffer.Size()
    ensures d.Val() != Sentinel <==> d.raw.tag != NULL
  {
  }
}
