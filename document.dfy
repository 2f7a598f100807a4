/** `byml::Buffer` and `byml::Reader`: the header parse done by the
    constructor, the whole-document check `isValid`, and the root queries. */
module Document {
  import opened BymlTypes
  import opened BinaryFormat
  import opened Common
  import opened CString
  import opened Validator

  /** A non-owning view of the document bytes. */
  datatype Buffer = Buffer(data: seq<Byte>) {
    function Size(): (n: nat)
      ensures n == |data|
    {
      |data|
    }
  }

  /** The state the constructor leaves in a `Reader`. */
  datatype HeaderFields = HeaderFields(
    bigEndian: bool,
    hashKeyTableOffset: u32,
    stringTableOffset: u32,
    rootNodeOffset: u32,
    hasValidHeader: bool)

  /** The fields before the constructor body runs: no offsets, header not
      valid, little-endian. */
  const DefaultFields := HeaderFields(false, 0, 0, 0, false)

  const MAGIC_B: Byte := 0x42
  const MAGIC_Y: Byte := 0x59

  predicate IsKnownVersion(v: nat) {
    v == 2 || v == 3
  }

  /** What the constructor computes from the bytes. */
  function ParseHeader(data: seq<Byte>): (h: HeaderFields)
    ensures |data| < HEADER_SIZE ==> h == DefaultFields
    ensures h.bigEndian <==> |data| >= HEADER_SIZE && data[0] == MAGIC_B && data[1] == MAGIC_Y
    ensures h.hasValidHeader <==>
      && |data| >= HEADER_SIZE
      && ((data[0] == MAGIC_B && data[1] == MAGIC_Y) || (data[0] == MAGIC_Y && data[1] == MAGIC_B))
      && IsKnownVersion(ReadU16(BinaryReader(data, h.bigEndian), VERSION_OFFSET))
    ensures !h.hasValidHeader ==> h.hashKeyTableOffset == 0 && h.stringTableOffset == 0 && h.rootNodeOffset == 0
    ensures h.hasValidHeader ==>
      var br := BinaryReader(data, h.bigEndian);
      && h.hashKeyTableOffset == ReadU32(br, HASH_KEY_TABLE_OFFSET_FIELD)
      && h.stringTableOffset == ReadU32(br, STRING_TABLE_OFFSET_FIELD)
      && h.rootNodeOffset == ReadU32(br, ROOT_NODE_OFFSET_FIELD)
  {
    if |data| < HEADER_SIZE then DefaultFields
    else
      var isBigEndian := data[0] == MAGIC_B && data[1] == MAGIC_Y;
      var isLittleEndian := data[0] == MAGIC_Y && data[1] == MAGIC_B;
      if !isBigEndian && !isLittleEndian then DefaultFields
      else
        var br := BinaryReader(data, isBigEndian);
        if !IsKnownVersion(ReadU16(br, VERSION_OFFSET)) then DefaultFields.(bigEndian := isBigEndian)
        else
          HeaderFields(isBigEndian, ReadU32(br, HASH_KEY_TABLE_OFFSET_FIELD),
            ReadU32(br, STRING_TABLE_OFFSET_FIELD), ReadU32(br, ROOT_NODE_OFFSET_FIELD), true)
  }

  /** The validator's context once both tables are checked: each table
      length is the count its `checkStringTable` reported, or 0 when the
      table offset is 0. */
  function ValidationContext(data: seq<Byte>, h: HeaderFields): (ctx: Context)
    ensures ContextOk(ctx) && ctx.br == BinaryReader(data, h.bigEndian)
    ensures ctx.bufferSize == U32(|data|)
  {
    var ctx0 := Context(BinaryReader(data, h.bigEndian), U32(|data|), 0, 0);
    Context(ctx0.br, ctx0.bufferSize, TableLen(ctx0, h.hashKeyTableOffset), TableLen(ctx0, h.stringTableOffset))
  }

  function TableLen(ctx: Context, offset: nat): u32
    requires ContextOk(ctx)
  {
    if offset != 0 && offset + 4 <= ctx.bufferSize && ctx.br.data[offset] == STRING_TABLE
    then ReadU24(ctx.br, offset + 1) else 0
  }

  /** The table checks read neither table length. */
  lemma StringTableIgnoresLengths(ctx: Context, ctx': Context, offset: nat)
    requires ContextOk(ctx) && ctx'.br == ctx.br && ctx'.bufferSize == ctx.bufferSize
    ensures StringTableAccepted(ctx', offset) == StringTableAccepted(ctx, offset)
  {
    if offset + 4 <= ctx.bufferSize && ctx.br.data[offset] == STRING_TABLE {
      var n := ReadU24(ctx.br, offset + 1);
      if offset + 4 + 4 * (n + 1) <= ctx.bufferSize {
        assert forall i: u32 | i < n :: StringEntryOk(ctx', offset, i) == StringEntryOk(ctx, offset, i);
      }
    }
  }

  /** What `isValid` returns, with the nested node checks cut off at `depth`. */
  function Validity(data: seq<Byte>, h: HeaderFields, depth: nat): (o: Outcome)
    ensures o != Rejected ==> h.hasValidHeader
    ensures o != Rejected ==>
      h.hashKeyTableOffset < |data| && h.stringTableOffset < |data| && h.rootNodeOffset < |data|
    ensures o == Unfinished ==> h.rootNodeOffset != 0
    ensures h.rootNodeOffset != 0 && o != Rejected ==>
      data[h.rootNodeOffset] == ARRAY || data[h.rootNodeOffset] == HASH
  {
    if !h.hasValidHeader then Rejected
    else if |data| <= h.hashKeyTableOffset || |data| <= h.stringTableOffset || |data| <= h.rootNodeOffset then Rejected
    else
      var ctx := ValidationContext(data, h);
      if h.hashKeyTableOffset != 0 && !StringTableAccepted(ctx, h.hashKeyTableOffset) then Rejected
      else if h.stringTableOffset != 0 && !StringTableAccepted(ctx, h.stringTableOffset) then Rejected
      else if h.rootNodeOffset == 0 then Accepted
      else
        var tag := data[h.rootNodeOffset];
        if tag != ARRAY && tag != HASH then Rejected
        else NodeCheck(ctx, h.rootNodeOffset, tag, depth)
  }

  /** `checkRootNodeType`: a nonzero root offset whose byte is the tag. */
  function CheckRootNodeType(data: seq<Byte>, offset: u32, tag: Byte): (r: bool)
    requires offset != 0 ==> offset < |data|
    ensures offset == 0 ==> !r
    ensures r ==> data[offset] == tag
    ensures offset != 0 && data[offset] == tag ==> r
  {
    offset != 0 && data[offset] == tag
  }

  class Reader {
    const buffer: Buffer
    const hashKeyTableOffset: u32
    const stringTableOffset: u32
    const rootNodeOffset: u32
    const hasValidHeader: bool
    const bigEndian: bool

    function Fields(): HeaderFields {
      HeaderFields(bigEndian, hashKeyTableOffset, stringTableOffset, rootNodeOffset, hasValidHeader)
    }

    /** The reader over the document's bytes in the document's byte order. */
    function Br(): (br: BinaryReader)
      ensures br.data == buffer.data && br.bigEndian == bigEndian
    {
      BinaryReader(buffer.data, bigEndian)
    }

    /** `Reader::Reader`: the fields start at their defaults and the header
        fills them in as far as it is well formed. */
    constructor (buffer: Buffer)
      ensures this.buffer == buffer
      ensures Fields() == ParseHeader(buffer.data)
    {
      this.buffer := buffer;
      hashKeyTableOffset, stringTableOffset, rootNodeOffset := 0, 0, 0;
      hasValidHeader := false;
      bigEndian := false;
      if HEADER_SIZE <= buffer.Size() {
        var isBigEndian := buffer.data[0] == MAGIC_B && buffer.data[1] == MAGIC_Y;
        var isLittleEndian := buffer.data[0] == MAGIC_Y && buffer.data[1] == MAGIC_B;
        if isBigEndian || isLittleEndian {
          bigEndian := isBigEndian;
          var br := BinaryReader(buffer.data, isBigEndian);
          var version := ReadU16(br, VERSION_OFFSET);
          if IsKnownVersion(version) {
            hashKeyTableOffset := ReadU32(br, HASH_KEY_TABLE_OFFSET_FIELD);
            stringTableOffset := ReadU32(br, STRING_TABLE_OFFSET_FIELD);
            rootNodeOffset := ReadU32(br, ROOT_NODE_OFFSET_FIELD);
            hasValidHeader := true;
          }
        }
      }
    }

    /** `isValid`, step by step: header, offsets inside the buffer, the two
        string tables, then the root node. */
    method IsValid(depth: nat) returns (r: Outcome)
      ensures r == Validity(buffer.data, Fields(), depth)
    {
      if !hasValidHeader {
        return Rejected;
      }
      var br := Br();
      if buffer.Size() <= hashKeyTableOffset || buffer.Size() <= stringTableOffset || buffer.Size() <= rootNodeOffset {
        return Rejected;
      }
      var ctx := Context(br, U32(buffer.Size()), 0, 0);
      var final := ValidationContext(buffer.data, Fields());
      if hashKeyTableOffset != 0 {
        var ok, len := CheckStringTable(ctx, hashKeyTableOffset);
        StringTableIgnoresLengths(ctx, final, hashKeyTableOffset);
        if !ok {
          return Rejected;
        }
        ctx := ctx.(hashKeyTableLen := len);
      }
      if stringTableOffset != 0 {
        var ok, len := CheckStringTable(ctx, stringTableOffset);
        StringTableIgnoresLengths(ctx, final, stringTableOffset);
        if !ok {
          return Rejected;
        }
        ctx := ctx.(stringTableLen := len);
      }
      assert ctx == final;
      if rootNodeOffset != 0 {
        var tag := ReadU8(br, rootNodeOffset);
        if tag != ARRAY && tag != HASH {
          return Rejected;
        }
        r := CheckNode(ctx, rootNodeOffset, tag, depth);
        return r;
      }
      return Accepted;
    }

    /** `isArray`. The root byte is read without a bounds test; a reader
        whose header passed the offset test of `isValid` meets the
        precondition. */
    function IsArray(): (r: bool)
      requires rootNodeOffset != 0 ==> rootNodeOffset < buffer.Size()
      ensures r <==> rootNodeOffset != 0 && buffer.data[rootNodeOffset] == ARRAY
      ensures r ==> !IsHash()
    {
      CheckRootNodeType(buffer.data, rootNodeOffset, ARRAY)
    }

    /** `isHash`, under the same condition as `isArray`. */
    function IsHash(): (r: bool)
      requires rootNodeOffset != 0 ==> rootNodeOffset < buffer.Size()
      ensures r <==> rootNodeOffset != 0 && buffer.data[rootNodeOffset] == HASH
      ensures Fields() == ParseHeader(buffer.data) && !hasValidHeader ==> !r
    {
      CheckRootNodeType(buffer.data, rootNodeOffset, HASH)
    }

    /** `getVersion`: the version field, read without a size test. */
    function GetVersion(): (v: u16)
      requires VERSION_OFFSET + 2 <= buffer.Size()
      ensures hasValidHeader && Fields() == ParseHeader(buffer.data) ==> IsKnownVersion(v)
    {
      ReadU16(Br(), VERSION_OFFSET)
    }
  }

  // Properties ---------------------------------------------------------------

  /** A document with a missing or bad header is rejected, by `isValid` and
      by both root queries. */
  lemma BadHeaderIsRejected(data: seq<Byte>, depth: nat)
    requires !ParseHeader(data).hasValidHeader
    ensures Validity(data, ParseHeader(data), depth) == Rejected
    ensures ParseHeader(data).rootNodeOffset == 0
  {
  }

  /** `isValid` is false when any header offset points past the buffer. */
  lemma OffsetOutsideBufferIsRejected(data: seq<Byte>, h: HeaderFields, depth: nat)
    requires |data| <= h.hashKeyTableOffset || |data| <= h.stringTableOffset || |data| <= h.rootNodeOffset
    ensures Validity(data, h, depth) == Rejected
  {
  }

  /** An accepted document: the header is valid, every offset lies in the
      buffer, each nonzero table offset holds an accepted string table, and a
      nonzero root is an array or hash node whose check passes. */
  lemma AcceptedDocument(data: seq<Byte>, h: HeaderFields, depth: nat)
    requires Validity(data, h, depth) == Accepted
    ensures h.hasValidHeader
    ensures h.hashKeyTableOffset < |data| && h.stringTableOffset < |data| && h.rootNodeOffset < |data|
    ensures h.hashKeyTableOffset != 0 ==> StringTableAccepted(ValidationContext(data, h), h.hashKeyTableOffset)
    ensures h.stringTableOffset != 0 ==> StringTableAccepted(ValidationContext(data, h), h.stringTableOffset)
    ensures h.rootNodeOffset != 0 ==> data[h.rootNodeOffset] == ARRAY || data[h.rootNodeOffset] == HASH
    ensures h.rootNodeOffset != 0 && data[h.rootNodeOffset] == ARRAY ==>
      depth > 0 && ArrayCheck(ValidationContext(data, h), h.rootNodeOffset, depth - 1) == Accepted
    ensures h.rootNodeOffset != 0 && data[h.rootNodeOffset] == HASH ==>
      depth > 0 && HashCheck(ValidationContext(data, h), h.rootNodeOffset, depth - 1) == Accepted
  {
    if h.rootNodeOffset != 0 {
      AcceptedNodeTag(ValidationContext(data, h), h.rootNodeOffset, data[h.rootNodeOffset], depth);
    }
  }

  /** With valid tables and root offset 0 the document is valid: there is
      nothing to descend into. */
  lemma EmptyRootIsAccepted(data: seq<Byte>, h: HeaderFields, depth: nat)
    requires h.hasValidHeader && h.rootNodeOffset == 0
    requires h.hashKeyTableOffset < |data| && h.stringTableOffset < |data|
    requires h.hashKeyTableOffset != 0 ==> StringTableAccepted(ValidationContext(data, h), h.hashKeyTableOffset)
    requires h.stringTableOffset != 0 ==> StringTableAccepted(ValidationContext(data, h), h.stringTableOffset)
    ensures Validity(data, h, depth) == Accepted
  {
  }

  /** A verdict reached at some depth stays the same at every larger depth. */
  lemma ValidityMonotone(data: seq<Byte>, h: HeaderFields, depth: nat, depth': nat)
    requires depth <= depth' && Validity(data, h, depth) != Unfinished
    ensures Validity(data, h, depth') == Validity(data, h, depth)
  {
    var ctx := ValidationContext(data, h);
    if && h.hasValidHeader && h.hashKeyTableOffset < |data| && h.stringTableOffset < |data|
       && (h.hashKeyTableOffset != 0 ==> StringTableAccepted(ctx, h.hashKeyTableOffset))
       && (h.stringTableOffset != 0 ==> StringTableAccepted(ctx, h.stringTableOffset))
       && 0 != h.rootNodeOffset < |data|
    {
      var tag := data[h.rootNodeOffset];
      if tag == ARRAY || tag == HASH {
        NodeCheckMonotone(ctx, h.rootNodeOffset, tag, depth, depth');
      }
    }
  }

  /** The smallest well-formed document: a big-endian version 2 header with
      all three offsets 0. */
  function EmptyDocument(): (data: seq<Byte>)
    ensures |data| == HEADER_SIZE
  {
    [MAGIC_B, MAGIC_Y, 0, 2, 0, 0, 0, 0, 0, 0, 0, 0, 0, 0, 0, 0]
  }

  lemma EmptyDocumentIsValid(depth: nat)
    ensures ParseHeader(EmptyDocument()).hasValidHeader
    ensures ParseHeader(EmptyDocument()).bigEndian
    ensures Validity(EmptyDocument(), ParseHeader(EmptyDocument()), depth) == Accepted
  {
    var data := EmptyDocument();
    var br := BinaryReader(data, true);
    ReadU32Bytes(br, 4);
    ReadU32Bytes(br, 8);
    ReadU32Bytes(br, 12);
    assert data[2..4] == [0, 2];
    assert data[2..4][..1] == [0];
    assert ReadU16(br, VERSION_OFFSET) == 2;
  }

  /** `isArray` and `isHash` hold exactly when the root offset is nonzero and
      its tag matches, so never both; with an invalid header neither holds. */
  lemma RootQueries(reader: Reader)
    requires reader.rootNodeOffset != 0 ==> reader.rootNodeOffset < reader.buffer.Size()
    ensures reader.IsArray() <==> reader.rootNodeOffset != 0 && reader.buffer.data[reader.rootNodeOffset] == ARRAY
    ensures reader.IsHash() <==> reader.rootNodeOffset != 0 && reader.buffer.data[reader.rootNodeOffset] == HASH
    ensures !(reader.IsArray() && reader.IsHash())
    ensures reader.Fields() == ParseHeader(reader.buffer.data) && !reader.hasValidHeader ==>
      !reader.IsArray() && !reader.IsHash()
  {
  }

  /** For an accepted document, the root queries are defined and a nonzero
      root is exactly one of an array and a hash. */
  lemma AcceptedRootKind(reader: Reader, depth: nat)
    requires Validity(reader.buffer.data, reader.Fields(), depth) == Accepted
    ensures reader.rootNodeOffset < reader.buffer.Size()
    ensures reader.rootNodeOffset != 0 ==> reader.IsArray() != reader.IsHash()
    ensures reader.rootNodeOffset == 0 ==> !reader.IsArray() && !reader.IsHash()
  {
    AcceptedDocument(reader.buffer.data, reader.Fields(), depth);
  }
}
