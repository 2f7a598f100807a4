# BYML reader model

A Dafny model of the zero-copy BYML reader of zeldamods/bymlplus. BYML is a
binary tree format used for game data: a 16-byte header names a hash key
table, a string table and a root node, and the nodes are arrays and hashes
whose items are tagged 32-bit cells. The reader never copies the document.
It reads values in place, in the document's byte order, and it offers a
whole-document check, `Reader::isValid`, that callers are meant to run
before they navigate.

The model follows the source layer by layer, one module per file:

- `types.dfy` (`BymlTypes`): the fixed-width integers, `u32` wrap-around,
  and the two's-complement reinterpretations of `static_cast`.
- `binary_format.dfy` (`BinaryFormat`): the header layout and the node
  tags.
- `binary_reader.dfy` (`Common`): `BinaryReader` over an immutable byte
  sequence. A read is defined directly by the document's byte order.
- `c_string.dfy` (`CString`): NUL-terminated strings inside the buffer,
  plus `strnlen` and `strcmp`.
- `container_util.dfy` (`Util`): the offset arithmetic of string tables,
  arrays and hashes.
- `validator.dfy` (`Validator`): `checkStringTable`, `checkNode`,
  `checkArrayNode` and `checkHashNode`. Each is a specification function
  plus a method that mirrors the source's loop and is proved equal to it.
- `document.dfy` (`Document`): `Buffer`, and `Reader` as a class whose
  fields its constructor sets once. Also here are the header parse,
  `isValid`, `isArray`/`isHash` and `getVersion`.
- `value.dfy` (`Value`): `Array`, `Hash`, `ItemData`, the typed accessors,
  `val`, `getByKey` (binary search), `Reader::getArray`/`getHash`, and
  cursor iteration.
- `safety.dfy` (`Safety`): the main result. If `isValid` accepts a
  document, every read that navigation from the root can make is inside
  the buffer, every string it can reach is terminated inside the buffer,
  and every item it can reach carries a node tag.
- `scenarios.dfy` (`Scenarios`): a concrete 56-byte document that `isValid`
  accepts although its root hash's keys are out of order. For such a
  document, `getByKey`'s completeness is not guaranteed.

Node graphs come from the file and may be cyclic. On a cycle the source's
recursive check never returns. The model's checks therefore take a depth
and have three outcomes:

- `Accepted`: the source returns true.
- `Rejected`: the source returns false.
- `Unfinished`: the depth ran out.

`NodeCheckMonotone` shows that a finished outcome is the same at every
larger depth. `SelfContainingArrayNeverFinishes` exhibits a cycle on which
no depth suffices.

Two quirks of the source are kept as they are:

- The strict `data + 8 < bufferSize` test for 8-byte values.
- The validator does not check that hash keys are sorted, although
  `getByKey` presumes it.

`bufferSize` is the 32-bit truncation of the buffer size, as in the
source's `NodeCheckContext`.

## Model

| member | source | states |
|---|---|---|
| BymlTypes.U32 | source/byml/container_util.h:14 | u32 arithmetic: the value itself below 2^32, otherwise congruent modulo 2^32 |
| BymlTypes.ToS32 | source/byml/value.cpp:99-103 | `static_cast<s32>` is non-negative exactly below 2^31, and is the word or the word minus 2^32 |
| BymlTypes.FromS32 | source/byml/value.cpp:99-103 | the inverse reinterpretation adds 2^32 to negatives only |
| BymlTypes.ToS64 | source/byml/value.cpp:130-131 | `static_cast<s64>` is non-negative exactly below 2^63 |
| BymlTypes.S32RoundTrip | source/byml/value.cpp:99-108 | the two 32-bit reinterpretations are mutually inverse |
| BinaryFormat.NamedTags | include/byml/binary_format.h:28-41 | the twelve tag codes are pairwise distinct |
| BinaryFormat.IsContainerType | include/byml/binary_format.h:43-45 | true exactly for Array and Hash (definitional: the contract repeats the one-line test; `ContainerAndValueTypesDisjoint` relates it to the other classes) |
| BinaryFormat.IsValueType | include/byml/binary_format.h:47-50 | true exactly for String, Null, Bool, Int, Float and UInt; never for Int64, UInt64 or Double (the range test spelled out tag by tag; `ContainerAndValueTypesDisjoint` relates it to the other classes) |
| BinaryFormat.ContainerAndValueTypesDisjoint | include/byml/binary_format.h:43-50 | no tag is both a container and a value type; container, value and 8-byte tags together are the node tags |
| Common.BigEndianValue | source/common/binary_reader.h:23-28 | a big-endian window of n bytes denotes a number below 256^n |
| Common.LittleEndianValue | source/common/binary_reader.h:23-28 | a little-endian window of n bytes denotes a number below 256^n |
| Common.LittleEndianIsReversedBigEndian | source/common/binary_reader.h:23-28 | swapping the byte order is reading the reversed window |
| Common.ReadUnsigned | source/common/binary_reader.h:38-43 | `read<T>` of width n gives a value below 256^n and needs offset + n within the buffer |
| Common.ReadSeesOnlyItsWindow | source/common/binary_reader.h:38-43 | a read depends only on bytes [offset, offset + n) and the document byte order |
| Common.ReadOppositeOrder | source/common/binary_reader.h:23-28 | reversed bytes under the opposite byte order read the same value |
| Common.ReverseReverse | source/common/binary_reader.h:23-28 | swapping twice restores the bytes |
| Common.ReverseAppend | source/common/binary_reader.h:23-28 | reversal of a concatenation swaps and reverses the parts |
| Common.ReadU8 | source/common/binary_reader.h:38-43 | the one-byte read is the byte at the offset |
| Common.ReadS64 | source/byml/value.cpp:130-131 | `read<s64>` is the two's-complement reading of the 8-byte `read<u64>` |
| Common.ReadU24 | source/common/binary_reader.h:45-49 | `readU24` is always below 2^24 |
| Common.ReadU24IsThreeByteRead | source/common/binary_reader.h:45-49 | big-endian b0·2^16 + b1·2^8 + b2, little-endian b2·2^16 + b1·2^8 + b0, equal to a 3-byte read in the document's order |
| Common.ReadU32Bytes | source/common/binary_reader.h:38-43 | a 32-bit read byte by byte, most significant byte first for big-endian documents and last otherwise |
| Common.ReadU16Bytes | source/common/binary_reader.h:38-43 | a 16-bit read byte by byte in each byte order |
| Common.FixedWidthReads | source/common/binary_reader.h:38-43 | `read<u16>`, `read<u32>` and `read<u64>` are the 2, 4 or 8 copied bytes, byte-swapped for a little-endian document, taken most significant byte first |
| Common.GetString | source/common/binary_reader.h:51-53 | `getString(o)` denotes position o itself (definitional: strings are positions, and `CStr` gives their contents) |
| CString.StrNLen | source/byml/byml.cpp:44-46 | `strnlen`: at most maxLen, no NUL before it, and a NUL at it when it is below maxLen |
| CString.NulBeforeExtends | source/byml/byml.cpp:44-46 | a string terminated before one bound is terminated, with the same length, before any later bound |
| CString.CStr | source/byml/value.cpp:39 | the string at a position is the NUL-free run up to the first NUL |
| CString.Compare | source/byml/value.cpp:63 | `strcmp` yields -1, 0 or 1 |
| CString.CompareMeaning | source/byml/value.cpp:63-69 | `strcmp` is negative, zero or positive exactly when the first string is lexicographically less, equal or greater |
| CString.LessIsStrictOrder | source/byml/value.cpp:55 | the key order is irreflexive and transitive |
| CString.CompareAntisymmetric | source/byml/value.cpp:63 | swapping the arguments of `strcmp` negates its result |
| CString.CompareTransitive | source/byml/value.cpp:63 | `strcmp` order is transitive |
| CString.CompareZero | source/byml/value.cpp:63 | `strcmp` is zero exactly when the two strings are equal |
| Util.AlignUp4 | source/byml/container_util.h:28-30 | the least multiple of 4 not below n |
| Util.GetStringOffset | source/byml/container_util.h:13-15 | table offset plus the u32 in slot `t + 4 + 4·idx` (with u32 wrap-around) |
| Util.ReadContainerSize | source/byml/container_util.h:18-20 | the 3-byte read at offset + 1, below 2^24 |
| Util.GetArrayValuesOffset | source/byml/container_util.h:24-30 | values start 4-aligned after the N type bytes |
| Util.ReadArrayItem | source/byml/container_util.h:33-36 | raw is the u32 at values + 4·idx and the tag is the byte at types + idx |
| Util.GetHashItemOffset | source/byml/container_util.h:40-46 | entry idx is at offset + 4 + 8·idx |
| Util.ReadHashItemWithItemOffset | source/byml/container_util.h:48-59 | key index is the 3-byte read at e, tag the byte at e + 3, raw the u32 at e + 4 |
| Util.ReadHashItem | source/byml/container_util.h:60-62 | entry idx of the hash at offset: key index the 3-byte read at offset + 4 + 8·idx, tag the byte after it, raw the u32 after that |
| Util.ContainerHeaderIsFourBytes | source/byml/container_util.h:18-46 | a map of the offset helpers, not a layout proof: `getArrayTypesOffset` and `getHashItemsOffset` are both offset + 4, hash entry 0, with the 3-byte count between the tag and them |
| Util.ArrayLayoutDisjoint | source/byml/container_util.h:24-36 | with fewer than 2^24 items, type byte i lies before the values, and the value words `readArrayItem` reads at the u32-wrapped offsets values + 4·i do not overlap for distinct indices |
| Util.HashEntriesDisjoint | source/byml/container_util.h:40-46 | distinct hash entries do not overlap |
| Validator.CheckStringTable | source/byml/byml.cpp:24-53 | accepts exactly the tables with header in bounds, tag 0xC2, N + 1 slots in bounds, and every string starting inside and NUL-terminated before the end; reports the count it wrote |
| Validator.CheckNode | source/byml/byml.cpp:130-159 | the node switch: String iff index below the string-table count; Bool/Int/Float/UInt/Null always; Int64/UInt64/Double iff data + 8 < size; others rejected |
| Validator.CheckArrayNode | source/byml/byml.cpp:57-88 | header in bounds, Array tag, every slot in bounds, then every child in order |
| Validator.CheckHashNode | source/byml/byml.cpp:90-128 | header in bounds, Hash tag, every entry in bounds, then every key index below the key-table count and every child in order |
| Validator.NodeCheckMonotone | source/byml/byml.cpp:130-159 | a verdict reached at some depth is the verdict at every larger depth |
| Validator.ArrayCheckMonotone | source/byml/byml.cpp:57-88 | the same for array nodes |
| Validator.ArrayItemsMonotone | source/byml/byml.cpp:78-85 | the same for the array's child loop |
| Validator.HashCheckMonotone | source/byml/byml.cpp:90-128 | the same for hash nodes |
| Validator.HashItemsMonotone | source/byml/byml.cpp:111-125 | the same for the hash's child loop |
| Validator.ArrayChildAccepted | source/byml/byml.cpp:78-85 | in an accepted array every child passes the node check |
| Validator.HashChildAccepted | source/byml/byml.cpp:111-125 | in an accepted hash every key index is in range and every child passes |
| Validator.SelfContainingArrayNeverFinishes | source/byml/byml.cpp:57-88 | an array whose only child points back at itself never finishes at any depth |
| Validator.AcceptedNodeTag | source/byml/byml.cpp:130-159 | an accepted node has a node tag; string index in range; 8-byte value strictly inside; a container's own check accepted one level down |
| Validator.UnfinishedNodeIsContainer | source/byml/byml.cpp:130-159 | only an array or hash node can exhaust the depth, and then its own container check at one level less is unfinished too |
| Validator.ContainerHeaderChecked | source/byml/byml.cpp:57-109 | an array or hash check that does not reject saw the header in bounds, the right tag, and all N value slots or N entries inside the buffer |
| Validator.AcceptedStringTable | source/byml/byml.cpp:24-53 | an accepted table has its header in bounds and tag 0xC2, and every string index below its count points inside the buffer at a NUL-terminated string |
| Document.Buffer.Size | include/byml/byml.h:14-25 | the buffer reports the size of its data (definitional; the size tests of `ParseHeader` and `Validity` are stated over it) |
| Document.ParseHeader | source/byml/byml.cpp:163-185 | short input, bad magic or a version outside 2 and 3 leave the header invalid with offsets 0; "BY" selects big-endian; on success the offsets are the u32s at 4, 8 and 12 |
| Document.Reader.constructor | source/byml/byml.cpp:163-185 | the fields are those of the header parse |
| Document.ValidationContext | source/byml/byml.cpp:200-209 | the context `isValid` builds: the reader in document order and the size truncated to u32 |
| Document.Validity | source/byml/byml.cpp:189-229 | anything not rejected has a valid header and all three offsets inside the buffer; an unfinished verdict needs a root; a nonzero root that is not rejected is an array or a hash |
| Document.StringTableIgnoresLengths | source/byml/byml.cpp:202-209 | checking a table reads neither table length, so the order of the two table checks does not matter |
| Document.Reader.IsValid | source/byml/byml.cpp:189-229 | step-by-step `isValid` equals the specification of the whole-document check |
| Document.Reader.GetVersion | source/byml/byml.cpp:243-245 | the version field; 2 or 3 whenever the header parsed as valid |
| Document.BadHeaderIsRejected | source/byml/byml.cpp:189-191 | an invalid header makes `isValid` false and leaves the root offset 0 |
| Document.OffsetOutsideBufferIsRejected | source/byml/byml.cpp:195-198 | any header offset at or past the buffer size makes `isValid` false |
| Document.AcceptedDocument | source/byml/byml.cpp:189-229 | an accepted document has a valid header, offsets inside, accepted tables and an accepted Array or Hash root |
| Document.EmptyRootIsAccepted | source/byml/byml.cpp:211-228 | root offset 0 with accepted tables is valid |
| Document.ValidityMonotone | source/byml/byml.cpp:189-229 | a whole-document verdict does not change with more depth |
| Document.EmptyDocument | include/byml/binary_format.h:11-26 | the smallest document is the 16-byte header |
| Document.EmptyDocumentIsValid | source/byml/byml.cpp:163-229 | a "BY" version 2 header with all offsets 0 parses as a valid big-endian header and is accepted |
| Document.RootQueries | source/byml/byml.cpp:231-241 | `isArray`/`isHash` hold iff the root is nonzero and has that tag, never both, and never for an invalid header |
| Document.CheckRootNodeType | source/byml/byml.cpp:231-233 | true exactly when the offset is nonzero and the byte there is the tag (definitional; `RootQueries` relates the two uses of it) |
| Document.Reader.IsArray | source/byml/byml.cpp:235-237 | true exactly when the root is nonzero and tagged Array; never together with `isHash` |
| Document.Reader.IsHash | source/byml/byml.cpp:239-241 | true exactly when the root is nonzero and tagged Hash; false for a reader whose header did not parse |
| Document.AcceptedRootKind | source/byml/byml.cpp:211-241 | for an accepted document a nonzero root is exactly one of array and hash |
| Value.Array.GetByIndex | source/byml/value.cpp:25-33 | nothing iff idx ≥ numItems; otherwise the item whose tag is the type byte idx and whose raw is the value word idx |
| Value.Array.At | include/byml/value.h:99 | `operator[]` on a valid index is `getByIndex`'s value |
| Value.Hash.Entry | source/byml/value.cpp:36-41 | entry idx: data is the entry's item, key the string at `getStringOffset(hashKeyTable, keyIndex)` |
| Value.Hash.GetByIndex | source/byml/value.cpp:44-50 | nothing iff idx ≥ numItems, otherwise entry idx |
| Value.Hash.KeyAt | source/byml/value.cpp:39 | an entry's key as a NUL-free string |
| Value.Hash.GetByKey | source/byml/value.cpp:52-72 | gives the recursive search `Search` over [0, numItems − 1]; a hit is always an entry with that key and its data; with sorted keys a miss means no entry has the key, and a present key yields its own entry's data |
| Value.Hash.BinarySearch | source/byml/value.cpp:58-71 | the source's loop computes `Search` over all entries, with `a`, `b` and `a + b` kept within s32 |
| Value.Hash.SearchStep | source/byml/value.cpp:60-69 | one probe: a smaller key continues above the middle, a larger one below it, an equal one answers with the middle entry |
| Value.Hash.SearchSound | source/byml/value.cpp:58-71 | whatever the key order, a hit of the search from [a, b] is an entry inside [a, b] with that key, and its data |
| Value.Hash.SearchFindsPresent | source/byml/value.cpp:58-71 | with sorted keys and every match inside the bounds, a present key is found at its own entry |
| Value.Hash.SearchMissIffAbsent | source/byml/value.cpp:58-71 | with sorted keys and every match inside the bounds, the search misses exactly when no entry has the key |
| Value.Hash.SearchWhole | source/byml/value.cpp:52-72 | over all entries: a hit is an entry with the key; with sorted keys a miss exactly when the key is absent, and a present key found at its own entry |
| Value.Hash.BracketAbove | source/byml/value.cpp:64-65 | with sorted keys, moving `a` above a smaller key loses no match |
| Value.Hash.BracketBelow | source/byml/value.cpp:66-67 | with sorted keys, moving `b` below a larger key loses no match |
| Value.Hash.FoundKey | source/byml/value.cpp:68-69 | a zero comparison means that entry has the key, and with sorted keys no other does |
| Value.Hash.Contains | include/byml/value.h:123 | true only for present keys, and exactly for them when the keys are sorted |
| Value.Hash.Lookup | include/byml/value.h:118 | `operator[]` on a key the search finds gives the search's item, the data of an entry with that key, and with sorted keys that of every entry with the key |
| Value.Hash.PresentKeyIsFound | include/byml/value.h:118 | in a sorted hash a present key is found, so `operator[]` may be applied to it |
| Value.Hash.Keys | include/byml/value.h:125-127 | one name per entry, in index order |
| Value.Hash.Values | include/byml/value.h:129-131 | one item per entry, in index order |
| Value.KeysAndValuesPairUp | include/byml/value.h:125-131 | position i of keys and values together is entry i |
| Value.NewArray | source/byml/value.cpp:21-23 | the item count is `readContainerSize(offset)`, below 2^24 |
| Value.NewHash | source/byml/value.cpp:21-23 | the item count is `readContainerSize(offset)`, below 2^24 |
| Value.ItemData.GetHash | source/byml/value.cpp:74-78 | present iff the tag is Hash, then the hash at raw |
| Value.ItemData.GetArray | source/byml/value.cpp:80-84 | present iff the tag is Array, then the array at raw |
| Value.ItemData.GetString | source/byml/value.cpp:86-91 | present iff the tag is String, then the position of string raw of the string table |
| Value.ItemData.GetBool | source/byml/value.cpp:93-97 | present iff the tag is Bool, with value raw ≠ 0 |
| Value.ItemData.GetInt | source/byml/value.cpp:99-103 | present iff the tag is Int, with raw read as signed 32-bit |
| Value.ItemData.GetUInt | source/byml/value.cpp:105-114 | raw for UInt, raw for Int when its signed reading is non-negative, otherwise nothing |
| Value.ItemData.GetFloat | source/byml/value.cpp:116-122 | present iff the tag is Float, with raw's bit pattern |
| Value.ItemData.GetInt64 | source/byml/value.cpp:124-135 | Int sign-extended, UInt zero-extended, Int64 read as 8 bytes at raw, nothing else |
| Value.ItemData.GetUInt64 | source/byml/value.cpp:137-148 | `getUInt` first, then the 8-byte read for Int64/UInt64, rejecting a negative Int64 |
| Value.ItemData.GetDouble | source/byml/value.cpp:150-161 | a Float widened, or the 8-byte word at raw for Double, nothing else |
| Value.IntegerAccessorsAgree | source/byml/value.cpp:99-148 | the integer accessors agree wherever two of them give a value, and the 64-bit ones extend the 32-bit ones |
| Value.DoubleExtendsFloat | source/byml/value.cpp:150-161 | `getDouble` extends `getFloat` |
| Value.ValAgreesWithAccessors | source/byml/value.cpp:163-189 | `val` gives each tag's accessor value, and the bad-value variant exactly for Null and unknown tags |
| Value.ItemData.Val | source/byml/value.cpp:163-189 | the bad-value variant exactly for Null and tags outside the node types |
| Value.GetRootArray | source/byml/byml.cpp:247-251 | present iff `isArray`, then the array at the root; only an Array root needs its 4-byte header in the buffer |
| Value.GetRootHash | source/byml/byml.cpp:253-257 | present iff `isHash`, then the hash at the root; only a Hash root needs its 4-byte header in the buffer |
| Value.RootAccessorsExclusive | source/byml/byml.cpp:231-257 | never both a root array and a root hash |
| Value.NonContainerRootGivesNothing | source/byml/byml.cpp:231-257 | a nonzero root whose tag is neither Array nor Hash, even at the last byte, makes both accessors give nothing |
| Value.Container.NumItems | include/byml/value.h:22 | the item count of the concrete container |
| Value.Container.GetByIndex | include/byml/value.h:37-39 | `getByIndex` is the concrete container's `getByIndexImpl`; it needs only the item asked for to be readable |
| Value.Container.ReadableItems | include/byml/value.h:37-39 | a container whose items are all in bounds can read any index |
| Value.Cursor.constructor | include/byml/value.h:45 | a cursor on a container at an index |
| Value.Cursor.Read | include/byml/value.h:46 | `read` gives `getByIndex` at the cursor's index |
| Value.Cursor.Equal | include/byml/value.h:47 | two cursors are equal exactly when their indices are; a cursor equals itself |
| Value.Cursor.Advance | include/byml/value.h:50 | the index moves by n modulo 2^64 |
| Value.Cursor.Next | include/byml/value.h:48 | the index moves up by one modulo 2^64 |
| Value.Cursor.Prev | include/byml/value.h:49 | the index moves down by one modulo 2^64 |
| Value.BeginCursor | include/byml/value.h:56 | a fresh cursor at index 0 |
| Value.EndCursor | include/byml/value.h:57 | a fresh cursor at index `numItems()` |
| Value.Iterate | include/byml/value.h:43-57 | iteration yields `getByIndex(i)` for i from 0 up to `numItems()` exclusive, in order |
| Safety.IndexInTableResolves | source/byml/byml.cpp:38-50 | a string index below an accepted table's count has its slot in bounds and a NUL before the end of the buffer |
| Safety.ContextTableLengths | source/byml/byml.cpp:202-209 | the table lengths of the context are those of the reader's two tables |
| Safety.AcceptedNodeIsSafe | source/byml/byml.cpp:130-159 | an accepted node is safe to the checked depth: tag known, accessor reads in bounds, strings terminated, containers safe below |
| Safety.AcceptedArrayIsSafe | source/byml/byml.cpp:57-88 | an accepted array has every item in bounds and safe |
| Safety.AcceptedHashIsSafe | source/byml/byml.cpp:90-128 | an accepted hash has every entry and key in bounds and every item safe |
| Safety.ValidDocumentIsSafe | source/byml/byml.cpp:189-257 | after a successful `isValid`, `getArray`/`getHash` are defined, give a root exactly when the root offset is nonzero, and every navigation below it stays in the buffer to the checked depth |
| Safety.SafeHashIsSearchable | source/byml/value.cpp:52-72 | every key of a safe hash can be compared, so `getByKey` may run on it |
| Safety.SafeItemAccessors | source/byml/value.cpp:74-189 | on a safe item every accessor is defined, a string is terminated in the buffer, and `val` is the bad-value variant only for Null |
| Scenarios.HeaderOfUnsortedDocument | source/byml/byml.cpp:163-185 | the example's "BY" version 2 header gives key table 0x10, no string table, root 0x24 |
| Scenarios.KeyTableAccepted | source/byml/byml.cpp:24-53 | the example's key table of two strings is accepted |
| Scenarios.RootHashAccepted | source/byml/byml.cpp:90-128 | the example's root hash of two Bool entries is accepted at any depth |
| Scenarios.UnsortedDocumentIsValid | source/byml/byml.cpp:189-229 | the example passes `isValid` |
| Scenarios.KeysOfHash | source/byml/value.cpp:36-41 | its root hash's keys in index order are "b" and "a" |
| Scenarios.DescendingKeysAreNotSorted | source/byml/value.cpp:55 | keys "b" then "a" are not in the order `getByKey` presumes |
| Scenarios.ValidationDoesNotImplySortedKeys | source/byml/value.cpp:55 | a document that `isValid` accepts can have a searchable root hash whose keys are unsorted, and `getByKey("a")` on it misses the key stored at entry 1 |
| Scenarios.SearchMissesSecondKey | source/byml/value.cpp:58-71 | with keys "b" then "a", the search for "a" probes entry 0, goes below it and finds nothing |

## Left out

- Host byte order (`isBigEndianPlatform`, `htonl`, `SwapValue`, source/common/binary_reader.h:11-28): a read is defined directly by the document's byte order, which is what the swap achieves on any host.
- Floating point: `getFloat`, `getDouble` and the float variants of `val` return bit patterns. The float-to-double widening is recorded as `WidenedFloat`, not computed.
- Logging (source/common/log.h, source/common/log.cpp) and the Python bindings (pybind11/main.cpp): they do not affect results.
- range-v3's view machinery, `reference_wrapper` and pointer lifetimes. Iteration is modelled by the cursor and `Iterate`. `keys`/`values` are modelled as sequences.
- Unbounded recursion: the node checks carry a depth and an `Unfinished` outcome instead of recursing without end on cycles.
- `val`'s constant for Null and unknown tags is stood for by a `Sentinel` variant. It is not the 64-bit value 0x0badbadbadbadbad inside the Int64 alternative.
- Document.Validity: omits the root test `size < root + 1` (source/byml/byml.cpp:213-214), which the earlier test `size <= root` already implies.
- Value.Hash.GetByKey: its loop is the method `BinarySearch`, so that the loop and the facts about the search are proved apart. `BinarySearch` keeps `a`, `b` and `m` as unbounded integers rather than `s32`. It requires numItems < 2^24, which every hash has because its count is a 24-bit field (`NewHash` ensures it). Its loop invariant keeps `a`, `b` and `a + b` inside the s32 range, so the source's arithmetic never overflows.
- `RawItemData`'s conversion to u32 (include/byml/value.h:69) is the `raw` field.
- `Reader`'s getters `getBuffer`, `isBigEndian`, `getHashKeyTableOffset` and `getStringTableOffset` (include/byml/byml.h:47-50) are the class's constant fields, read directly.
- Document.Reader.GetVersion: requires the buffer to hold the version field. The source reads it without a size test, which is undefined on a buffer shorter than 4 bytes.
- Navigation preconditions: every accessor requires the bounds its reads need. Out-of-bounds reads are undefined behaviour in the source. The Safety module proves that `isValid` establishes these bounds. The one exception is `GetByKey`, `Contains` and `Lookup`: they require every key readable (`Searchable`), not only the keys the search probes.
- The strings that `getString` and hash keys point at are modelled as positions into the buffer (`nat`), not as pointers.
- The module `common/align.h` is not part of this model. `AlignUp` is taken to round up to a multiple of 4.
