/** Navigation over a document: arrays and hashes read by index, the
    binary-search key lookup of hashes, iteration cursors, and the typed
    accessors of an item with their conversion rules.

    A container or item holds the reader it came from. Every read of the
    buffer carries the precondition that it is in bounds (an out-of-bounds
    read has undefined behaviour in the source); the Safety module shows
    that a document that passed `isValid` meets all of them. */
module Value {
  import opened BymlTypes
  import opened BinaryFormat
  import opened Common
  import opened CString
  import opened Util
  import opened Document

  /** A BYML array: the node at `offset`, `numItems` read from its header. */
  datatype Array = Array(reader: Reader, offset: u32, numItems: u32) {
    /** Item `idx`'s value word and type byte lie inside the buffer. */
    predicate ItemInBounds(idx: nat) {
      && GetArrayValuesOffset(offset, numItems) + U32(4 * idx) + 4 <= reader.buffer.Size()
      && GetArrayTypesOffset(offset) + idx < reader.buffer.Size()
    }

    /** `Array::getByIndexImpl`: nothing past the end, otherwise the item at
        layout position `idx`. */
    function GetByIndex(idx: nat): (r: Option<ItemData>)
      requires idx < numItems ==> ItemInBounds(idx)
      ensures r.None? <==> numItems <= idx
      ensures r.Some? ==> r.value.reader == reader
      ensures r.Some? ==>
        r.value.raw.tag == reader.buffer.data[GetArrayTypesOffset(offset) + idx] &&
        (idx < 0x4000_0000 ==>
          r.value.raw.raw == ReadU32(reader.Br(), GetArrayValuesOffset(offset, numItems) + 4 * idx))
    {
      if numItems <= idx then None
      else
        var br := reader.Br();
        Some(ItemData(reader, ReadArrayItem(br, GetArrayTypesOffset(offset), GetArrayValuesOffset(offset, numItems), idx)))
    }

    /** `operator[]`: the index must be valid, since the optional is dereferenced. */
    function At(idx: nat): (d: ItemData)
      requires idx < numItems && ItemInBounds(idx)
      ensures GetByIndex(idx) == Some(d)
    {
      GetByIndex(idx).value
    }
  }

  /** A BYML hash: the node at `offset`, `numItems` entries of 8 bytes. */
  datatype Hash = Hash(reader: Reader, offset: u32, numItems: u32) {
    /** Entry `idx` and the key-table slot it names lie inside the buffer. */
    predicate EntryReadable(idx: u32) {
      && GetHashItemOffset(offset, idx) + 8 <= reader.buffer.Size()
      && var item := ReadHashItem(reader.Br(), offset, idx);
      StringSlotOffset(reader.hashKeyTableOffset, item.keyIndex) + 4 <= reader.buffer.Size()
    }

    /** `hashGetByIndex`: the entry's key is the string that slot `keyIndex`
        of the hash key table points to, and its data is the entry's item. */
    function Entry(idx: u32): (e: HashItem)
      requires EntryReadable(idx)
      ensures idx < 0x2000_0000 ==>
        var item := ReadHashItemWithItemOffset(reader.Br(), offset + 4 + 8 * idx);
        && e.data == ItemData(reader, item.data)
        && e.name == GetStringOffset(reader.Br(), reader.hashKeyTableOffset, item.keyIndex)
    {
      var br := reader.Br();
      var item := ReadHashItem(br, offset, idx);
      HashItem(GetString(br, GetStringOffset(br, reader.hashKeyTableOffset, item.keyIndex)), ItemData(reader, item.data))
    }

    /** `Hash::getByIndexImpl`. */
    function GetByIndex(idx: nat): (r: Option<HashItem>)
      requires idx < numItems ==> EntryReadable(idx)
      ensures r.None? <==> numItems <= idx
      ensures r.Some? ==> r.value == Entry(idx)
    {
      if numItems <= idx then None else Some(Entry(idx))
    }

    /** Entry `idx`'s key can be dereferenced: it ends with a NUL inside the buffer. */
    predicate KeyReadable(idx: u32) {
      EntryReadable(idx) && NulBefore(reader.buffer.data, Entry(idx).name, reader.buffer.Size())
    }

    /** The key of entry `idx` as a string. */
    function KeyAt(idx: u32): (k: seq<Byte>)
      requires KeyReadable(idx)
      ensures 0 !in k
    {
      CStr(reader.buffer.data, Entry(idx).name)
    }

    /** Every key can be read, so a lookup may probe any entry. */
    predicate Searchable() {
      forall idx: u32 | idx < numItems :: KeyReadable(idx)
    }

    /** Keys strictly increasing in index order under `strcmp`, which
        `getByKey` presumes and the validator does not check (CompareMeaning
        makes this the lexicographic order `Less`). */
    predicate SortedKeys()
      requires Searchable()
    {
      forall i: u32, j: u32 | i < j < numItems :: Compare(KeyAt(i), KeyAt(j)) < 0
    }

    /** `getByKey`: binary search on `strcmp` of the entry key against the
        key. A hit is always an entry with that key; when the keys are sorted,
        a miss means no entry has it, and a key that is present is found at
        its own index. */
    method GetByKey(key: seq<Byte>) returns (r: Option<ItemData>)
      requires 0 !in key && Searchable() && numItems < 0x100_0000
      ensures r == Search(key, 0, numItems as int - 1)
      ensures r.Some? ==> exists i: u32 | i < numItems :: KeyAt(i) == key && r.value == Entry(i).data
      ensures SortedKeys() ==> (r.None? <==> forall i: u32 | i < numItems :: KeyAt(i) != key)
      ensures SortedKeys() ==> forall i: u32 | i < numItems && KeyAt(i) == key :: r == Some(Entry(i).data)
    {
      r := BinarySearch(key);
      SearchWhole(key);
    }

    /** The loop of `getByKey`: it computes `Search` over all entries. */
    method BinarySearch(key: seq<Byte>) returns (r: Option<ItemData>)
      requires 0 !in key && Searchable() && numItems < 0x100_0000
      ensures r == Search(key, 0, numItems as int - 1)
    {
      // A container holds fewer than 2^24 items (its count is a 24-bit
      // field), so a, b and a + b fit the source's signed 32-bit integers.
      var a: int := 0;
      var b: int := numItems as int - 1;
      ghost var answer := Search(key, 0, numItems as int - 1);
      r := None;
      while a <= b
        invariant 0 <= a <= numItems && -1 <= b < numItems
        invariant -0x8000_0000 <= a + b < 0x8000_0000
        invariant Search(key, a, b) == answer && r.None?
        decreases b - a
      {
        var m := (a + b) / 2;
        assert KeyReadable(m as u32);
        var item := Entry(m as u32);
        var cmp := Compare(CStr(reader.buffer.data, item.name), key);
        SearchStep(key, a, b, m as u32, cmp);
        if cmp < 0 {
          a := m + 1;
        } else if cmp > 0 {
          b := m - 1;
        } else {
          r := Some(item.data);
          break;
        }
      }
      assert r == answer;
    }

    /** The answer of the binary search once its bounds are `a` and `b`:
        probe the middle index, then continue above or below it or stop, as
        `strcmp` of the probe's key against `key` says. */
    function Search(key: seq<Byte>, a: int, b: int): Option<ItemData>
      requires Searchable() && 0 <= a <= numItems && -1 <= b < numItems
      decreases b - a + 1
    {
      if b < a then None
      else
        var m := (a + b) / 2;
        var cmp := Compare(KeyAt(m as u32), key);
        if cmp < 0 then Search(key, m + 1, b)
        else if cmp > 0 then Search(key, a, m - 1)
        else Some(Entry(m as u32).data)
    }

    /** Whatever the order of the keys, a hit of the search from [a, b] is
        an entry inside [a, b] with that key, and its data: `i` is that entry. */
    lemma {:induction false} SearchSound(key: seq<Byte>, a: int, b: int) returns (i: u32)
      requires Searchable() && 0 <= a <= numItems && -1 <= b < numItems
      requires Search(key, a, b).Some?
      ensures a <= i as int <= b && KeyAt(i) == key && Search(key, a, b).value == Entry(i).data
      decreases b - a + 1
    {
      var m: u32 := ((a + b) / 2) as u32;
      var cmp := Compare(KeyAt(m), key);
      SearchStep(key, a, b, m, cmp);
      if cmp < 0 {
        i := SearchSound(key, m as int + 1, b);
      } else if cmp > 0 {
        i := SearchSound(key, a, m as int - 1);
      } else {
        CompareZero(KeyAt(m), key);
        i := m;
      }
    }

    /** One probe of the search with nonempty bounds. */
    lemma SearchStep(key: seq<Byte>, a: int, b: int, m: u32, cmp: int)
      requires Searchable() && 0 <= a <= b < numItems && m as int == (a + b) / 2
      requires KeyReadable(m) && cmp == Compare(KeyAt(m), key)
      ensures cmp < 0 ==> Search(key, a, b) == Search(key, m as int + 1, b)
      ensures cmp > 0 ==> Search(key, a, b) == Search(key, a, m as int - 1)
      ensures cmp == 0 ==> Search(key, a, b) == Some(Entry(m).data)
    {
    }

    /** With sorted keys and every match inside [a, b], the search from
        [a, b] finds a key that is present at its own entry. */
    lemma {:induction false} SearchFindsPresent(key: seq<Byte>, a: int, b: int)
      requires Searchable() && 0 <= a <= numItems && -1 <= b < numItems
      requires Bracketed(key, a, b)
      ensures SortedKeys() ==> forall i: u32 | i < numItems && KeyAt(i) == key :: Search(key, a, b) == Some(Entry(i).data)
      decreases b - a + 1
    {
      if a <= b {
        var m: u32 := ((a + b) / 2) as u32;
        var cmp := Compare(KeyAt(m), key);
        SearchStep(key, a, b, m, cmp);
        if cmp < 0 {
          BracketAbove(key, a, b, m);
          SearchFindsPresent(key, m as int + 1, b);
        } else if cmp > 0 {
          BracketBelow(key, a, b, m);
          SearchFindsPresent(key, a, m as int - 1);
        } else {
          FoundKey(key, m);
        }
      }
    }

    /** With sorted keys and every match inside [a, b], the search from
        [a, b] misses exactly when no entry has the key. */
    lemma SearchMissIffAbsent(key: seq<Byte>, a: int, b: int)
      requires Searchable() && 0 <= a <= numItems && -1 <= b < numItems
      requires Bracketed(key, a, b)
      ensures SortedKeys() ==> (Search(key, a, b).None? <==> forall i: u32 | i < numItems :: KeyAt(i) != key)
    {
      if Search(key, a, b).Some? {
        var i := SearchSound(key, a, b);
      }
      SearchFindsPresent(key, a, b);
    }

    /** The search over all entries: a hit is an entry with the key; with
        sorted keys it misses exactly when no entry has the key, and finds a
        present key at its own entry. */
    lemma SearchWhole(key: seq<Byte>)
      requires Searchable()
      ensures Search(key, 0, numItems as int - 1).Some? ==>
        exists i: u32 | i < numItems :: KeyAt(i) == key && Search(key, 0, numItems as int - 1).value == Entry(i).data
      ensures SortedKeys() ==> (Search(key, 0, numItems as int - 1).None? <==> forall i: u32 | i < numItems :: KeyAt(i) != key)
      ensures SortedKeys() ==> forall i: u32 | i < numItems && KeyAt(i) == key :: Search(key, 0, numItems as int - 1) == Some(Entry(i).data)
    {
      if Search(key, 0, numItems as int - 1).Some? {
        var i := SearchSound(key, 0, numItems as int - 1);
        assert i < numItems && KeyAt(i) == key && Search(key, 0, numItems as int - 1).value == Entry(i).data;
      }
      WholeRangeBracketed(key);
      SearchFindsPresent(key, 0, numItems as int - 1);
      SearchMissIffAbsent(key, 0, numItems as int - 1);
    }

    /** Under sorted keys, every entry whose key is `key` has an index in [a, b]. */
    ghost predicate Bracketed(key: seq<Byte>, a: int, b: int)
      requires Searchable()
    {
      SortedKeys() ==> forall j: u32 | j < numItems && KeyAt(j) == key :: a <= j as int <= b
    }

    /** Every entry lies in the whole range. */
    lemma WholeRangeBracketed(key: seq<Byte>)
      requires Searchable()
      ensures Bracketed(key, 0, numItems as int - 1)
    {
    }

    /** A probe whose key is below `key` rules out itself and every earlier index. */
    lemma BracketAbove(key: seq<Byte>, a: int, b: int, m: u32)
      requires Searchable() && m < numItems && Bracketed(key, a, b)
      requires Compare(KeyAt(m), key) < 0
      ensures Bracketed(key, m as int + 1, b)
    {
      if SortedKeys() {
        forall j: u32 | j < numItems && KeyAt(j) == key
          ensures m < j
        {
          CompareAntisymmetric(KeyAt(m), key);
        }
      }
    }

    /** A probe whose key is above `key` rules out itself and every later index. */
    lemma BracketBelow(key: seq<Byte>, a: int, b: int, m: u32)
      requires Searchable() && m < numItems && Bracketed(key, a, b)
      requires Compare(KeyAt(m), key) > 0
      ensures Bracketed(key, a, m as int - 1)
    {
      if SortedKeys() {
        forall j: u32 | j < numItems && KeyAt(j) == key
          ensures j < m
        {
          CompareAntisymmetric(key, key);
        }
      }
    }

    /** A probe that compares equal has the key, and under sorted keys it is
        the only entry that has it. */
    lemma FoundKey(key: seq<Byte>, m: u32)
      requires Searchable() && m < numItems
      requires Compare(KeyAt(m), key) == 0
      ensures KeyAt(m) == key
      ensures SortedKeys() ==> forall j: u32 | j < numItems && KeyAt(j) == key :: j == m
    {
      CompareZero(KeyAt(m), key);
      if SortedKeys() {
        forall j: u32 | j < numItems && KeyAt(j) == key
          ensures j == m
        {
          CompareAntisymmetric(key, key);
        }
      }
    }

    /** `contains`: whether `getByKey` finds something. */
    method Contains(key: seq<Byte>) returns (found: bool)
      requires 0 !in key && Searchable() && numItems < 0x100_0000
      ensures found == Search(key, 0, numItems as int - 1).Some?
      ensures found ==> exists i: u32 | i < numItems :: KeyAt(i) == key
      ensures SortedKeys() ==> (found <==> exists i: u32 | i < numItems :: KeyAt(i) == key)
    {
      var r := GetByKey(key);
      found := r.Some?;
    }

    /** `operator[]` with a key: the optional that `getByKey` returns is
        dereferenced, so the search must find the key. */
    method Lookup(key: seq<Byte>) returns (d: ItemData)
      requires 0 !in key && Searchable() && numItems < 0x100_0000
      requires Search(key, 0, numItems as int - 1).Some?
      ensures d == Search(key, 0, numItems as int - 1).value
      ensures exists i: u32 | i < numItems :: KeyAt(i) == key && d == Entry(i).data
      ensures SortedKeys() ==> forall i: u32 | i < numItems && KeyAt(i) == key :: d == Entry(i).data
    {
      var r := GetByKey(key);
      d := r.value;
    }

    /** A sorted hash in which the key is present meets `Lookup`'s
        precondition. */
    lemma PresentKeyIsFound(key: seq<Byte>, i: u32)
      requires Searchable() && SortedKeys()
      requires i < numItems && KeyAt(i) == key
      ensures Search(key, 0, numItems as int - 1) == Some(Entry(i).data)
    {
      SearchFindsPresent(key, 0, numItems as int - 1);
    }

    /** `keys()`: the name of each entry, in index order. */
    function Keys(): (ks: seq<nat>)
      requires forall idx: u32 | idx < numItems :: EntryReadable(idx)
      ensures |ks| == numItems
      ensures forall i | 0 <= i < |ks| :: GetByIndex(i).Some? && ks[i] == GetByIndex(i).value.name
    {
      seq(numItems, (i: int) requires 0 <= i < numItems as int => Entry(i as u32).name)
    }

    /** `values()`: the data of each entry, in index order. */
    function Values(): (vs: seq<ItemData>)
      requires forall idx: u32 | idx < numItems :: EntryReadable(idx)
      ensures |vs| == numItems
      ensures forall i | 0 <= i < |vs| :: GetByIndex(i).Some? && vs[i] == GetByIndex(i).value.data
    {
      seq(numItems, (i: int) requires 0 <= i < numItems as int => Entry(i as u32).data)
    }
  }

  /** `HashItem`: the key (a pointer into the buffer) and the entry's item. */
  datatype HashItem = HashItem(name: nat, data: ItemData)

  /** Bit pattern of a value `getDouble` returns: a float widened to double,
      or an 8-byte double read from the buffer. */
  datatype F64 = WidenedFloat(floatBits: u32) | DoubleBits(bits: u64)

  /** `ItemData::Variant`. `Sentinel` stands for the constant `val` returns
      for a node of no value type. */
  datatype Variant =
    | HashVal(h: Hash)
    | ArrayVal(a: Array)
    | StringVal(s: nat)
    | BoolVal(b: bool)
    | IntVal(i: s32)
    | UIntVal(u: u32)
    | FloatVal(f: u32)
    | Int64Val(l: s64)
    | UInt64Val(ul: u64)
    | DoubleVal(d: F64)
    | Sentinel

  /** `ContainerBase::ContainerBase` for an array. */
  function NewArray(reader: Reader, offset: u32): (a: Array)
    requires offset + 4 <= reader.buffer.Size()
    ensures a.reader == reader && a.offset == offset
    ensures a.numItems < 0x100_0000 && a.numItems == ReadUnsigned(reader.Br(), offset + 1, 3)
  {
    Array(reader, offset, ReadContainerSize(reader.Br(), offset))
  }

  /** `ContainerBase::ContainerBase` for a hash. */
  function NewHash(reader: Reader, offset: u32): (h: Hash)
    requires offset + 4 <= reader.buffer.Size()
    ensures h.reader == reader && h.offset == offset
    ensures h.numItems < 0x100_0000 && h.numItems == ReadUnsigned(reader.Br(), offset + 1, 3)
  {
    Hash(reader, offset, ReadContainerSize(reader.Br(), offset))
  }

  /** `ItemData`: the reader and the raw cell of one container item. */
  datatype ItemData = ItemData(reader: Reader, raw: RawItemData) {
    function GetHash(): (r: Option<Hash>)
      requires raw.tag == HASH ==> raw.raw + 4 <= reader.buffer.Size()
      ensures r.Some? <==> raw.tag == HASH
      ensures r.Some? ==> r.value == NewHash(reader, raw.raw)
    {
      if raw.tag != HASH then None else Some(NewHash(reader, raw.raw))
    }

    function GetArray(): (r: Option<Array>)
      requires raw.tag == ARRAY ==> raw.raw + 4 <= reader.buffer.Size()
      ensures r.Some? <==> raw.tag == ARRAY
      ensures r.Some? ==> r.value == NewArray(reader, raw.raw)
    {
      if raw.tag != ARRAY then None else Some(NewArray(reader, raw.raw))
    }

    /** `getString`: a null pointer unless the tag is String, else the
        position string `raw` of the string table points to. */
    function GetString(): (r: Option<nat>)
      requires raw.tag == STRING ==> StringSlotOffset(reader.stringTableOffset, raw.raw) + 4 <= reader.buffer.Size()
      ensures r.Some? <==> raw.tag == STRING
      ensures r.Some? && raw.raw < 0x4000_0000 ==>
        r.value == reader.stringTableOffset + ReadU32(reader.Br(), reader.stringTableOffset + 4 + 4 * raw.raw)
    {
      if raw.tag != STRING then None
      else
        var br := reader.Br();
        Some(Common.GetString(br, GetStringOffset(br, reader.stringTableOffset, raw.raw)))
    }

    function GetBool(): (r: Option<bool>)
      ensures r.Some? <==> raw.tag == BOOL
      ensures r.Some? ==> (r.value <==> raw.raw != 0)
    {
      if raw.tag != BOOL then None else Some(raw.raw != 0)
    }

    /** `getInt`: the word read as a signed 32-bit value. */
    function GetInt(): (r: Option<s32>)
      ensures r.Some? <==> raw.tag == INT
      ensures r.Some? ==> FromS32(r.value) == raw.raw
    {
      if raw.tag != INT then None else Some(ToS32(raw.raw))
    }

    /** `getUInt`: a UInt, or an Int that is not negative. */
    function GetUInt(): (r: Option<u32>)
      ensures r.Some? <==> raw.tag == UINT || (raw.tag == INT && ToS32(raw.raw) >= 0)
      ensures r.Some? ==> r.value == raw.raw
    {
      if raw.tag == INT then (if ToS32(raw.raw) >= 0 then Some(raw.raw) else None)
      else if raw.tag == UINT then Some(raw.raw)
      else None
    }

    /** `getFloat`: the word's bit pattern. */
    function GetFloat(): (r: Option<u32>)
      ensures r.Some? <==> raw.tag == FLOAT
      ensures r.Some? ==> r.value == raw.raw
    {
      if raw.tag != FLOAT then None else Some(raw.raw)
    }

    /** `getInt64`: Int sign-extended, UInt zero-extended, or the 8 bytes
        at offset `raw` for Int64. A UInt64 gives nothing. */
    function GetInt64(): (r: Option<s64>)
      requires raw.tag == INT64 ==> raw.raw + 8 <= reader.buffer.Size()
      ensures r.Some? <==> raw.tag == INT || raw.tag == UINT || raw.tag == INT64
      ensures r.Some? && raw.tag == INT ==> r.value == ToS32(raw.raw)
      ensures r.Some? && raw.tag == UINT ==> r.value == raw.raw
      ensures r.Some? && raw.tag == INT64 ==> r.value == ReadS64(reader.Br(), raw.raw)
    {
      if raw.tag == INT then Some(ToS32(raw.raw))
      else if raw.tag == UINT then Some(raw.raw)
      else if raw.tag == INT64 then Some(ReadS64(reader.Br(), raw.raw))
      else None
    }

    /** `getUInt64`: whatever `getUInt` gives, else the 8 bytes at `raw`
        for UInt64, or for an Int64 that is not negative. */
    function GetUInt64(): (r: Option<u64>)
      requires raw.tag == INT64 || raw.tag == UINT64 ==> raw.raw + 8 <= reader.buffer.Size()
      ensures r.Some? <==>
        || GetUInt().Some? || raw.tag == UINT64
        || (raw.tag == INT64 && ReadU64(reader.Br(), raw.raw) < 0x8000_0000_0000_0000)
      ensures r.Some? && GetUInt().Some? ==> r.value == GetUInt().value
      ensures r.Some? && (raw.tag == INT64 || raw.tag == UINT64) ==> r.value == ReadU64(reader.Br(), raw.raw)
    {
      var value := GetUInt();
      if value.Some? then Some(value.value)
      else if raw.tag != INT64 && raw.tag != UINT64 then None
      else
        var v := ReadU64(reader.Br(), raw.raw);
        if raw.tag == INT64 && ToS64(v) < 0 then None else Some(v)
    }

    /** `getDouble`: a Float widened, or the 8 bytes at `raw` for Double. */
    function GetDouble(): (r: Option<F64>)
      requires raw.tag == DOUBLE ==> raw.raw + 8 <= reader.buffer.Size()
      ensures r.Some? <==> raw.tag == FLOAT || raw.tag == DOUBLE
      ensures r.Some? && raw.tag == FLOAT ==> r.value == WidenedFloat(raw.raw)
      ensures r.Some? && raw.tag == DOUBLE ==> r.value == DoubleBits(ReadU64(reader.Br(), raw.raw))
    {
      var f := GetFloat();
      if f.Some? then Some(WidenedFloat(f.value))
      else if raw.tag != DOUBLE then None
      else Some(DoubleBits(ReadU64(reader.Br(), raw.raw)))
    }

    /** Everything `val` may read lies inside the buffer. */
    predicate ValReadable() {
      && (raw.tag == HASH || raw.tag == ARRAY ==> raw.raw + 4 <= reader.buffer.Size())
      && (raw.tag == STRING ==> StringSlotOffset(reader.stringTableOffset, raw.raw) + 4 <= reader.buffer.Size())
      && (IsOutOfLineTag(raw.tag) ==> raw.raw + 8 <= reader.buffer.Size())
    }

    /** `val`: the value as a variant, dispatching on the tag. */
    function Val(): (v: Variant)
      requires ValReadable()
      ensures v == Sentinel <==> raw.tag == NULL || !IsNodeTag(raw.tag)
    {
      if raw.tag == HASH then HashVal(GetHash().value)
      else if raw.tag == ARRAY then ArrayVal(GetArray().value)
      else if raw.tag == STRING then StringVal(GetString().value)
      else if raw.tag == BOOL then BoolVal(GetBool().value)
      else if raw.tag == INT then IntVal(GetInt().value)
      else if raw.tag == UINT then UIntVal(GetUInt().value)
      else if raw.tag == FLOAT then FloatVal(GetFloat().value)
      else if raw.tag == INT64 then Int64Val(GetInt64().value)
      else if raw.tag == UINT64 then UInt64Val(GetUInt64().value)
      else if raw.tag == DOUBLE then DoubleVal(GetDouble().value)
      else Sentinel
    }
  }

  // Properties of the accessors ----------------------------------------------

  /** The integer accessors agree wherever two of them give a value, and the
      64-bit ones extend the 32-bit ones. */
  lemma IntegerAccessorsAgree(d: ItemData)
    requires IsOutOfLineTag(d.raw.tag) ==> d.raw.raw + 8 <= d.reader.buffer.Size()
    ensures d.GetInt().Some? && d.GetUInt().Some? ==> d.GetInt().value == d.GetUInt().value
    ensures d.GetInt().Some? ==> d.GetInt64() == Some(d.GetInt().value)
    ensures d.GetUInt().Some? ==> d.GetInt64() == Some(d.GetUInt().value as s64)
    ensures d.GetUInt().Some? ==> d.GetUInt64() == Some(d.GetUInt().value as u64)
    ensures d.GetInt64().Some? && d.GetUInt64().Some? ==> d.GetInt64().value == d.GetUInt64().value
    ensures d.GetInt64().Some? && d.GetInt64().value >= 0 ==> d.GetUInt64() == Some(d.GetInt64().value as u64)
    ensures d.GetUInt64().Some? && d.raw.tag != UINT64 ==> d.GetInt64() == Some(d.GetUInt64().value as s64)
  {
    if d.raw.tag == INT64 {
      var br := d.reader.Br();
      assert ToS64(ReadU64(br, d.raw.raw)) == ReadS64(br, d.raw.raw);
    }
  }

  /** `getDouble` extends `getFloat`. */
  lemma DoubleExtendsFloat(d: ItemData)
    requires d.raw.tag == DOUBLE ==> d.raw.raw + 8 <= d.reader.buffer.Size()
    ensures d.GetFloat().Some? ==> d.GetDouble() == Some(WidenedFloat(d.GetFloat().value))
    ensures d.GetDouble().Some? <==> d.GetFloat().Some? || d.raw.tag == DOUBLE
  {
  }

  /** `val` gives, for each value tag, what that tag's accessor gives, and
      the sentinel exactly for tags outside the node types. */
  lemma ValAgreesWithAccessors(d: ItemData)
    requires d.ValReadable()
    ensures d.raw.tag == HASH ==> d.Val() == HashVal(d.GetHash().value)
    ensures d.raw.tag == ARRAY ==> d.Val() == ArrayVal(d.GetArray().value)
    ensures d.raw.tag == STRING ==> d.Val() == StringVal(d.GetString().value)
    ensures d.raw.tag == BOOL ==> d.Val() == BoolVal(d.GetBool().value)
    ensures d.raw.tag == INT ==> d.Val() == IntVal(d.GetInt().value)
    ensures d.raw.tag == UINT ==> d.Val() == UIntVal(d.GetUInt().value)
    ensures d.raw.tag == FLOAT ==> d.Val() == FloatVal(d.GetFloat().value)
    ensures d.raw.tag == INT64 ==> d.Val() == Int64Val(d.GetInt64().value)
    ensures d.raw.tag == UINT64 ==> d.Val() == UInt64Val(d.GetUInt64().value)
    ensures d.raw.tag == DOUBLE ==> d.Val() == DoubleVal(d.GetDouble().value)
    ensures d.Val() == Sentinel <==> d.raw.tag == NULL || !IsNodeTag(d.raw.tag)
  {
  }

  /** The keys and the values of a hash pair up into its entries. */
  lemma KeysAndValuesPairUp(h: Hash, i: nat)
    requires forall idx: u32 | idx < h.numItems :: h.EntryReadable(idx)
    requires i < h.numItems
    ensures h.GetByIndex(i) == Some(HashItem(h.Keys()[i], h.Values()[i]))
  {
  }

  // Root access ----------------------------------------------------------------

  /** `Reader::getArray`: the root array when the root is an array node. */
  function GetRootArray(reader: Reader): (r: Option<Array>)
    requires reader.rootNodeOffset != 0 ==> reader.rootNodeOffset < reader.buffer.Size()
    requires reader.rootNodeOffset != 0 && reader.buffer.data[reader.rootNodeOffset] == ARRAY ==>
      reader.rootNodeOffset + 4 <= reader.buffer.Size()
    ensures r.Some? <==> reader.IsArray()
    ensures r.Some? ==> r.value == NewArray(reader, reader.rootNodeOffset)
  {
    if !reader.IsArray() then None else Some(NewArray(reader, reader.rootNodeOffset))
  }

  /** `Reader::getHash`: the root hash when the root is a hash node. */
  function GetRootHash(reader: Reader): (r: Option<Hash>)
    requires reader.rootNodeOffset != 0 ==> reader.rootNodeOffset < reader.buffer.Size()
    requires reader.rootNodeOffset != 0 && reader.buffer.data[reader.rootNodeOffset] == HASH ==>
      reader.rootNodeOffset + 4 <= reader.buffer.Size()
    ensures r.Some? <==> reader.IsHash()
    ensures r.Some? ==> r.value == NewHash(reader, reader.rootNodeOffset)
  {
    if !reader.IsHash() then None else Some(NewHash(reader, reader.rootNodeOffset))
  }

  /** At most one of the two root accessors gives a container. */
  lemma RootAccessorsExclusive(reader: Reader)
    requires reader.rootNodeOffset != 0 ==> reader.rootNodeOffset < reader.buffer.Size()
    requires reader.rootNodeOffset != 0 && IsContainerType(reader.buffer.data[reader.rootNodeOffset]) ==>
      reader.rootNodeOffset + 4 <= reader.buffer.Size()
    ensures !(GetRootArray(reader).Some? && GetRootHash(reader).Some?)
  {
    RootQueries(reader);
  }

  /** A root whose tag is neither Array nor Hash is only looked at: both
      accessors give nothing, even when it is the buffer's last byte. */
  lemma NonContainerRootGivesNothing(reader: Reader)
    requires reader.rootNodeOffset != 0 && reader.rootNodeOffset < reader.buffer.Size()
    requires !IsContainerType(reader.buffer.data[reader.rootNodeOffset])
    ensures GetRootArray(reader) == None && GetRootHash(reader) == None
  {
  }

  // Iteration --------------------------------------------------------------------

  /** The two kinds of `Container`, and what their cursors yield. */
  datatype Container = ArrayContainer(arrayNode: Array) | HashContainer(hashNode: Hash) {
    function NumItems(): (n: nat)
      ensures n == if ArrayContainer? then arrayNode.numItems else hashNode.numItems
    {
      match this
      case ArrayContainer(a) => a.numItems
      case HashContainer(h) => h.numItems
    }

    /** Item `idx`, when there is one, can be read. */
    predicate ItemReadable(idx: nat) {
      match this
      case ArrayContainer(a) => idx < a.numItems ==> a.ItemInBounds(idx)
      case HashContainer(h) => idx < h.numItems ==> h.EntryReadable(idx as u32)
    }

    /** Every item of the container can be read. */
    predicate Readable() {
      match this
      case ArrayContainer(a) => forall idx: nat | idx < a.numItems :: a.ItemInBounds(idx)
      case HashContainer(h) => forall idx: u32 | idx < h.numItems :: h.EntryReadable(idx)
    }

    /** A container whose items can all be read can read each one. */
    lemma ReadableItems()
      requires Readable()
      ensures forall idx: nat :: ItemReadable(idx)
    {
    }

    /** `Container::getByIndex`: the concrete container's `getByIndexImpl`. */
    function GetByIndex(idx: nat): (r: Option<Element>)
      requires ItemReadable(idx)
      ensures r.None? <==> NumItems() <= idx
      ensures ArrayContainer? && r.Some? ==> r.value == ArrayElement(arrayNode.GetByIndex(idx).value)
      ensures HashContainer? && r.Some? ==> r.value == HashElement(hashNode.GetByIndex(idx).value)
    {
      match this
      case ArrayContainer(a) => if a.numItems <= idx then None else Some(ArrayElement(a.GetByIndex(idx).value))
      case HashContainer(h) => if h.numItems <= idx then None else Some(HashElement(h.GetByIndex(idx).value))
    }
  }

  datatype Element = ArrayElement(data: ItemData) | HashElement(item: HashItem)

  const CURSOR_MODULUS: nat := 0x1_0000_0000_0000_0000

  /** `Container::Cursor`: a position in a container; moving it is `size_t`
      arithmetic, which wraps. */
  class Cursor {
    const container: Container
    var idx: u64

    constructor (container: Container, idx: u64)
      ensures this.container == container && this.idx == idx
    {
      this.container := container;
      this.idx := idx;
    }

    /** `read`: the item under the cursor, which must be a valid index. */
    method Read() returns (e: Element)
      requires container.ItemReadable(idx) && idx < container.NumItems()
      ensures container.GetByIndex(idx) == Some(e)
    {
      e := container.GetByIndex(idx).value;
    }

    /** `equal`: two cursors are equal when their indices are, whatever
        their containers; a cursor is equal to itself. */
    function Equal(other: Cursor): (r: bool)
      reads this, other
      ensures r <==> other.idx == idx
      ensures this == other ==> r
    {
      idx == other.idx
    }

    /** `advance`: move by `n`, modulo 2^64. */
    method Advance(n: int)
      requires -0x8000_0000_0000_0000 <= n < 0x8000_0000_0000_0000
      modifies this
      ensures idx == (old(idx) + n) % CURSOR_MODULUS
    {
      idx := (idx + n) % CURSOR_MODULUS;
    }

    method Next()
      modifies this
      ensures idx == (old(idx) + 1) % CURSOR_MODULUS
    {
      Advance(1);
    }

    method Prev()
      modifies this
      ensures idx == (old(idx) + CURSOR_MODULUS - 1) % CURSOR_MODULUS
    {
      Advance(-1);
    }
  }

  /** `es` is what reading `c` from index 0 has given so far. */
  ghost predicate Yields(c: Container, es: seq<Element>)
    requires forall idx: nat :: c.ItemReadable(idx)
  {
    forall i | 0 <= i < |es| :: c.GetByIndex(i) == Some(es[i])
  }

  lemma YieldsOneMore(c: Container, es: seq<Element>, e: Element)
    requires forall idx: nat :: c.ItemReadable(idx)
    requires Yields(c, es) && c.GetByIndex(|es|) == Some(e)
    ensures Yields(c, es + [e])
  {
  }

  /** A step from an index below 2^32 does not wrap. */
  lemma NoWrap(x: u64)
    requires x < 0x1_0000_0000
    ensures (x + 1) % CURSOR_MODULUS == x + 1
  {
  }

  /** `begin_cursor`: index 0. */
  method BeginCursor(c: Container) returns (cur: Cursor)
    ensures fresh(cur) && cur.container == c && cur.idx == 0
  {
    cur := new Cursor(c, 0);
  }

  /** `end_cursor`: index `numItems()`. */
  method EndCursor(c: Container) returns (cur: Cursor)
    ensures fresh(cur) && cur.container == c && cur.idx == c.NumItems()
  {
    cur := new Cursor(c, c.NumItems() as u64);
  }

  /** A range-for over a container: from the begin cursor to the end cursor,
      reading then stepping. It yields `getByIndex(idx)` for idx = 0 up to
      `numItems()` exclusive, in order. */
  method Iterate(c: Container) returns (es: seq<Element>)
    requires c.Readable()
    ensures |es| == c.NumItems()
    ensures forall i | 0 <= i < |es| :: c.GetByIndex(i) == Some(es[i])
  {
    c.ReadableItems();
    var it := BeginCursor(c);
    var end := EndCursor(c);
    es := [];
    while !it.Equal(end)
      invariant it.container == c && end.idx == c.NumItems() && it != end
      invariant it.idx == |es| <= c.NumItems()
      invariant Yields(c, es)
      decreases c.NumItems() - it.idx
    {
      var e := it.Read();
      YieldsOneMore(c, es, e);
      es := es + [e];
      NoWrap(it.idx);
      it.Next();
    }
  }
}
