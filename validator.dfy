/** The structural checks behind `Reader::isValid`: string tables, array and
    hash nodes, and the node switch that ties them together.

    The node graph is read from the buffer and may contain cycles, on which
    the source recurses without end. Each check therefore carries a `depth`,
    the number of nested containers it may still enter, and has three
    outcomes: the source returns true (Accepted), returns false (Rejected),
    or is still descending when the depth runs out (Unfinished).
    NodeCheckMonotone shows that an outcome other than Unfinished is the
    same at every larger depth. */
module Validator {
  import opened BymlTypes
  import opened BinaryFormat
  import opened Common
  import opened CString
  import opened Util

  /** `NodeCheckContext`. `bufferSize` is a u32 in the source, so it is the
      buffer size modulo 2^32; it never exceeds the size of the data. */
  datatype Context = Context(br: BinaryReader, bufferSize: u32, hashKeyTableLen: u32, stringTableLen: u32)

  predicate ContextOk(ctx: Context) {
    ctx.bufferSize <= |ctx.br.data|
  }

  datatype Outcome = Accepted | Rejected | Unfinished

  function Verdict(b: bool): Outcome {
    if b then Accepted else Rejected
  }

  // String tables ----------------------------------------------------------

  /** String `i` of the table at `offset` starts inside the buffer and
      has a NUL before its end. */
  predicate StringEntryOk(ctx: Context, offset: nat, i: u32)
    requires ContextOk(ctx) && StringSlotOffset(offset, i) + 4 <= ctx.bufferSize
  {
    var p := GetStringOffset(ctx.br, offset, i);
    p < ctx.bufferSize && NulBefore(ctx.br.data, p, ctx.bufferSize)
  }

  /** What `checkStringTable` accepts. */
  predicate StringTableAccepted(ctx: Context, offset: nat)
    requires ContextOk(ctx)
  {
    && offset + 4 <= ctx.bufferSize
    && ctx.br.data[offset] == STRING_TABLE
    && var n := ReadU24(ctx.br, offset + 1);
    && offset + 4 + 4 * (n + 1) <= ctx.bufferSize
    && forall i: u32 | i < n :: StringEntryOk(ctx, offset, i)
  }

  /** `checkStringTable`, with the count it writes through `numItems`
      (whose target starts at 0) returned alongside the verdict. */
  method CheckStringTable(ctx: Context, offset: nat) returns (ok: bool, numItems: u32)
    requires ContextOk(ctx)
    ensures ok == StringTableAccepted(ctx, offset)
    ensures numItems ==
      if offset + 4 <= ctx.bufferSize && ctx.br.data[offset] == STRING_TABLE
      then ReadU24(ctx.br, offset + 1) else 0
  {
    numItems := 0;
    if ctx.bufferSize < offset + 4 {
      return false, numItems;
    }
    var tag := ReadU8(ctx.br, offset);
    if tag != STRING_TABLE {
      return false, numItems;
    }
    numItems := ReadU24(ctx.br, offset + 1);
    if ctx.bufferSize < offset + 4 + 4 * (numItems + 1) {
      return false, numItems;
    }
    SlotsInTable(ctx, offset, numItems);
    var i: u32 := 0;
    while i < numItems
      invariant i <= numItems
      invariant forall j: u32 | j < i :: StringEntryOk(ctx, offset, j)
    {
      var stringOffset := GetStringOffset(ctx.br, offset, i);
      if ctx.bufferSize <= stringOffset {
        assert !StringEntryOk(ctx, offset, i);
        return false, numItems;
      }
      var maxLen := ctx.bufferSize - stringOffset;
      var len := StrNLen(ctx.br.data, GetString(ctx.br, stringOffset), maxLen);
      if len == maxLen {
        assert !StringEntryOk(ctx, offset, i);
        return false, numItems;
      }
      EntriesExtend(ctx, offset, numItems, i);
      i := i + 1;
    }
    return true, numItems;
  }

  /** Every offset slot of a table whose `n + 1` slots fit in the buffer
      lies inside the buffer. */
  lemma SlotsInTable(ctx: Context, offset: nat, n: u32)
    requires n < 0x100_0000 && offset + 4 + 4 * (n + 1) <= ctx.bufferSize
    ensures forall j: u32 | j < n :: StringSlotOffset(offset, j) + 4 <= ctx.bufferSize
  {
    forall j: u32 | j < n
      ensures StringSlotOffset(offset, j) + 4 <= ctx.bufferSize
    {
      assert U32(4 * j) == 4 * j;
    }
  }

  /** The entries before `i` and entry `i` are the entries before `i + 1`. */
  lemma EntriesExtend(ctx: Context, offset: nat, n: u32, i: u32)
    requires ContextOk(ctx) && i < n
    requires forall j: u32 | j < n :: StringSlotOffset(offset, j) + 4 <= ctx.bufferSize
    requires forall j: u32 | j < i :: StringEntryOk(ctx, offset, j)
    requires GetStringOffset(ctx.br, offset, i) < ctx.bufferSize
    requires var p := GetStringOffset(ctx.br, offset, i);
      StrNLen(ctx.br.data, p, ctx.bufferSize - p) != ctx.bufferSize - p
    ensures forall j: u32 | j < i + 1 :: StringEntryOk(ctx, offset, j)
  {
    assert StringEntryOk(ctx, offset, i);
  }

  // Nodes --------------------------------------------------------------------

  /** `checkNode`: the switch on the node type. Entering a container uses
      one level of depth. */
  function NodeCheck(ctx: Context, data: nat, tag: Byte, depth: nat): Outcome
    requires ContextOk(ctx)
    decreases depth, 0, 0
  {
    if tag == STRING then Verdict(data < ctx.stringTableLen)
    else if tag == ARRAY then (if depth == 0 then Unfinished else ArrayCheck(ctx, data, depth - 1))
    else if tag == HASH then (if depth == 0 then Unfinished else HashCheck(ctx, data, depth - 1))
    else if tag == BOOL || tag == INT || tag == FLOAT || tag == UINT then Accepted
    else if tag == INT64 || tag == UINT64 || tag == DOUBLE then Verdict(data + 8 < ctx.bufferSize)
    else if tag == NULL then Accepted
    else Rejected
  }

  /** `checkArrayNode`: header in bounds, Array tag, all slots in bounds,
      then every child in index order. */
  function ArrayCheck(ctx: Context, offset: nat, depth: nat): Outcome
    requires ContextOk(ctx)
    decreases depth, 2, 0
  {
    if ctx.bufferSize < offset + 4 then Rejected
    else if ctx.br.data[offset] != ARRAY then Rejected
    else
      var n := ReadContainerSize(ctx.br, offset);
      if ctx.bufferSize < GetArrayValuesOffset(offset, n) + 4 * n then Rejected
      else ArrayItemsCheck(ctx, offset, n, 0, depth)
  }

  /** The children of an array from index `i` on; the first that is not
      accepted decides. */
  function ArrayItemsCheck(ctx: Context, offset: nat, n: u32, i: nat, depth: nat): Outcome
    requires ContextOk(ctx) && n < 0x100_0000 && i <= n
    requires GetArrayValuesOffset(offset, n) + 4 * n <= ctx.bufferSize
    decreases depth, 1, n - i
  {
    if i == n then Accepted
    else
      var item := ReadArrayItem(ctx.br, GetArrayTypesOffset(offset), GetArrayValuesOffset(offset, n), i);
      var r := NodeCheck(ctx, item.raw, item.tag, depth);
      if r != Accepted then r else ArrayItemsCheck(ctx, offset, n, i + 1, depth)
  }

  /** `checkHashNode`: header in bounds, Hash tag, all entries in bounds,
      then every entry in index order. */
  function HashCheck(ctx: Context, offset: nat, depth: nat): Outcome
    requires ContextOk(ctx)
    decreases depth, 2, 0
  {
    if ctx.bufferSize < offset + 4 then Rejected
    else if ctx.br.data[offset] != HASH then Rejected
    else
      var n := ReadContainerSize(ctx.br, offset);
      if ctx.bufferSize < GetHashItemsOffset(offset) + 8 * n then Rejected
      else HashItemsCheck(ctx, offset, n, 0, depth)
  }

  /** The entries of a hash from index `i` on: the key index must be inside
      the hash key table, then the child must pass. */
  function HashItemsCheck(ctx: Context, offset: nat, n: u32, i: nat, depth: nat): Outcome
    requires ContextOk(ctx) && n < 0x100_0000 && i <= n
    requires GetHashItemsOffset(offset) + 8 * n <= ctx.bufferSize
    decreases depth, 1, n - i
  {
    if i == n then Accepted
    else
      var item := ReadHashItemWithItemOffset(ctx.br, GetHashItemOffset(offset, i));
      if ctx.hashKeyTableLen <= item.keyIndex then Rejected
      else
        var r := NodeCheck(ctx, item.data.raw, item.data.tag, depth);
        if r != Accepted then r else HashItemsCheck(ctx, offset, n, i + 1, depth)
  }

  /** `checkNode` as the source runs it: the same switch as NodeCheck, case
      for case, calling the array and hash checks as methods. */
  method CheckNode(ctx: Context, data: nat, tag: Byte, depth: nat) returns (r: Outcome)
    requires ContextOk(ctx)
    ensures r == NodeCheck(ctx, data, tag, depth)
    decreases depth, 0, 0
  {
    if tag == STRING {
      r := Verdict(data < ctx.stringTableLen);
    } else if tag == ARRAY {
      if depth == 0 {
        r := Unfinished;
      } else {
        r := CheckArrayNode(ctx, data, depth - 1);
      }
    } else if tag == HASH {
      if depth == 0 {
        r := Unfinished;
      } else {
        r := CheckHashNode(ctx, data, depth - 1);
      }
    } else if tag == BOOL || tag == INT || tag == FLOAT || tag == UINT {
      r := Accepted;
    } else if tag == INT64 || tag == UINT64 || tag == DOUBLE {
      r := Verdict(data + 8 < ctx.bufferSize);
    } else if tag == NULL {
      r := Accepted;
    } else {
      r := Rejected;
    }
  }

  method CheckArrayNode(ctx: Context, offset: nat, depth: nat) returns (r: Outcome)
    requires ContextOk(ctx)
    ensures r == ArrayCheck(ctx, offset, depth)
    decreases depth, 2, 0
  {
    if ctx.bufferSize < offset + 4 {
      return Rejected;
    }
    if ReadU8(ctx.br, offset) != ARRAY {
      return Rejected;
    }
    var numItems := ReadContainerSize(ctx.br, offset);
    var typesOffset := GetArrayTypesOffset(offset);
    var valuesOffset := GetArrayValuesOffset(offset, numItems);
    if ctx.bufferSize < valuesOffset + 4 * numItems {
      return Rejected;
    }
    var i: u32 := 0;
    while i < numItems
      invariant i <= numItems
      invariant ArrayItemsCheck(ctx, offset, numItems, i, depth) == ArrayItemsCheck(ctx, offset, numItems, 0, depth)
    {
      var item := ReadArrayItem(ctx.br, typesOffset, valuesOffset, i);
      var child := CheckNode(ctx, item.raw, item.tag, depth);
      if child != Accepted {
        return child;
      }
      i := i + 1;
    }
    return Accepted;
  }

  method CheckHashNode(ctx: Context, offset: nat, depth: nat) returns (r: Outcome)
    requires ContextOk(ctx)
    ensures r == HashCheck(ctx, offset, depth)
    decreases depth, 2, 0
  {
    if ctx.bufferSize < offset + 4 {
      return Rejected;
    }
    if ReadU8(ctx.br, offset) != HASH {
      return Rejected;
    }
    var numItems := ReadContainerSize(ctx.br, offset);
    var itemsOffset := GetHashItemsOffset(offset);
    if ctx.bufferSize < itemsOffset + 8 * numItems {
      return Rejected;
    }
    var i: u32 := 0;
    while i < numItems
      invariant i <= numItems
      invariant HashItemsCheck(ctx, offset, numItems, i, depth) == HashItemsCheck(ctx, offset, numItems, 0, depth)
    {
      var item := ReadHashItemWithItemOffset(ctx.br, GetHashItemOffset(offset, i));
      if ctx.hashKeyTableLen <= item.keyIndex {
        return Rejected;
      }
      var child := CheckNode(ctx, item.data.raw, item.data.tag, depth);
      if child != Accepted {
        return child;
      }
      i := i + 1;
    }
    return Accepted;
  }

  // Properties ---------------------------------------------------------------

  /** The depth only cuts the recursion off: a check that finishes at some
      depth finishes with the same outcome at every larger depth. */
  lemma {:induction false} NodeCheckMonotone(ctx: Context, data: nat, tag: Byte, depth: nat, depth': nat)
    requires ContextOk(ctx) && depth <= depth'
    requires NodeCheck(ctx, data, tag, depth) != Unfinished
    ensures NodeCheck(ctx, data, tag, depth') == NodeCheck(ctx, data, tag, depth)
    decreases depth, 0, 0
  {
    if tag == ARRAY {
      ArrayCheckMonotone(ctx, data, depth - 1, depth' - 1);
    } else if tag == HASH {
      HashCheckMonotone(ctx, data, depth - 1, depth' - 1);
    }
  }

  lemma {:induction false} ArrayCheckMonotone(ctx: Context, offset: nat, depth: nat, depth': nat)
    requires ContextOk(ctx) && depth <= depth'
    requires ArrayCheck(ctx, offset, depth) != Unfinished
    ensures ArrayCheck(ctx, offset, depth') == ArrayCheck(ctx, offset, depth)
    decreases depth, 2, 0
  {
    if offset + 4 <= ctx.bufferSize && ctx.br.data[offset] == ARRAY {
      var n := ReadContainerSize(ctx.br, offset);
      if GetArrayValuesOffset(offset, n) + 4 * n <= ctx.bufferSize {
        ArrayItemsMonotone(ctx, offset, n, 0, depth, depth');
      }
    }
  }

  lemma {:induction false} ArrayItemsMonotone(ctx: Context, offset: nat, n: u32, i: nat, depth: nat, depth': nat)
    requires ContextOk(ctx) && n < 0x100_0000 && i <= n && depth <= depth'
    requires GetArrayValuesOffset(offset, n) + 4 * n <= ctx.bufferSize
    requires ArrayItemsCheck(ctx, offset, n, i, depth) != Unfinished
    ensures ArrayItemsCheck(ctx, offset, n, i, depth') == ArrayItemsCheck(ctx, offset, n, i, depth)
    decreases depth, 1, n - i
  {
    if i < n {
      var item := ReadArrayItem(ctx.br, GetArrayTypesOffset(offset), GetArrayValuesOffset(offset, n), i);
      NodeCheckMonotone(ctx, item.raw, item.tag, depth, depth');
      if NodeCheck(ctx, item.raw, item.tag, depth) == Accepted {
        ArrayItemsMonotone(ctx, offset, n, i + 1, depth, depth');
      }
    }
  }

  lemma {:induction false} HashCheckMonotone(ctx: Context, offset: nat, depth: nat, depth': nat)
    requires ContextOk(ctx) && depth <= depth'
    requires HashCheck(ctx, offset, depth) != Unfinished
    ensures HashCheck(ctx, offset, depth') == HashCheck(ctx, offset, depth)
    decreases depth, 2, 0
  {
    if offset + 4 <= ctx.bufferSize && ctx.br.data[offset] == HASH {
      var n := ReadContainerSize(ctx.br, offset);
      if GetHashItemsOffset(offset) + 8 * n <= ctx.bufferSize {
        HashItemsMonotone(ctx, offset, n, 0, depth, depth');
      }
    }
  }

  lemma {:induction false} HashItemsMonotone(ctx: Context, offset: nat, n: u32, i: nat, depth: nat, depth': nat)
    requires ContextOk(ctx) && n < 0x100_0000 && i <= n && depth <= depth'
    requires GetHashItemsOffset(offset) + 8 * n <= ctx.bufferSize
    requires HashItemsCheck(ctx, offset, n, i, depth) != Unfinished
    ensures HashItemsCheck(ctx, offset, n, i, depth') == HashItemsCheck(ctx, offset, n, i, depth)
    decreases depth, 1, n - i
  {
    if i < n {
      var item := ReadHashItemWithItemOffset(ctx.br, GetHashItemOffset(offset, i));
      if item.keyIndex < ctx.hashKeyTableLen {
        NodeCheckMonotone(ctx, item.data.raw, item.data.tag, depth, depth');
        if NodeCheck(ctx, item.data.raw, item.data.tag, depth) == Accepted {
          HashItemsMonotone(ctx, offset, n, i + 1, depth, depth');
        }
      }
    }
  }

  /** An accepted run of array children accepts each child in it. */
  lemma {:induction false} ArrayChildAccepted(ctx: Context, offset: nat, n: u32, i: nat, j: nat, depth: nat)
    requires ContextOk(ctx) && n < 0x100_0000 && i <= j < n
    requires GetArrayValuesOffset(offset, n) + 4 * n <= ctx.bufferSize
    requires ArrayItemsCheck(ctx, offset, n, i, depth) == Accepted
    ensures var item := ReadArrayItem(ctx.br, GetArrayTypesOffset(offset), GetArrayValuesOffset(offset, n), j);
      NodeCheck(ctx, item.raw, item.tag, depth) == Accepted
    decreases j - i
  {
    if i < j {
      ArrayChildAccepted(ctx, offset, n, i + 1, j, depth);
    }
  }

  /** An accepted run of hash entries accepts each entry in it: its key
      index is inside the hash key table and its child passes. */
  lemma {:induction false} HashChildAccepted(ctx: Context, offset: nat, n: u32, i: nat, j: nat, depth: nat)
    requires ContextOk(ctx) && n < 0x100_0000 && i <= j < n
    requires GetHashItemsOffset(offset) + 8 * n <= ctx.bufferSize
    requires HashItemsCheck(ctx, offset, n, i, depth) == Accepted
    ensures var item := ReadHashItemWithItemOffset(ctx.br, GetHashItemOffset(offset, j));
      item.keyIndex < ctx.hashKeyTableLen && NodeCheck(ctx, item.data.raw, item.data.tag, depth) == Accepted
    decreases j - i
  {
    if i < j {
      HashChildAccepted(ctx, offset, n, i + 1, j, depth);
    }
  }

  /** The check of an array whose only child is itself never finishes, at
      any depth: the source recurses on such a buffer without end. */
  lemma {:induction false} SelfContainingArrayNeverFinishes(ctx: Context, offset: nat, depth: nat)
    requires ContextOk(ctx) && offset + 12 <= ctx.bufferSize
    requires ctx.br.data[offset] == ARRAY && ReadContainerSize(ctx.br, offset) == 1
    requires ctx.br.data[offset + 4] == ARRAY && ReadU32(ctx.br, offset + 8) == offset
    ensures ArrayCheck(ctx, offset, depth) == Unfinished
    decreases depth
  {
    assert GetArrayValuesOffset(offset, 1) == offset + 8;
    var item := ReadArrayItem(ctx.br, GetArrayTypesOffset(offset), offset + 8, 0);
    assert item.raw == offset && item.tag == ARRAY;
    if depth > 0 {
      SelfContainingArrayNeverFinishes(ctx, offset, depth - 1);
    }
    assert NodeCheck(ctx, item.raw, item.tag, depth) == Unfinished;
    assert ArrayItemsCheck(ctx, offset, 1, 0, depth) == Unfinished;
  }

  /** A node that passes carries one of the eleven node tags, never the
      string table's; a string's index is inside the string table, and an
      out-of-line value has its 8 bytes inside the buffer. */
  lemma AcceptedNodeTag(ctx: Context, data: nat, tag: Byte, depth: nat)
    requires ContextOk(ctx)
    requires NodeCheck(ctx, data, tag, depth) == Accepted
    ensures IsNodeTag(tag) && tag != STRING_TABLE
    ensures tag == STRING ==> data < ctx.stringTableLen
    ensures IsOutOfLineTag(tag) ==> data + 8 < ctx.bufferSize
    ensures tag == ARRAY ==> depth > 0 && ArrayCheck(ctx, data, depth - 1) == Accepted
    ensures tag == HASH ==> depth > 0 && HashCheck(ctx, data, depth - 1) == Accepted
  {
  }

  /** Only a container can leave its check unfinished, and only when the
      depth ran out at it or inside it. */
  lemma UnfinishedNodeIsContainer(ctx: Context, data: nat, tag: Byte, depth: nat)
    requires ContextOk(ctx)
    requires NodeCheck(ctx, data, tag, depth) == Unfinished
    ensures tag == ARRAY || tag == HASH
    ensures depth > 0 && tag == ARRAY ==> ArrayCheck(ctx, data, depth - 1) == Unfinished
    ensures depth > 0 && tag == HASH ==> HashCheck(ctx, data, depth - 1) == Unfinished
  {
  }

  /** A container check that does not reject has found its own tag and a
      header, and with it every item slot, inside the buffer. */
  lemma ContainerHeaderChecked(ctx: Context, offset: nat, depth: nat)
    requires ContextOk(ctx)
    ensures ArrayCheck(ctx, offset, depth) != Rejected ==>
      && offset + 4 <= ctx.bufferSize && ctx.br.data[offset] == ARRAY
      && var n := ReadContainerSize(ctx.br, offset);
         GetArrayValuesOffset(offset, n) + 4 * n <= ctx.bufferSize
    ensures HashCheck(ctx, offset, depth) != Rejected ==>
      && offset + 4 <= ctx.bufferSize && ctx.br.data[offset] == HASH
      && GetHashItemsOffset(offset) + 8 * ReadContainerSize(ctx.br, offset) <= ctx.bufferSize
  {
  }

  /** An accepted string table has room for its header and the slot of at
      least one offset, and each of its strings starts inside the buffer
      and ends in a NUL there. */
  lemma AcceptedStringTable(ctx: Context, offset: nat, i: u32)
    requires ContextOk(ctx) && StringTableAccepted(ctx, offset)
    ensures offset + 8 <= ctx.bufferSize && ctx.br.data[offset] == STRING_TABLE
    ensures i < ReadU24(ctx.br, offset + 1) ==>
      var p := GetStringOffset(ctx.br, offset, i);
      p < ctx.bufferSize && NulBefore(ctx.br.data, p, ctx.bufferSize)
  {
    if i < ReadU24(ctx.br, offset + 1) {
      assert StringEntryOk(ctx, offset, i);
    }
  }
}
