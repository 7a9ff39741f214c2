/** A flattened device tree blob as the readers see it: its bytes and its header fields. */
module FdtBlob {
  import opened FdtTokens

  const FDT_MAGIC: u32 := 0xd00dfeed
  const FDT_SW_MAGIC: u32 := 0x2ff20112
  const INT_MAX: int := 0x7fff_ffff
  const FDT_V17_SIZE: nat := 40

  datatype Blob = Blob(
    data: bytes, magic: u32, totalsize: u32, offStruct: u32, offStrings: u32, offRsv: u32,
    version: u32, lastComp: u32, sizeStrings: u32, sizeStruct: u32)

  function U32(x: int): u32 { x % TWO32 }

  /** The structure block lies inside a blob of less than 2^31 - 1 bytes, in version 17 or later. */
  predicate Placed(b: Blob) {
    && b.offStruct + b.sizeStruct <= b.totalsize < INT_MAX
    && b.totalsize <= |b.data|
    && b.version >= 17
  }

  function StructOf(b: Blob): (s: bytes)
    requires Placed(b)
    ensures |s| == b.sizeStruct
  {
    b.data[b.offStruct..b.offStruct + b.sizeStruct]
  }

  /** The bounds test of `fdt_offset_ptr`, in 32-bit unsigned arithmetic; false is a null pointer. */
  predicate OffsetPtr(b: Blob, offset: int, len: u32) {
    var uoffset := U32(offset);
    var absoffset := U32(offset + b.offStruct);
    && offset >= 0
    && !(absoffset < uoffset || U32(absoffset + len) < absoffset || U32(absoffset + len) > b.totalsize)
    && (b.version >= 17 ==> !(U32(uoffset + len) < uoffset || U32(offset + len) > b.sizeStruct))
  }

  /** On a placed block the test is exactly "inside the structure block". */
  lemma OffsetPtrInside(b: Blob, offset: int, len: u32)
    requires Placed(b) && offset <= INT_MAX
    ensures OffsetPtr(b, offset, len) <==> 0 <= offset && offset + len <= b.sizeStruct
  {
    if offset >= 0 {
      assert U32(offset) == offset && U32(offset + b.offStruct) == offset + b.offStruct;
      WrapOnce(offset + len);
      WrapOnce(offset + b.offStruct + len);
    }
  }

  lemma WrapOnce(x: int)
    requires 0 <= x < 2 * TWO32
    ensures U32(x) == if x < TWO32 then x else x - TWO32
  {
  }

  /** The rest of the structure block from `offset`, empty beyond its end. */
  function RestOf(b: Blob, offset: int): bytes
    requires Placed(b)
  {
    if 0 <= offset <= b.sizeStruct then StructOf(b)[offset..] else []
  }

  lemma RestIndex(b: Blob, offset: nat, i: nat)
    requires Placed(b) && offset + i < b.sizeStruct
    ensures |RestOf(b, offset)| == b.sizeStruct - offset
    ensures RestOf(b, offset)[i] == b.data[b.offStruct + offset + i]
  {
  }

  lemma RestLoad(b: Blob, offset: nat, i: nat)
    requires Placed(b) && offset + i + 4 <= b.sizeStruct
    ensures i + 4 <= |RestOf(b, offset)|
    ensures Load32(b.data, b.offStruct + offset + i) == Load32(RestOf(b, offset), i)
  {
    var r := RestOf(b, offset);
    var w := b.data[b.offStruct..b.offStruct + b.sizeStruct];
    assert r == w[offset..];
    assert r[i] == b.data[b.offStruct + offset + i] && r[i + 1] == b.data[b.offStruct + offset + i + 1];
    assert r[i + 2] == b.data[b.offStruct + offset + i + 2] && r[i + 3] == b.data[b.offStruct + offset + i + 3];
  }

  /** The loop of `fdt_next_tag` over a node name; `offset` ends just after the NUL. */
  method SkipName(b: Blob, start: int) returns (found: bool, offset: int)
    requires Placed(b) && 0 <= start && start + 4 <= b.sizeStruct
    ensures found <==> FindNul(RestOf(b, start), 4) < b.sizeStruct - start
    ensures found ==> offset == start + FindNul(RestOf(b, start), 4) + 1
  {
    hide OffsetPtr, FindNul;
    ghost var r := RestOf(b, start);
    offset := start + 4;
    while true
      invariant start + 4 <= offset <= b.sizeStruct
      invariant forall j :: 4 <= j < offset - start ==> r[j] != 0
      decreases b.sizeStruct - offset
    {
      OffsetPtrInside(b, offset, 1);
      if !OffsetPtr(b, offset, 1) {
        NoNulToEnd(r, 4);
        return false, offset;
      }
      RestIndex(b, start, offset - start);
      if b.data[b.offStruct + offset] == 0 {
        FindNulUnique(r, 4, offset - start);
        return true, offset + 1;
      }
      offset := offset + 1;
    }
  }

  /** The tag and the unpadded length that decoding finds; a negative length is an error code. */
  function Scan(r: bytes): (nat, int) {
    if |r| < 4 then (FDT_END, -FDT_ERR_TRUNCATED) else
    var tag := Load32(r, 0);
    if tag == FDT_BEGIN_NODE then
      if FindNul(r, 4) < |r| then (tag, FindNul(r, 4) + 1) else (FDT_END, -FDT_ERR_BADSTRUCTURE)
    else if tag == FDT_PROP then
      if |r| >= 8 && 12 + Load32(r, 4) <= |r| then (tag, 12 + Load32(r, 4)) else (FDT_END, -FDT_ERR_BADSTRUCTURE)
    else if tag == FDT_END || tag == FDT_END_NODE || tag == FDT_NOP then (tag, 4)
    else (FDT_END, -FDT_ERR_BADSTRUCTURE)
  }

  lemma ScanIsReadTag(r: bytes)
    ensures match ReadTag(r)
      case Bad(e) => Scan(r) == (FDT_END, -e) && e > 0
      case Tok(t, n) => Scan(r) == (TagOf(t), RawLen(t)) && RawLen(t) <= |r|
  {
  }

  /** `fdt_next_tag`: decodes the token at `start` and says where the next one is. It answers FDT_END with a
      negative offset on error, and otherwise moves strictly forward, to at most the aligned block size. */
  method NextTag(b: Blob, start: int) returns (tag: nat, next: int)
    requires Placed(b) && start <= INT_MAX
    ensures match ReadTag(RestOf(b, start))
      case Bad(e) => tag == FDT_END && next == -e
      case Tok(t, n) => tag == TagOf(t) && next == TagAlign(start + RawLen(t))
    ensures next >= 0 ==> 0 <= start < next <= TagAlign(b.sizeStruct)
  {
    hide OffsetPtr, FindNul, U32, ReadTag, TagOf, RawLen, RestOf, TagAlign, Load32;
    ghost var r := RestOf(b, start);
    ScanIsReadTag(r);
    RestLength(b, start);
    next := -FDT_ERR_TRUNCATED;
    OffsetPtrInside(b, start, 4);
    if !OffsetPtr(b, start, 4) {
      return FDT_END, next;
    }
    RestLoad(b, start, 0);
    tag := Load32(b.data, b.offStruct + start);
    var offset := start + 4;
    next := -FDT_ERR_BADSTRUCTURE;
    if tag == FDT_BEGIN_NODE {
      var found;
      found, offset := SkipName(b, start);
      if !found {
        return FDT_END, next;
      }
    } else if tag == FDT_PROP {
      OffsetPtrInside(b, offset, 4);
      if !OffsetPtr(b, offset, 4) {
        return FDT_END, next;
      }
      RestLoad(b, start, 4);
      var len := Load32(b.data, b.offStruct + offset);
      var sum := U32(len + offset);
      SumCheck(len, offset);
      if INT_MAX <= sum || sum < offset {
        return FDT_END, next;
      }
      offset := offset + 8 + len;
    } else if tag != FDT_END && tag != FDT_END_NODE && tag != FDT_NOP {
      return FDT_END, next;
    }
    OffsetPtrInside(b, start, offset - start);
    if !OffsetPtr(b, start, offset - start) {
      return FDT_END, next;
    }
    AlignMonotone(offset, b.sizeStruct);
    next := TagAlign(offset);
  }

  /** The overflow test on a property length only fires when the value cannot fit. */
  lemma SumCheck(len: u32, offset: int)
    requires 0 <= offset <= INT_MAX
    ensures INT_MAX <= U32(len + offset) || U32(len + offset) < offset <==> len + offset >= INT_MAX
  {
    WrapOnce(len + offset);
  }

  lemma AlignMonotone(x: nat, y: nat)
    ensures x <= y ==> TagAlign(x) <= TagAlign(y)
  {
  }

  lemma RestLength(b: Blob, start: int)
    requires Placed(b)
    ensures |RestOf(b, start)| == if 0 <= start <= b.sizeStruct then b.sizeStruct - start else 0
  {
  }

  lemma NoNulToEnd(r: bytes, i: nat)
    requires i <= |r| && forall j :: i <= j < |r| ==> r[j] != 0
    ensures FindNul(r, i) == |r|
  {
  }
}
