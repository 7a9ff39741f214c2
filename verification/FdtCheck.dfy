/** Checking a complete blob: the header, the strings, and the nesting of the structure block. */
module FdtCheck {
  import opened Words
  import opened FdtTokens
  import opened FdtStrings
  import opened FdtEvents
  import opened FdtBlob

  // ---------- the header ----------

  predicate CheckOff(hdrsize: u32, totalsize: u32, off: u32) {
    off >= hdrsize && off <= totalsize
  }

  /** `check_block_`, with its sums in unsigned arithmetic. */
  predicate CheckBlock(hdrsize: u32, totalsize: u32, base: u32, size: u32) {
    && CheckOff(hdrsize, totalsize, base)
    && !(U32(base + size) < base)
    && CheckOff(hdrsize, totalsize, U32(base + size))
  }

  /** `fdt_check_header` for blobs of version 17 or later at an aligned address. */
  function CheckHeader(b: Blob): int
    requires b.version >= 17
  {
    if b.magic != FDT_MAGIC then -FDT_ERR_BADMAGIC
    else if b.version < FDT_FIRST_SUPPORTED_VERSION || b.lastComp > FDT_LAST_SUPPORTED_VERSION then -FDT_ERR_BADVERSION
    else if b.version < b.lastComp then -FDT_ERR_BADVERSION
    else if b.totalsize < FDT_V17_SIZE || b.totalsize > INT_MAX then -FDT_ERR_TRUNCATED
    else if b.offRsv % 8 != 0 then -FDT_ERR_ALIGNMENT
    else if b.offStruct % 4 != 0 then -FDT_ERR_ALIGNMENT
    else if !CheckOff(FDT_V17_SIZE, b.totalsize, b.offRsv) then -FDT_ERR_TRUNCATED
    else if !CheckBlock(FDT_V17_SIZE, b.totalsize, b.offStruct, b.sizeStruct) then -FDT_ERR_TRUNCATED
    else if !CheckBlock(FDT_V17_SIZE, b.totalsize, b.offStrings, b.sizeStrings) then -FDT_ERR_TRUNCATED
    else 0
  }

  /** The block of `size` bytes at `off` lies behind the header and inside the blob. */
  predicate Inside(b: Blob, off: u32, size: u32) {
    FDT_V17_SIZE <= off && off + size <= b.totalsize
  }

  /** What each answer of the header check means, without unsigned sums: the magic number, then the versions, then the
      total size, the alignment of the offsets, and the places of the blocks. */
  lemma HeaderAnswers(b: Blob)
    requires b.version >= 17
    ensures CheckHeader(b) == -FDT_ERR_BADMAGIC <==> b.magic != 0xd00dfeed
    ensures CheckHeader(b) == -FDT_ERR_BADVERSION <==> b.magic == 0xd00dfeed && b.lastComp > 17
    ensures b.magic == 0xd00dfeed && b.lastComp <= 17 ==>
      var sized := FDT_V17_SIZE <= b.totalsize <= INT_MAX;
      var aligned := b.offRsv % 8 == 0 && b.offStruct % 4 == 0;
      var placed := Inside(b, b.offRsv, 0) && Inside(b, b.offStruct, b.sizeStruct) &&
        Inside(b, b.offStrings, b.sizeStrings);
      CheckHeader(b) == if sized && !aligned then -FDT_ERR_ALIGNMENT
                        else if sized && placed then 0 else -FDT_ERR_TRUNCATED
  {
    WrapOnce(b.offStruct + b.sizeStruct);
    WrapOnce(b.offStrings + b.sizeStrings);
  }

  predicate StringsPlaced(b: Blob) {
    b.offStrings + b.sizeStrings <= b.totalsize
  }

  function StringsOf(b: Blob): bytes
    requires Placed(b) && StringsPlaced(b)
  {
    b.data[b.offStrings..b.offStrings + b.sizeStrings]
  }

  /** A header that passes puts both blocks inside the blob: the overflow tests miss nothing. */
  lemma HeaderPlaces(b: Blob)
    requires b.version >= 17 && b.totalsize <= |b.data| < INT_MAX && CheckHeader(b) == 0
    ensures Placed(b) && StringsPlaced(b)
  {
    WrapOnce(b.offStruct + b.sizeStruct);
    WrapOnce(b.offStrings + b.sizeStrings);
  }

  // ---------- the probe of the read-only functions ----------

  /** `fdt_ro_probe_` for a blob at an aligned address: its total size, or an error. A complete blob must be of a
      compatible version, and one under construction must have a structure block. */
  function RoProbe(b: Blob): int {
    if b.magic == FDT_MAGIC then
      if b.version < FDT_FIRST_SUPPORTED_VERSION || b.lastComp > FDT_LAST_SUPPORTED_VERSION then -FDT_ERR_BADVERSION
      else if b.totalsize < INT_MAX then b.totalsize else -FDT_ERR_TRUNCATED
    else if b.magic == FDT_SW_MAGIC then
      if b.sizeStruct == 0 then -FDT_ERR_BADSTATE
      else if b.totalsize < INT_MAX then b.totalsize else -FDT_ERR_TRUNCATED
    else -FDT_ERR_BADMAGIC
  }

  /** What each answer of the probe means. */
  lemma ProbeAnswers(b: Blob)
    ensures RoProbe(b) == -FDT_ERR_BADMAGIC <==> b.magic != 0xd00dfeed && b.magic != 0x2ff20112
    ensures RoProbe(b) == -FDT_ERR_BADVERSION <==> b.magic == 0xd00dfeed && (b.version < 2 || b.lastComp > 17)
    ensures RoProbe(b) == -FDT_ERR_BADSTATE <==> b.magic == 0x2ff20112 && b.sizeStruct == 0
    ensures RoProbe(b) == -FDT_ERR_TRUNCATED ==> b.totalsize >= INT_MAX
    ensures RoProbe(b) >= 0 ==> RoProbe(b) == b.totalsize < INT_MAX
    ensures RoProbe(b) >= 0 || RoProbe(b) in
      {-FDT_ERR_BADMAGIC, -FDT_ERR_BADVERSION, -FDT_ERR_BADSTATE, -FDT_ERR_TRUNCATED}
  {
  }

  /** A header that passes passes the probe too. */
  lemma HeaderProbe(b: Blob)
    requires b.version >= 17 && b.totalsize < INT_MAX && CheckHeader(b) == 0
    ensures RoProbe(b) == b.totalsize >= 0
  {
  }

  // ---------- strings ----------

  /** The error for a name offset at which there is no string. */
  function StringError(z: bytes, k: nat): int {
    if k >= |z| then -FDT_ERR_BADOFFSET else -FDT_ERR_TRUNCATED
  }

  /** The search for the NUL in the `len` bytes at `absoffset`: the strings block `z` from `k` on. */
  method StringIn(b: Blob, absoffset: nat, len: nat, ghost z: bytes, ghost k: nat)
    returns (found: bool, s: bytes, err: int)
    requires absoffset + len <= |b.data| && k < |z| && z[k..] == b.data[absoffset..absoffset + len]
    ensures found <==> StringAt(z, k).Some?
    ensures found ==> StringAt(z, k) == Some(s) && err == 0
    ensures !found ==> err == -FDT_ERR_TRUNCATED
  {
    var n := 0;
    assert len == |z| - k;
    while n < len && b.data[absoffset + n] != 0
      invariant 0 <= n <= len
      invariant forall j :: k <= j < k + n ==> z[j] != 0
    {
      assert z[k + n] == z[k..][n] == b.data[absoffset + n];
      n := n + 1;
    }
    if n == len {
      NoNulToEnd(z, k);
      return false, [], -FDT_ERR_TRUNCATED;
    }
    assert z[k + n] == z[k..][n] == 0;
    FindNulUnique(z, k, k + n);
    s := b.data[absoffset..absoffset + n];
    assert z[k..k + n] == z[k..][..n] == s;
    return true, s, 0;
  }

  /** `fdt_get_string` on a complete blob. `nameoff` is the 32-bit field, read as a signed number. */
  method GetString(b: Blob, nameoff: u32) returns (found: bool, s: bytes, err: int)
    requires b.version >= 17 && b.magic == FDT_MAGIC && Placed(b) && StringsPlaced(b)
    ensures found <==> RoProbe(b) >= 0 && StringAt(StringsOf(b), nameoff).Some?
    ensures found ==> StringAt(StringsOf(b), nameoff) == Some(s) && err == 0
    ensures !found ==> err == if RoProbe(b) < 0 then RoProbe(b) else StringError(StringsOf(b), nameoff)
  {
    s, err := [], RoProbe(b);
    if err < 0 {
      return false, s, err;
    }
    err := -FDT_ERR_BADOFFSET;
    var stroffset: int := if nameoff > INT_MAX then nameoff - TWO32 else nameoff;
    var absoffset := U32(stroffset + b.offStrings);
    if absoffset >= b.totalsize {
      return false, s, err;
    }
    var len := b.totalsize - absoffset;
    if stroffset < 0 {
      return false, s, err;
    }
    if stroffset >= b.sizeStrings {
      return false, s, err;
    }
    if b.sizeStrings - stroffset < len {
      len := b.sizeStrings - stroffset;
    }
    found, s, err := StringIn(b, absoffset, len, StringsOf(b), nameoff);
  }

  /** `fdt_get_string` on a blob that the sequential writer has not finished: its strings lie at the end, and the offset
      counts back from there. */
  method GetStringUnfinished(b: Blob, nameoff: u32) returns (found: bool, s: bytes, err: int)
    requires b.magic == FDT_SW_MAGIC && b.offStrings == b.totalsize <= |b.data| && b.totalsize < INT_MAX
    requires b.sizeStrings <= b.totalsize
    ensures b.sizeStruct == 0 ==> !found && err == -FDT_ERR_BADSTATE
    ensures var z, k := b.data[b.totalsize - b.sizeStrings..b.totalsize], NameIndex(b.sizeStrings, nameoff, true);
      b.sizeStruct > 0 ==>
        && (found <==> nameoff > INT_MAX && k >= 0 && StringAt(z, k).Some?)
        && (found ==> StringAt(z, k) == Some(s) && err == 0)
        && (!found ==> err == if nameoff > INT_MAX && k >= 0 then -FDT_ERR_TRUNCATED else -FDT_ERR_BADOFFSET)
  {
    hide U32, StringAt, RoProbe;
    CountedBack(b.totalsize, nameoff);
    ProbeAnswers(b);
    s, err := [], RoProbe(b);
    if err < 0 {
      return false, s, err;
    }
    err := -FDT_ERR_BADOFFSET;
    var stroffset: int := if nameoff > INT_MAX then nameoff - TWO32 else nameoff;
    var absoffset := U32(stroffset + b.offStrings);
    if absoffset >= b.totalsize {
      return false, s, err;
    }
    var len := b.totalsize - absoffset;
    var back := U32(-stroffset);
    if stroffset >= 0 || back > b.sizeStrings {
      return false, s, err;
    }
    if back < len {
      len := back;
    }
    ghost var z, k := b.data[b.totalsize - b.sizeStrings..b.totalsize], b.sizeStrings - back;
    TailOfTail(b.data, b.totalsize, b.sizeStrings, back);
    found, s, err := StringIn(b, absoffset, len, z, k);
  }

  lemma TailOfTail(d: bytes, size: nat, n: nat, back: nat)
    requires back <= n <= size <= |d|
    ensures d[size - n..size][n - back..] == d[size - back..size]
  {
  }

  /** The unsigned sums for a negative offset. */
  lemma CountedBack(totalsize: u32, nameoff: u32)
    requires totalsize < INT_MAX
    ensures nameoff > INT_MAX ==>
      var back := TWO32 - nameoff;
      && U32(-(nameoff - TWO32)) == back
      && U32(nameoff - TWO32 + totalsize) == if back <= totalsize then totalsize - back else totalsize + nameoff
  {
    if nameoff > INT_MAX {
      WrapOnce(totalsize + nameoff);
      assert U32(nameoff - TWO32 + totalsize) == U32(totalsize + nameoff) by {
        ShiftedWrap(nameoff + totalsize);
      }
      WrapOnce(TWO32 - nameoff);
    }
  }

  lemma ShiftedWrap(x: int)
    ensures U32(x - TWO32) == U32(x)
  {
  }

  // ---------- the reservation map ----------

  /** Index of the first reservation entry of size 0 at or after entry `n`, if the map is closed inside the blob. */
  function RsvEnd(b: Blob, n: nat): Option<nat>
    requires Placed(b)
    decreases b.totalsize - (b.offRsv + 16 * n)
  {
    if b.offRsv + 16 * n + 16 > b.totalsize then None
    else if Load32(b.data, b.offRsv + 16 * n + 8) == 0 && Load32(b.data, b.offRsv + 16 * n + 12) == 0 then Some(n)
    else RsvEnd(b, n + 1)
  }

  /** `fdt_num_mem_rsv`. */
  method NumMemRsv(b: Blob) returns (n: int)
    requires Placed(b) && b.totalsize >= FDT_V17_SIZE && b.offRsv <= b.totalsize
    ensures match RsvEnd(b, 0) case Some(k) => n == k case None => n == -FDT_ERR_TRUNCATED
  {
    hide U32, Load32;
    var i := 0;
    while true
      invariant 0 <= i && RsvEnd(b, i) == RsvEnd(b, 0) && b.offRsv + 16 * i <= b.totalsize + 16
      decreases b.totalsize - (b.offRsv + 16 * i)
    {
      WrapOnce(16 * i);
      WrapOnce(b.offRsv + 16 * i);
      var absoffset := U32(b.offRsv + U32(16 * i));
      if absoffset < b.offRsv || absoffset > b.totalsize - 16 {
        return -FDT_ERR_TRUNCATED;
      }
      if Load32(b.data, absoffset + 8) == 0 && Load32(b.data, absoffset + 12) == 0 {
        return i;
      }
      i := i + 1;
    }
  }

  // ---------- nesting ----------

  function Drop(s: bytes, n: nat): bytes {
    if n <= |s| then s[n..] else []
  }

  /** The walk of `fdt_check_full` over the rest `s` of the structure block; 0 accepts. */
  function CheckFrom(s: bytes, z: bytes, depth: nat, expectEnd: bool): int
    decreases |s|
  {
    match ReadTag(s)
    case Bad(e) => -e
    case Tok(t, n) =>
      ReadTagLength(s);
      if expectEnd && !t.End? && !t.Nop? then -FDT_ERR_BADSTRUCTURE else
      match t
      case Nop => CheckFrom(Drop(s, n), z, depth, expectEnd)
      case End => if depth != 0 then -FDT_ERR_BADSTRUCTURE else 0
      case BeginNode(name) =>
        if depth == 0 && name != [] then -FDT_ERR_BADSTRUCTURE else CheckFrom(Drop(s, n), z, depth + 1, expectEnd)
      case EndNode =>
        if depth == 0 then -FDT_ERR_BADSTRUCTURE else CheckFrom(Drop(s, n), z, depth - 1, depth == 1)
      case Prop(off, value) =>
        if StringAt(z, off).None? then StringError(z, off) else CheckFrom(Drop(s, n), z, depth, expectEnd)
  }

  /** `fdt_check_full`: 0 for a blob that passes every check, otherwise the error of the first check that fails. */
  method CheckFull(b: Blob, bufsize: nat) returns (err: int)
    requires b.version >= 17 && |b.data| == bufsize < INT_MAX
    ensures err == 0 <==>
      && FDT_V17_SIZE <= bufsize && b.totalsize <= bufsize && CheckHeader(b) == 0 && RsvEnd(b, 0).Some?
      && CheckFrom(StructOf(b), StringsOf(b), 0, false) == 0
    ensures FDT_V17_SIZE <= bufsize && CheckHeader(b) != 0 ==> err == CheckHeader(b)
    ensures bufsize < FDT_V17_SIZE || (CheckHeader(b) == 0 && bufsize < b.totalsize) ==> err == -FDT_ERR_TRUNCATED
    ensures FDT_V17_SIZE <= bufsize && CheckHeader(b) == 0 && b.totalsize <= bufsize ==>
      err == if RsvEnd(b, 0).None? then -FDT_ERR_TRUNCATED else CheckFrom(StructOf(b), StringsOf(b), 0, false)
  {
    if bufsize < FDT_V17_SIZE {
      return -FDT_ERR_TRUNCATED;
    }
    err := CheckHeader(b);
    if err != 0 {
      return;
    }
    if bufsize < b.totalsize {
      return -FDT_ERR_TRUNCATED;
    }
    HeaderPlaces(b);
    var numMemRsv := NumMemRsv(b);
    if numMemRsv < 0 {
      return numMemRsv;
    }
    HeaderProbe(b);
    err := CheckWalk(b);
  }

  /** The loop of `fdt_check_full`. */
  method CheckWalk(b: Blob) returns (err: int)
    requires b.magic == FDT_MAGIC && RoProbe(b) >= 0
    requires Placed(b) && StringsPlaced(b) && b.offStruct >= FDT_V17_SIZE
    ensures err == CheckFrom(StructOf(b), StringsOf(b), 0, false)
  {
    hide ReadTag, StringAt, RawLen, TokLen, CheckFrom, StringsOf, RestOf, Drop, TagAlign, StringError;
    ghost var s, z := StructOf(b), StringsOf(b);
    WholeRest(b);
    var depth, expectEnd, next := 0, false, 0;
    while true
      invariant 0 <= next <= TagAlign(b.sizeStruct) && next % 4 == 0 && 0 <= depth
      invariant CheckFrom(RestOf(b, next), z, depth, expectEnd) == CheckFrom(s, z, 0, false)
      decreases TagAlign(b.sizeStruct) - next
    {
      var offset := next;
      var tag;
      tag, next := NextTag(b, offset);
      RestDrop(b, offset);
      TagRead(RestOf(b, offset));
      CheckFromUnfold(RestOf(b, offset), z, depth, expectEnd);
      if next < 0 {
        return next;
      }
      if expectEnd && tag != FDT_END && tag != FDT_NOP {
        return -FDT_ERR_BADSTRUCTURE;
      }
      if tag == FDT_END {
        if depth != 0 {
          return -FDT_ERR_BADSTRUCTURE;
        }
        return 0;
      } else if tag == FDT_BEGIN_NODE {
        depth := depth + 1;
        if depth == 1 {
          var name := NodeName(b, offset);
          if name != [] {
            return -FDT_ERR_BADSTRUCTURE;
          }
        }
      } else if tag == FDT_END_NODE {
        if depth == 0 {
          return -FDT_ERR_BADSTRUCTURE;
        }
        depth := depth - 1;
        if depth == 0 {
          expectEnd := true;
        }
      } else if tag == FDT_PROP {
        PropHere(b, offset);
        var nameoff := Load32(b.data, b.offStruct + offset + 8);
        var found, _, e := GetString(b, nameoff);
        if !found {
          return e;
        }
      }
    }
  }

  lemma WholeRest(b: Blob)
    requires Placed(b)
    ensures RestOf(b, 0) == StructOf(b)
  {
    assert StructOf(b)[0..] == StructOf(b);
  }

  lemma TagRead(r: bytes)
    ensures match ReadTag(r) case Bad(e) => e > 0 case Tok(t, n) => true
  {
    ScanIsReadTag(r);
  }

  /** One step of the walk. */
  lemma CheckFromUnfold(s: bytes, z: bytes, depth: nat, expectEnd: bool)
    ensures CheckFrom(s, z, depth, expectEnd) ==
      match ReadTag(s)
      case Bad(e) => -e
      case Tok(t, n) =>
        if expectEnd && !t.End? && !t.Nop? then -FDT_ERR_BADSTRUCTURE else
        match t
        case Nop => CheckFrom(Drop(s, n), z, depth, expectEnd)
        case End => if depth != 0 then -FDT_ERR_BADSTRUCTURE else 0
        case BeginNode(name) =>
          if depth == 0 && name != [] then -FDT_ERR_BADSTRUCTURE else CheckFrom(Drop(s, n), z, depth + 1, expectEnd)
        case EndNode =>
          if depth == 0 then -FDT_ERR_BADSTRUCTURE else CheckFrom(Drop(s, n), z, depth - 1, depth == 1)
        case Prop(off, value) =>
          if StringAt(z, off).None? then StringError(z, off) else CheckFrom(Drop(s, n), z, depth, expectEnd)
  {
    hide ReadTag, StringAt, Drop, StringError;
  }

  /** `fdt_get_name` at the offset of a node. */
  method NodeName(b: Blob, offset: nat) returns (name: bytes)
    requires RoProbe(b) >= 0 && Placed(b)
    requires ReadTag(RestOf(b, offset)).Tok? && ReadTag(RestOf(b, offset)).t.BeginNode?
    ensures ReadTag(RestOf(b, offset)).t == BeginNode(name)
  {
    ghost var r := RestOf(b, offset);
    ghost var k := FindNul(r, 4);
    var p := b.offStruct + offset + 4;
    var len := 0;
    RestLength(b, offset);
    RestIndex(b, offset, 4);
    while b.data[p + len] != 0
      invariant 0 <= len <= k - 4
      invariant p + len < |b.data| && b.data[p + len] == r[4 + len]
      decreases k - len
    {
      assert r[4 + len] != 0;
      len := len + 1;
      RestIndex(b, offset, 4 + len);
    }
    FindNulUnique(r, 4, 4 + len);
    name := b.data[p..p + len];
    forall i | 0 <= i < len ensures name[i] == r[4..4 + len][i] { RestIndex(b, offset, 4 + i); }
    assert name == r[4..4 + len];
  }

  lemma PropHere(b: Blob, offset: nat)
    requires Placed(b) && ReadTag(RestOf(b, offset)).Tok? && ReadTag(RestOf(b, offset)).t.Prop?
    ensures offset + 12 <= b.sizeStruct
    ensures Load32(b.data, b.offStruct + offset + 8) == ReadTag(RestOf(b, offset)).t.nameoff
  {
    RestLength(b, offset);
    RestLoad(b, offset, 8);
  }

  /** The rest of the block after the token at an aligned offset. */
  lemma RestDrop(b: Blob, offset: nat)
    requires Placed(b) && offset % 4 == 0
    ensures ReadTag(RestOf(b, offset)).Tok? ==>
      var n := ReadTag(RestOf(b, offset)).n;
      var next := TagAlign(offset + RawLen(ReadTag(RestOf(b, offset)).t));
      next == offset + n && next % 4 == 0 && RestOf(b, next) == Drop(RestOf(b, offset), n)
  {
    hide ReadTag, RawLen, TokLen;
    var r := RestOf(b, offset);
    if ReadTag(r).Tok? {
      ReadTagLength(r);
      TokLenIsAligned(ReadTag(r).t, offset);
      RestLength(b, offset);
      var n := ReadTag(r).n;
      if offset + n <= b.sizeStruct {
        assert StructOf(b)[offset..][n..] == StructOf(b)[offset + n..];
      }
    }
  }

  // ---------- what acceptance means ----------

  /** The tokens up to the end tag, if the walk gets that far. */
  function TokensOf(s: bytes): Option<seq<Token>>
    decreases |s|
  {
    match ReadTag(s)
    case Bad(_) => None
    case Tok(t, n) =>
      ReadTagLength(s);
      if t.End? then Some([]) else
      match TokensOf(Drop(s, n))
      case None => None
      case Some(rest) => Some([t] + rest)
  }

  lemma {:induction false} TokensOfDecoded(s: bytes, ts: seq<Token>, tail: bytes)
    requires Decodes(s, ts + [End]) && forall i :: 0 <= i < |ts| ==> !ts[i].End?
    ensures TokensOf(s + tail) == Some(ts)
    decreases |ts|
  {
    hide ReadTag, TokLen;
    var all := ts + [End];
    DecodesHead(s, all);
    var n := TokLen(all[0]);
    ReadTagLocal(s[..n], all[0], s[n..] + tail);
    assert s + tail == s[..n] + (s[n..] + tail);
    if ts != [] {
      assert all[1..] == ts[1..] + [End];
      assert Drop(s + tail, n) == s[n..] + tail;
      DecodesFirst(s, all);
      TokensOfDecoded(s[n..], ts[1..], tail);
      assert ts == [ts[0]] + ts[1..];
    }
  }

  /** How far the node depth changes at a token. */
  function Step(t: Token): int {
    if t.BeginNode? then 1 else if t.EndNode? then -1 else 0
  }

  function DepthAt(ts: seq<Token>, i: nat): int
    requires i <= |ts|
  {
    if i == 0 then 0 else DepthAt(ts, i - 1) + Step(ts[i - 1])
  }

  /** An outermost node has been closed before token `i`. */
  predicate Closed(ts: seq<Token>, i: nat)
    requires i <= |ts|
  {
    i > 0 && (Closed(ts, i - 1) || (ts[i - 1].EndNode? && DepthAt(ts, i) == 0))
  }

  /** Token `i` is allowed where it stands. */
  predicate Fits(ts: seq<Token>, z: bytes, i: nat)
    requires i < |ts|
  {
    match ts[i]
    case Nop => true
    case End => false
    case BeginNode(name) => !Closed(ts, i) && (DepthAt(ts, i) == 0 ==> name == [])
    case EndNode => !Closed(ts, i) && DepthAt(ts, i) > 0
    case Prop(off, _) => !Closed(ts, i) && StringAt(z, off).Some?
  }

  /** The nesting that `fdt_check_full` accepts. */
  predicate WellNested(ts: seq<Token>, z: bytes) {
    (forall i :: 0 <= i < |ts| ==> Fits(ts, z, i)) && DepthAt(ts, |ts|) == 0
  }

  /** A token is allowed at a depth, before or after the outermost node has been closed. */
  predicate Allowed(t: Token, z: bytes, depth: int, closed: bool) {
    match t
    case Nop => true
    case End => false
    case BeginNode(name) => !closed && (depth == 0 ==> name == [])
    case EndNode => !closed && depth > 0
    case Prop(off, _) => !closed && StringAt(z, off).Some?
  }

  lemma CheckFromStep(s: bytes, z: bytes, depth: nat, closed: bool)
    requires ReadTag(s).Tok? && !ReadTag(s).t.End?
    ensures var t := ReadTag(s).t;
      CheckFrom(s, z, depth, closed) == 0 <==>
      && Allowed(t, z, depth, closed)
      && depth + Step(t) >= 0
      && CheckFrom(Drop(s, ReadTag(s).n), z, depth + Step(t), closed || (t.EndNode? && depth == 1)) == 0
  {
    hide ReadTag, StringAt;
  }

  /** From token `i` on, the walk of `fdt_check_full` agrees with the conditions on the remaining tokens. */
  lemma {:induction false} CheckFromIff(s: bytes, z: bytes, ts: seq<Token>, i: nat)
    requires i <= |ts| && TokensOf(s) == Some(ts[i..]) && DepthAt(ts, i) >= 0
    ensures CheckFrom(s, z, DepthAt(ts, i), Closed(ts, i)) == 0 <==>
      (forall j :: i <= j < |ts| ==> Fits(ts, z, j)) && DepthAt(ts, |ts|) == 0
    decreases |ts| - i
  {
    hide ReadTag, StringAt, CheckFrom, Allowed, Closed, DepthAt, TokensOf, Drop, Step;
    if i < |ts| {
      assert ts[i..][0] == ts[i] && ts[i..][1..] == ts[i + 1..];
      TokensOfFirst(s, ts[i..]);
      CheckFromStep(s, z, DepthAt(ts, i), Closed(ts, i));
      FitsIsAllowed(ts, z, i);
      if Fits(ts, z, i) {
        ClosedStep(ts, z, i);
        CheckFromIff(Drop(s, ReadTag(s).n), z, ts, i + 1);
      }
    } else {
      assert ts[i..] == [];
      CheckFromEnd(s, z, DepthAt(ts, i), Closed(ts, i));
    }
  }

  /** The error of the first token that is not allowed: that of the name, if a property has none, else bad structure;
      and bad structure when a node has not ended. */
  function FirstError(ts: seq<Token>, z: bytes, i: nat): int
    requires i <= |ts|
    decreases |ts| - i
  {
    if i == |ts| then (if DepthAt(ts, i) == 0 then 0 else -FDT_ERR_BADSTRUCTURE)
    else if Fits(ts, z, i) then FirstError(ts, z, i + 1)
    else if ts[i].Prop? && !Closed(ts, i) then
      if ts[i].nameoff >= |z| then -FDT_ERR_BADOFFSET else -FDT_ERR_TRUNCATED
    else -FDT_ERR_BADSTRUCTURE
  }

  /** That is what `fdt_check_full` answers for a block that decodes. */
  lemma {:induction false} CheckAnswers(s: bytes, z: bytes, ts: seq<Token>, i: nat)
    requires i <= |ts| && TokensOf(s) == Some(ts[i..]) && DepthAt(ts, i) >= 0
    ensures CheckFrom(s, z, DepthAt(ts, i), Closed(ts, i)) == FirstError(ts, z, i)
    decreases |ts| - i
  {
    hide ReadTag, StringAt, CheckFrom, Closed, DepthAt, TokensOf, Drop, Step;
    CheckFromUnfold(s, z, DepthAt(ts, i), Closed(ts, i));
    if i < |ts| {
      assert ts[i..][0] == ts[i] && ts[i..][1..] == ts[i + 1..];
      TokensOfFirst(s, ts[i..]);
      FitsIsAllowed(ts, z, i);
      if Fits(ts, z, i) {
        ClosedStep(ts, z, i);
        StepOf(ts[i]);
        CheckAnswers(Drop(s, ReadTag(s).n), z, ts, i + 1);
      }
    } else {
      assert ts[i..] == [];
      EndRead(s);
    }
  }

  lemma StepOf(t: Token)
    ensures Step(t) == if t.BeginNode? then 1 else if t.EndNode? then -1 else 0
  {
  }

  lemma EndRead(s: bytes)
    requires TokensOf(s) == Some([])
    ensures ReadTag(s).Tok? && ReadTag(s).t.End?
  {
    hide ReadTag;
  }

  lemma FitsIsAllowed(ts: seq<Token>, z: bytes, i: nat)
    requires i < |ts|
    ensures Fits(ts, z, i) <==> Allowed(ts[i], z, DepthAt(ts, i), Closed(ts, i))
  {
  }

  lemma CheckFromEnd(s: bytes, z: bytes, depth: nat, closed: bool)
    requires TokensOf(s) == Some([])
    ensures CheckFrom(s, z, depth, closed) == 0 <==> depth == 0
  {
    hide ReadTag;
  }

  lemma TokensOfFirst(s: bytes, ts: seq<Token>)
    requires TokensOf(s) == Some(ts) && ts != []
    ensures ReadTag(s).Tok? && ReadTag(s).t == ts[0] && !ts[0].End? && TokensOf(Drop(s, ReadTag(s).n)) == Some(ts[1..])
  {
    hide ReadTag;
  }

  lemma ClosedStep(ts: seq<Token>, z: bytes, i: nat)
    requires i < |ts| && Fits(ts, z, i)
    ensures Closed(ts, i + 1) == (Closed(ts, i) || (ts[i].EndNode? && DepthAt(ts, i) == 1))
    ensures DepthAt(ts, i + 1) == DepthAt(ts, i) + Step(ts[i])
    ensures DepthAt(ts, i) >= 0 ==> DepthAt(ts, i + 1) >= 0
  {
  }

  /** `fdt_check_full` accepts exactly the placed blobs whose structure block is a token stream, well nested,
      up to an end tag. */
  lemma CheckAccepts(s: bytes, z: bytes)
    ensures CheckFrom(s, z, 0, false) == 0 <==> TokensOf(s).Some? && WellNested(TokensOf(s).value, z)
  {
    match TokensOf(s)
    case None => NeverAccepted(s, z, 0, false);
    case Some(ts) =>
      assert ts[0..] == ts;
      CheckFromIff(s, z, ts, 0);
  }

  lemma {:induction false} NeverAccepted(s: bytes, z: bytes, depth: nat, expectEnd: bool)
    requires TokensOf(s).None?
    ensures CheckFrom(s, z, depth, expectEnd) != 0
    decreases |s|
  {
    hide ReadTag, StringAt, CheckFrom, TokensOf;
    NoTokens(s);
    if ReadTag(s).Tok? {
      ReadTagLength(s);
      CheckFromStep(s, z, depth, expectEnd);
      var t := ReadTag(s).t;
      if depth + Step(t) >= 0 {
        NeverAccepted(Drop(s, ReadTag(s).n), z, depth + Step(t), expectEnd || (t.EndNode? && depth == 1));
      }
    } else {
      BadIsRefused(s, z, depth, expectEnd);
    }
  }

  lemma NoTokens(s: bytes)
    requires TokensOf(s).None?
    ensures ReadTag(s).Tok? ==>
      !ReadTag(s).t.End? && TokensOf(Drop(s, ReadTag(s).n)).None? && |Drop(s, ReadTag(s).n)| < |s|
  {
    hide ReadTag;
    if ReadTag(s).Tok? { ReadTagLength(s); }
  }

  lemma BadIsRefused(s: bytes, z: bytes, depth: nat, expectEnd: bool)
    requires ReadTag(s).Bad?
    ensures CheckFrom(s, z, depth, expectEnd) != 0
  {
    ScanIsReadTag(s);
  }

  /** What acceptance guarantees: the depth never goes negative and ends at 0, there is at most one outermost
      node, it has no name, and every property has a terminated name in the strings block. */
  lemma AcceptedShape(ts: seq<Token>, z: bytes)
    requires WellNested(ts, z)
    ensures forall i :: 0 <= i <= |ts| ==> DepthAt(ts, i) >= 0
    ensures DepthAt(ts, |ts|) == 0
    ensures forall i, j :: 0 <= i < j < |ts| && ts[i].BeginNode? && ts[j].BeginNode? ==>
      !(DepthAt(ts, i) == 0 && DepthAt(ts, j) == 0)
    ensures forall i :: 0 <= i < |ts| && ts[i].Prop? ==> StringAt(z, ts[i].nameoff).Some?
  {
    forall i | 0 <= i <= |ts| ensures DepthAt(ts, i) >= 0 {
      DepthNotNegative(ts, z, i);
    }
    forall i, j | 0 <= i < j < |ts| && ts[i].BeginNode? && ts[j].BeginNode?
      ensures !(DepthAt(ts, i) == 0 && DepthAt(ts, j) == 0)
    {
      assert Fits(ts, z, j);
      if DepthAt(ts, i) == 0 { StaysOpen(ts, z, i, j); }
    }
    forall i | 0 <= i < |ts| && ts[i].Prop? ensures StringAt(z, ts[i].nameoff).Some? { assert Fits(ts, z, i); }
  }

  lemma {:induction false} DepthNotNegative(ts: seq<Token>, z: bytes, i: nat)
    requires i <= |ts| && forall j :: 0 <= j < |ts| ==> Fits(ts, z, j)
    ensures DepthAt(ts, i) >= 0
  {
    if i > 0 {
      DepthNotNegative(ts, z, i - 1);
      assert Fits(ts, z, i - 1);
    }
  }

  /** After an outermost node has begun at `i`, it is either still open before `j` or has been closed for good. */
  lemma {:induction false} StaysOpen(ts: seq<Token>, z: bytes, i: nat, j: nat)
    requires i < j <= |ts| && ts[i].BeginNode? && DepthAt(ts, i) == 0 && forall k :: 0 <= k < |ts| ==> Fits(ts, z, k)
    ensures DepthAt(ts, j) > 0 || Closed(ts, j)
  {
    if j > i + 1 {
      StaysOpen(ts, z, i, j - 1);
      DepthNotNegative(ts, z, j);
      assert Fits(ts, z, j - 1);
    }
  }
}
