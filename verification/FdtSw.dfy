/**
 The sequential writer: the structure block grows upwards after the reservation map while the
 strings block grows downwards from the end of the buffer; finishing moves the strings down and
 turns the negative name offsets into positive ones.
 */
module FdtSw {
  import opened Words
  import opened FdtTokens
  import opened FdtStrings
  import opened FdtMemory
  import opened FdtEvents
  import opened FdtBlob

  const NO_NAME_DEDUP: u32 := 1
  const SW_HEADER: nat := 48 // the header, rounded up to the size of a reservation entry
  const FDT_LAST_COMPATIBLE_VERSION: u32 := 16

  datatype ReserveEntry = ReserveEntry(address: u64, size: u64)

  function Enc64(x: u64): (r: bytes)
    ensures |r| == 8
  {
    Enc32(x / TWO32) + Enc32(x % TWO32)
  }

  function EncRsv(entries: seq<ReserveEntry>): (r: bytes)
    ensures |r| == 16 * |entries|
  {
    if entries == [] then []
    else EncRsv(entries[..|entries| - 1]) + Enc64(entries[|entries| - 1].address) + Enc64(entries[|entries| - 1].size)
  }

  /** What has been written so far: `s` is the whole buffer. */
  predicate Written(s: bytes, offStruct: nat, sizeStruct: nat, sizeStrings: nat, rsv: seq<ReserveEntry>, ts: seq<Token>,
      es: seq<Event>)
  {
    && SW_HEADER <= offStruct && offStruct + sizeStruct + sizeStrings <= |s|
    && s[SW_HEADER..offStruct] == EncRsv(rsv)
    && Decodes(s[offStruct..offStruct + sizeStruct], ts)
    && SayAll(s[|s| - sizeStrings..], ts, es, true)
  }

  /** Bytes `p .. p + n` now encode token `t`; no other byte has changed. */
  predicate ChunkWritten(s: bytes, s': bytes, p: nat, n: nat, t: Token) {
    && |s'| == |s| && p + n <= |s| && s'[..p] == s[..p] && s'[p + n..] == s[p + n..] && Encodes(s'[p..p + n], t)
  }

  lemma TailKept(s: bytes, s': bytes, p: nat, n: nat, t: Token, k: nat, e: nat)
    requires ChunkWritten(s, s', p, n, t) && p + n <= k <= e == |s|
    ensures s'[k..e] == s[k..e]
  {
    assert s'[k..e] == s'[p + n..][k - p - n..] && s[k..e] == s[p + n..][k - p - n..];
  }

  /** Appending one encoded token after the structure block. */
  lemma AppendToken(s: bytes, s': bytes, offStruct: nat, sizeStruct: nat, sizeStrings: nat, rsv: seq<ReserveEntry>,
      ts: seq<Token>, es: seq<Event>, n: nat, t: Token, e: Event)
    requires Written(s, offStruct, sizeStruct, sizeStrings, rsv, ts, es)
    requires offStruct + sizeStruct + n + sizeStrings <= |s|
    requires ChunkWritten(s, s', offStruct + sizeStruct, n, t)
    requires Says(s[|s| - sizeStrings..], t, e, true)
    ensures Written(s', offStruct, sizeStruct + n, sizeStrings, rsv, ts + [t], es + [e])
  {
    hide Encodes, Decodes, Says, EncRsv;
    var p, q := offStruct + sizeStruct, |s| - sizeStrings;
    var old_, new_ := s[offStruct..p], s'[offStruct..p + n];
    SliceOfPrefix(s, s', p, SW_HEADER, offStruct);
    SliceOfPrefix(s, s', p, offStruct, p);
    SliceOfSuffix(s, s', p + n, q, |s|);
    assert s'[q..] == s'[q..|s|] && s[q..] == s[q..|s|];
    assert new_ == old_ + s'[p..p + n];
    DecodesOne(s'[p..p + n], t);
    DecodesConcat(old_, ts, s'[p..p + n], [t]);
    SayOneMore(s[q..], ts, es, t, e, true);
  }

  /** Writing a name in front of the strings block. */
  lemma AddName(s: bytes, offStruct: nat, sizeStruct: nat, sizeStrings: nat, rsv: seq<ReserveEntry>, ts: seq<Token>,
      es: seq<Event>, name: bytes)
    requires Written(s, offStruct, sizeStruct, sizeStrings, rsv, ts, es) && NoNul(name)
    requires offStruct + sizeStruct + sizeStrings + |name| + 1 <= |s| < TWO32
    ensures var more := sizeStrings + |name| + 1;
      var s' := Splat(s, |s| - more, name + [0]);
      && Written(s', offStruct, sizeStruct, more, rsv, ts, es)
      && StringAt(s'[|s| - more..], 0) == Some(name)
      && s'[..|s| - more] == s[..|s| - more]
  {
    hide Decodes, SayAll, Splat, EncRsv, StringAt;
    var more := sizeStrings + |name| + 1;
    var d := name + [0];
    var s' := Splat(s, |s| - more, d);
    NameInGap(s, sizeStrings, name);
    SplatSlice(s, |s| - more, d, 0, offStruct + sizeStruct);
    SplatSlice(s, |s| - more, d, 0, |s| - more);
    GapDoesNotMatter(s, s', offStruct, sizeStruct, sizeStrings, rsv, ts, es);
    SayAllPrepend(d, s[|s| - sizeStrings..], ts, es);
    StringAtNew(name, s[|s| - sizeStrings..]);
  }

  lemma NameInGap(s: bytes, sizeStrings: nat, name: bytes)
    requires sizeStrings + |name| + 1 <= |s|
    ensures var more := sizeStrings + |name| + 1;
      var s' := Splat(s, |s| - more, name + [0]);
      && s'[|s| - more..] == name + [0] + s[|s| - sizeStrings..]
      && s'[|s| - sizeStrings..] == s[|s| - sizeStrings..]
  {
  }

  /** Words outside the three blocks do not matter. */
  lemma GapDoesNotMatter(s: bytes, s': bytes, offStruct: nat, sizeStruct: nat, sizeStrings: nat, rsv: seq<ReserveEntry>,
      ts: seq<Token>, es: seq<Event>)
    requires Written(s, offStruct, sizeStruct, sizeStrings, rsv, ts, es) && |s'| == |s|
    requires s'[..offStruct + sizeStruct] == s[..offStruct + sizeStruct]
    requires s'[|s| - sizeStrings..] == s[|s| - sizeStrings..]
    ensures Written(s', offStruct, sizeStruct, sizeStrings, rsv, ts, es)
  {
    hide Decodes, SayAll, EncRsv;
    var p := offStruct + sizeStruct;
    SliceOfPrefix(s, s', p, SW_HEADER, offStruct);
    SliceOfPrefix(s, s', p, offStruct, p);
  }

  /** The room test of `fdt_add_string_`, in unsigned arithmetic: is there less than `top` below the new string? */
  predicate NoRoom(totalsize: u32, offset: u32, top: u32) {
    U32(totalsize - offset) < top
  }

  /** The subtraction is not checked, so the test is right only while the strings block, the new string
      included, is not larger than the whole buffer (or the wrapped difference is still below `top`). */
  lemma RoomTestExact(totalsize: u32, offset: u32, top: u32)
    ensures (NoRoom(totalsize, offset, top) <==> top + offset > totalsize)
      <==> offset <= totalsize || TWO32 + totalsize - offset < top
  {
    if offset > totalsize {
      assert U32(totalsize - offset) == TWO32 + totalsize - offset;
    }
  }

  /** Below the structure block of a buffer under construction nothing can wrap back, so there the test is right exactly
      when the strings block with the new name is not larger than the buffer. */
  lemma RoomGuardExact(totalsize: u32, offset: u32, top: u32)
    requires top <= totalsize
    ensures (NoRoom(totalsize, offset, top) <==> top + offset > totalsize) <==> offset <= totalsize
  {
    RoomTestExact(totalsize, offset, top);
  }

  lemma WrapNegative(x: int)
    requires 0 < x < TWO32
    ensures U32(-x) == TWO32 - x
  {
    assert U32(-x) == U32(TWO32 - x);
  }

  /** Where the test goes wrong: in a buffer of 64 bytes, ready for its first node, it lets through a name of 64 bytes,
      which would start in front of the buffer. */
  method NameInFrontOfBuffer() returns (blob: SwBuffer?, name: bytes)
    ensures blob != null && fresh(blob) && blob.Valid() && blob.InStruct() && NoNul(name)
    ensures var offset, top := blob.sizeStrings + |name| + 1, blob.offStruct + blob.sizeStruct;
      && offset == 65 && blob.totalsize == top == 64
      && !NoRoom(blob.totalsize, offset, top) && top + offset > blob.totalsize
  {
    var err;
    err, blob := CreateWithFlags(64, 0);
    err := blob.FinishReservemap();
    name := seq(64, _ => 97);
  }

  class SwBuffer {
    const buf: array<byte>
    var magic: u32
    var totalsize: u32
    var offStruct: u32
    var offStrings: u32
    var offRsv: u32
    var version: u32
    var lastComp: u32
    var sizeStrings: u32
    var sizeStruct: u32
    ghost var rsv: seq<ReserveEntry>
    ghost var tokens: seq<Token>
    ghost var events: seq<Event>

    /** The three states of the writer. */
    predicate InMemrsv() reads this { magic == FDT_SW_MAGIC && offStrings == 0 }
    predicate InStruct() reads this { magic == FDT_SW_MAGIC && offStrings == totalsize }
    predicate Complete() reads this { magic == FDT_MAGIC }

    ghost predicate Valid()
      reads this, buf
    {
      && SW_HEADER <= totalsize <= buf.Length < INT_MAX
      && version == FDT_LAST_SUPPORTED_VERSION && offRsv == SW_HEADER && offStruct % 8 == 0 && sizeStruct % 4 == 0
      && (InMemrsv() || InStruct() || Complete())
      && (!Complete() ==>
        totalsize == buf.Length && Written(buf[..], offStruct, sizeStruct, sizeStrings, rsv, tokens, events))
      && (InMemrsv() ==> tokens == [] && events == [] && sizeStruct == 0 && sizeStrings == 0)
      && (InStruct() ==> rsv != [] && rsv[|rsv| - 1] == ReserveEntry(0, 0))
      && (Complete() ==> Finished())
    }

    /** The fields of a buffer whose structure block is being written. */
    ghost predicate Building()
      reads this
    {
      && SW_HEADER <= totalsize == buf.Length < INT_MAX && InStruct()
      && version == FDT_LAST_SUPPORTED_VERSION && offRsv == SW_HEADER && offStruct % 8 == 0 && sizeStruct % 4 == 0
      && rsv != [] && rsv[|rsv| - 1] == ReserveEntry(0, 0)
    }

    /** A finished blob: the blocks follow each other, and the structure block says the events. */
    ghost predicate Finished()
      reads this, buf
    {
      && offStruct + sizeStruct == offStrings && offStrings + sizeStrings == totalsize <= buf.Length
      && SW_HEADER <= offStruct && buf[SW_HEADER..offStruct] == EncRsv(rsv)
      && rsv != [] && rsv[|rsv| - 1] == ReserveEntry(0, 0)
      && lastComp == FDT_LAST_COMPATIBLE_VERSION
      && Decodes(buf[offStruct..offStrings], tokens + [End])
      && SayAll(buf[offStrings..totalsize], tokens, events, false)
    }

    /** The strings written so far, while they lie at the end of the buffer. */
    ghost function Names(): bytes
      reads this, buf
      requires sizeStrings <= totalsize <= buf.Length
    {
      buf[totalsize - sizeStrings..totalsize]
    }

    function View(): (b: Blob)
      reads this, buf
    {
      Blob(buf[..], magic, totalsize, offStruct, offStrings, offRsv, version, lastComp, sizeStrings, sizeStruct)
    }

    /** `fdt_create_with_flags` on a buffer of `size` bytes; `result` is 0 or a negated error code. */
    constructor (size: nat, flags: u32)
      requires SW_HEADER <= size < INT_MAX
      ensures Valid() && fresh(buf) && InMemrsv() && totalsize == size && lastComp == flags
      ensures rsv == [] && tokens == [] && events == []
      ensures offStruct == SW_HEADER && sizeStruct == 0 && sizeStrings == 0
    {
      buf := new byte[size];
      magic, version, lastComp, totalsize := FDT_SW_MAGIC, FDT_LAST_SUPPORTED_VERSION, flags, size;
      offRsv, offStruct, offStrings, sizeStrings, sizeStruct := SW_HEADER, SW_HEADER, 0, 0, 0;
      rsv, tokens, events := [], [], [];
      new;
      Clear(buf);
      assert buf[..][SW_HEADER..SW_HEADER] == [];
    }

    /** The state test at the start of the calls of the struct state. */
    method ProbeStruct() returns (err: int)
      ensures err == 0 <==> InStruct()
      ensures Valid() ==> err == if InStruct() then 0 else -FDT_ERR_BADSTATE
      ensures magic == FDT_MAGIC || magic == FDT_SW_MAGIC ==> err == if InStruct() then 0 else -FDT_ERR_BADSTATE
      ensures magic == FDT_MAGIC ==> err == -FDT_ERR_BADSTATE
    {
      if magic == FDT_MAGIC {
        return -FDT_ERR_BADSTATE;
      } else if magic != FDT_SW_MAGIC {
        return -FDT_ERR_BADMAGIC;
      }
      if offStrings != totalsize {
        return -FDT_ERR_BADSTATE;
      }
      return 0;
    }

    /** `fdt_grab_space_`: reserves `len` bytes at the end of the structure block, if they fit below the strings. */
    method GrabSpace(len: nat) returns (ok: bool, offset: nat)
      requires Valid() && InStruct() && len % 4 == 0
      modifies this`sizeStruct
      ensures ok <==> offStruct + old(sizeStruct) + len + sizeStrings <= totalsize
      ensures ok ==> offset == old(sizeStruct) && sizeStruct == offset + len
      ensures ok ==> Building() && Written(buf[..], offStruct, offset, sizeStrings, rsv, tokens, events)
      ensures !ok ==> Valid() && sizeStruct == old(sizeStruct)
    {
      hide Written, Finished;
      WrittenBounds(buf[..], offStruct, sizeStruct, sizeStrings, rsv, tokens, events);
      offset := sizeStruct;
      var spaceleft := totalsize - offStruct - sizeStrings;
      if offset + len > spaceleft {
        return false, 0;
      }
      sizeStruct := offset + len;
      return true, offset;
    }

    /** The reserved bytes now hold token `t`, which says event `e`. */
    ghost method Said(s: bytes, offset: nat, n: nat, t: Token, e: Event)
      requires Building() && sizeStruct == offset + n && offStruct + sizeStruct + sizeStrings <= totalsize == |s|
      requires Written(s, offStruct, offset, sizeStrings, rsv, tokens, events)
      requires ChunkWritten(s, buf[..], offStruct + offset, n, t)
      requires Says(s[totalsize - sizeStrings..], t, e, true)
      modifies this`tokens, this`events
      ensures Valid() && events == old(events) + [e] && Names() == s[totalsize - sizeStrings..totalsize]
    {
      hide Written, Finished, ChunkWritten, Says;
      TailKept(s, buf[..], offStruct + offset, n, t, totalsize - sizeStrings, totalsize);
      AppendToken(s, buf[..], offStruct, offset, sizeStrings, rsv, tokens, events, n, t, e);
      tokens, events := tokens + [t], events + [e];
    }

    /** `fdt_add_reservemap_entry`. */
    method AddReservemapEntry(address: u64, size: u64) returns (err: int)
      requires Valid()
      modifies this`offStruct, this`rsv, buf
      ensures Valid() && events == old(events)
      ensures err == 0 ==> old(InMemrsv()) && InMemrsv() && rsv == old(rsv) + [ReserveEntry(address, size)]
      ensures err == 0 ==> offStruct == old(offStruct) + 16
      ensures err != 0 ==> rsv == old(rsv) && offStruct == old(offStruct) && buf[..] == old(buf[..])
      ensures err != 0 ==> err == if old(InMemrsv()) then -FDT_ERR_NOSPACE else -FDT_ERR_BADSTATE
      ensures err == 0 <==> old(InMemrsv()) && old(offStruct) + 16 <= totalsize
    {
      hide Splat, EncRsv, Decodes, SayAll, Enc64, Finished;
      if magic == FDT_MAGIC {
        return -FDT_ERR_BADSTATE;
      }
      if offStrings != 0 {
        return -FDT_ERR_BADSTATE;
      }
      if offStruct + 16 > totalsize {
        return -FDT_ERR_NOSPACE;
      }
      ghost var s := buf[..];
      var entry := Enc64(address) + Enc64(size);
      Memcpy(buf, offStruct, entry);
      RsvWritten(s, offStruct, rsv, address, size);
      offStruct := offStruct + 16;
      rsv := rsv + [ReserveEntry(address, size)];
      return 0;
    }

    /** `fdt_finish_reservemap`: ends the map with a zero entry and enters the struct state. */
    method FinishReservemap() returns (err: int)
      requires Valid()
      modifies this`offStruct, this`rsv, this`offStrings, buf
      ensures Valid() && events == old(events)
      ensures err != 0 ==> err == if old(InMemrsv()) then -FDT_ERR_NOSPACE else -FDT_ERR_BADSTATE
      ensures err == 0 <==> old(InMemrsv()) && old(offStruct) + 16 <= totalsize
      ensures err == 0 ==> InStruct() && rsv == old(rsv) + [ReserveEntry(0, 0)] && offStruct == old(offStruct) + 16
      ensures err != 0 ==> rsv == old(rsv) && offStruct == old(offStruct) && offStrings == old(offStrings)
    {
      hide Written, Finished, EncRsv;
      err := AddReservemapEntry(0, 0);
      if err != 0 {
        return;
      }
      offStrings := totalsize;
      return 0;
    }

    /** The tag and the name of a node. */
    method WriteBegin(p: nat, name: bytes)
      requires NoNul(name) && p + 4 + TagAlign(|name| + 1) <= buf.Length
      modifies buf
      ensures ChunkWritten(old(buf[..]), buf[..], p, 4 + TagAlign(|name| + 1), Token.BeginNode(name))
    {
      hide Splat, ChunkWritten, TagAlign, Enc32;
      ghost var s := buf[..];
      NameFits(name);
      Memcpy(buf, p, Enc32(FDT_BEGIN_NODE));
      Memcpy(buf, p + 4, name + [0]);
      BeginWritten(s, buf[..], p, 4 + TagAlign(|name| + 1), name);
    }

    /** `fdt_begin_node`. */
    method BeginNode(name: bytes) returns (err: int)
      requires Valid() && NoNul(name)
      modifies this`sizeStruct, this`tokens, this`events, buf
      ensures Valid()
      ensures err != 0 ==> err == if InStruct() then -FDT_ERR_NOSPACE else -FDT_ERR_BADSTATE
      ensures err == 0 <==>
        InStruct() && offStruct + old(sizeStruct) + 4 + TagAlign(|name| + 1) + sizeStrings <= totalsize
      ensures err == 0 ==> events == old(events) + [BeginE(name)]
      ensures err == 0 ==> sizeStruct == old(sizeStruct) + 4 + TagAlign(|name| + 1) && Names() == old(Names())
      ensures err != 0 ==> sizeStruct == old(sizeStruct) && events == old(events) && buf[..] == old(buf[..])
    {
      hide Valid, Written, ChunkWritten, TagAlign, NoNul;
      err := ProbeStruct();
      if err != 0 {
        return;
      }
      ghost var s := buf[..];
      var n := 4 + TagAlign(|name| + 1);
      AlignedFour(TagAlign(|name| + 1));
      var ok, offset := GrabSpace(n);
      if !ok {
        return -FDT_ERR_NOSPACE;
      }
      var p := offStruct + offset;
      WriteBegin(p, name);
      Said(s, offset, n, Token.BeginNode(name), BeginE(name));
      return 0;
    }

    /** `fdt_end_node`. */
    method EndNode() returns (err: int)
      requires Valid()
      modifies this`sizeStruct, this`tokens, this`events, buf
      ensures Valid()
      ensures err != 0 ==> err == if InStruct() then -FDT_ERR_NOSPACE else -FDT_ERR_BADSTATE
      ensures err == 0 <==> InStruct() && offStruct + old(sizeStruct) + 4 + sizeStrings <= totalsize
      ensures err == 0 ==> events == old(events) + [EndE]
      ensures err == 0 ==> sizeStruct == old(sizeStruct) + 4 && Names() == old(Names())
      ensures err != 0 ==> sizeStruct == old(sizeStruct) && events == old(events) && buf[..] == old(buf[..])
    {
      hide Valid, Written, Splat, ChunkWritten, Enc32;
      err := ProbeStruct();
      if err != 0 {
        return;
      }
      ghost var s := buf[..];
      var ok, offset := GrabSpace(4);
      if !ok {
        return -FDT_ERR_NOSPACE;
      }
      var p := offStruct + offset;
      Memcpy(buf, p, Enc32(FDT_END_NODE));
      TagWritten(s, p, Token.EndNode);
      Said(s, offset, 4, Token.EndNode, EndE);
      return 0;
    }

    /** A property of this name needs no new string. */
    ghost predicate Shares(name: bytes)
      reads this, buf
      requires sizeStrings <= totalsize <= buf.Length
    {
      lastComp % 2 == 0 && Shared(buf[totalsize - sizeStrings..totalsize], name)
    }

    /** The bytes a property of this name adds to the strings block. */
    ghost function NameCost(name: bytes): nat
      reads this, buf
      requires sizeStrings <= totalsize <= buf.Length
    {
      if Shares(name) then 0 else |name| + 1
    }

    /** `fdt_add_string_`: writes the name in front of the others and answers its offset, 0 if there is no room. The
        guard is what its room test leaves out. */
    method AddString(name: bytes) returns (nameoff: u32)
      requires Valid() && InStruct() && NoNul(name)
      requires sizeStrings + |name| + 1 <= totalsize
      modifies this`sizeStrings, buf
      ensures Valid() && Building() && Written(buf[..], offStruct, sizeStruct, sizeStrings, rsv, tokens, events)
      ensures nameoff != 0 <==> offStruct + sizeStruct + old(sizeStrings) + |name| + 1 <= totalsize
      ensures nameoff == 0 ==> buf[..] == old(buf[..]) && sizeStrings == old(sizeStrings)
      ensures nameoff != 0 ==>
        && sizeStrings == old(sizeStrings) + |name| + 1
        && buf[..] == Splat(old(buf[..]), buf.Length - sizeStrings, name + [0])
        && NameIndex(sizeStrings, nameoff, true) == 0 && StringAt(buf[buf.Length - sizeStrings..], 0) == Some(name)
        && Names() == name + [0] + old(Names())
    {
      hide Written, Splat, Finished, StringAt, NoRoom, NoNul, U32;
      ghost var s := buf[..];
      WrittenBounds(s, offStruct, sizeStruct, sizeStrings, rsv, tokens, events);
      var offset := sizeStrings + |name| + 1;
      WrapNegative(offset);
      RoomGuardExact(totalsize, offset, offStruct + sizeStruct);
      if NoRoom(totalsize, offset, offStruct + sizeStruct) {
        return 0;
      }
      AddName(s, offStruct, sizeStruct, sizeStrings, rsv, tokens, events, name);
      NameInGap(s, sizeStrings, name);
      assert Names() == s[|s| - sizeStrings..];
      Memcpy(buf, totalsize - offset, name + [0]);
      sizeStrings := offset;
      assert Names() == buf[..][|s| - offset..];
      nameoff := U32(-offset);
    }

    /** `fdt_find_add_string_`, or `fdt_add_string_` alone if deduplication is off: the name offset (0 if there is
        no room), and whether a string was added in front of the others. */
    method FindAddName(name: bytes) returns (nameoff: u32, added: bool)
      requires Valid() && InStruct() && NoNul(name)
      requires !Shares(name) ==> sizeStrings + |name| + 1 <= totalsize
      modifies this`sizeStrings, buf
      ensures Valid() && Building() && Written(buf[..], offStruct, sizeStruct, sizeStrings, rsv, tokens, events)
      ensures old(Written(buf[..], offStruct, sizeStruct, sizeStrings, rsv, tokens, events))
      ensures added == !old(Shares(name))
      ensures !added ==> nameoff != 0 && buf[..] == old(buf[..]) && sizeStrings == old(sizeStrings)
      ensures added && nameoff != 0 ==>
        && sizeStrings == old(sizeStrings) + |name| + 1
        && buf[..] == Splat(old(buf[..]), buf.Length - sizeStrings, name + [0])
      ensures nameoff == 0 ==> buf[..] == old(buf[..]) && sizeStrings == old(sizeStrings)
      ensures added ==> (nameoff != 0 <==> offStruct + sizeStruct + old(sizeStrings) + |name| + 1 <= totalsize)
      ensures nameoff != 0 ==>
        var k := NameIndex(sizeStrings, nameoff, true);
        k >= 0 && StringAt(buf[buf.Length - sizeStrings..], k) == Some(name)
      ensures nameoff != 0 ==>
        sizeStrings <= totalsize && Names() == if added then name + [0] + old(Names()) else old(Names())
    {
      hide Written, Splat, Finished, StringAt, Matches, Shared;
      ghost var s := buf[..];
      WrittenBounds(s, offStruct, sizeStruct, sizeStrings, rsv, tokens, events);
      var z := buf[totalsize - sizeStrings..totalsize];
      assert z == s[|s| - sizeStrings..];
      if lastComp % 2 == 0 {
        var found, p := FindString(z, name);
        if found {
          MatchesIsStringAt(z, p, name);
          MatchInside(z, p, name);
          return U32(p - sizeStrings), false;
        }
      }
      nameoff := AddString(name);
      return nameoff, true;
    }

    /** The tag, the length, the name offset and the value of a property. */
    method WriteProp(p: nat, nameoff: u32, value: bytes)
      requires |value| < INT_MAX && p + 12 + TagAlign(|value|) <= buf.Length
      modifies buf
      ensures ChunkWritten(old(buf[..]), buf[..], p, 12 + TagAlign(|value|), Prop(nameoff, value))
    {
      hide Splat, ChunkWritten, TagAlign, Enc32;
      ghost var s := buf[..];
      ValueFits(value);
      Memcpy(buf, p, Enc32(FDT_PROP) + Enc32(|value|) + Enc32(nameoff));
      Memcpy(buf, p + 12, value);
      PropWritten(s, buf[..], p, 12 + TagAlign(|value|), nameoff, value);
    }

    /** The second half of `fdt_property`: appends a property whose name is at `nameoff`, if it fits. */
    method AppendProp(nameoff: u32, name: bytes, value: bytes) returns (ok: bool)
      requires Valid() && InStruct() && |value| < INT_MAX
      requires var k := NameIndex(sizeStrings, nameoff, true);
        k >= 0 && StringAt(buf[buf.Length - sizeStrings..], k) == Some(name)
      modifies this`sizeStruct, this`tokens, this`events, buf
      ensures Valid()
      ensures ok <==> offStruct + old(sizeStruct) + 12 + TagAlign(|value|) + sizeStrings <= totalsize
      ensures ok ==> events == old(events) + [PropE(name, value)]
      ensures ok ==> sizeStruct == old(sizeStruct) + 12 + TagAlign(|value|) && Names() == old(Names())
      ensures !ok ==>
        sizeStruct == old(sizeStruct) && events == old(events) && tokens == old(tokens) && buf[..] == old(buf[..])
    {
      hide Valid, Written, StringAt, ChunkWritten, TagAlign, Says, NameIndex;
      ghost var s := buf[..];
      var n := 12 + TagAlign(|value|);
      AlignedFour(TagAlign(|value|));
      var offset;
      ok, offset := GrabSpace(n);
      if !ok {
        return;
      }
      var p := offStruct + offset;
      WriteProp(p, nameoff, value);
      SaysProp(s[|s| - sizeStrings..], nameoff, name, value);
      Said(s, offset, n, Prop(nameoff, value), PropE(name, value));
    }

    /** `fdt_del_last_string_`: takes back the name that was just added. */
    method DelLastString(name: bytes, ghost s: bytes)
      requires Building() && |s| == totalsize && |name| + 1 <= sizeStrings
      requires Written(s, offStruct, sizeStruct, sizeStrings - (|name| + 1), rsv, tokens, events)
      requires offStruct + sizeStruct + sizeStrings <= |s| && buf[..] == Splat(s, |s| - sizeStrings, name + [0])
      modifies this`sizeStrings
      ensures Valid() && sizeStrings == old(sizeStrings) - (|name| + 1)
    {
      hide Written, Splat, Finished;
      RollBack(s, offStruct, sizeStruct, sizeStrings - (|name| + 1), rsv, tokens, events, name);
      sizeStrings := sizeStrings - (|name| + 1);
    }

    /** `fdt_property`: the name is shared or added, then the property is appended; if there is no room for the
        property a name just added is taken back. It succeeds exactly when everything fits. */
    method Property(name: bytes, value: bytes) returns (err: int)
      requires Valid() && NoNul(name) && |value| < INT_MAX
      requires InStruct() && !Shares(name) ==> sizeStrings + |name| + 1 <= totalsize
      modifies this`sizeStruct, this`sizeStrings, this`tokens, this`events, buf
      ensures Valid()
      ensures err != 0 ==> err == if InStruct() then -FDT_ERR_NOSPACE else -FDT_ERR_BADSTATE
      ensures err == 0 <==>
        && InStruct()
        && offStruct + old(sizeStruct) + 12 + TagAlign(|value|) + old(sizeStrings + NameCost(name)) <= totalsize
      ensures err == 0 ==> events == old(events) + [PropE(name, value)]
      ensures err == 0 ==>
        && sizeStruct == old(sizeStruct) + 12 + TagAlign(|value|) && sizeStrings <= totalsize
        && Names() == if old(Shares(name)) then old(Names()) else name + [0] + old(Names())
      ensures err != 0 ==> sizeStruct == old(sizeStruct) && sizeStrings == old(sizeStrings) && events == old(events)
    {
      hide Valid, Written, Splat, StringAt, Shares, TagAlign, NameIndex, NoNul;
      err := ProbeStruct();
      if err != 0 {
        return;
      }
      ghost var s0 := buf[..];
      var nameoff, added := FindAddName(name);
      if nameoff == 0 {
        return -FDT_ERR_NOSPACE;
      }
      var ok := AppendProp(nameoff, name, value);
      if !ok {
        if added {
          DelLastString(name, s0);
        }
        return -FDT_ERR_NOSPACE;
      }
      return 0;
    }

    /** The walk of `fdt_finish` that turns the name offsets from negative ones, relative to the end of the
        strings block, into positive ones, relative to its start. */
    method Renumber(ghost z: bytes) returns (err: int)
      requires totalsize == buf.Length < INT_MAX && version == FDT_LAST_SUPPORTED_VERSION
      requires Relocated(buf[..], offStruct, sizeStruct, sizeStrings, rsv, z, tokens + [End])
      requires SayAll(z, tokens, events, true)
      modifies this`tokens, buf
      ensures err == 0
      ensures Relocated(buf[..], offStruct, sizeStruct, sizeStrings, rsv, z, tokens + [End])
      ensures SayAll(z, tokens, events, false)
    {
      hide Relocated, Decodes, SayAll, Enc32, Says, ReadTag, TokLen, Load32, Splat, Renumbered, U32, LenOf;
      ghost var ts, i := tokens, 0;
      ghost var cur := ts + [End];
      NeverEnds(z, ts, events);
      RelocatedBounds(buf[..], offStruct, sizeStruct, sizeStrings, rsv, z, cur);
      LenOfNone(cur);
      var offset := 0;
      var tag, next := NextTag(View(), offset);
      TokenRead(View(), cur, i, offset, tag, next, rsv, z);
      while tag != FDT_END
        invariant 0 <= i <= |ts| && |cur| == |ts| + 1 && cur[|ts|] == End
        invariant forall j :: 0 <= j < |ts| ==> cur[j] == if j < i then Renumbered(ts[j], sizeStrings) else ts[j]
        invariant Relocated(buf[..], offStruct, sizeStruct, sizeStrings, rsv, z, cur)
        invariant offset == LenOf(cur[..i])
        invariant tag == TagOf(cur[i]) && next == LenOf(cur[..i + 1]) <= sizeStruct
        decreases |ts| - i
      {
        if tag == FDT_PROP {
          ghost var x := U32(cur[i].nameoff + sizeStrings);
          PatchStep(buf[..], offStruct, sizeStruct, sizeStrings, rsv, z, cur, i, x);
          var nameoff := Load32(buf[..], offStruct + offset + 8);
          Memcpy(buf, offStruct + offset + 8, Enc32(U32(nameoff + sizeStrings)));
          LenPatched(cur, i, x);
        }
        RenumberedIs(cur[i], sizeStrings);
        assert cur == cur[i := cur[i]];
        cur := cur[i := Renumbered(cur[i], sizeStrings)];
        offset := next;
        i := i + 1;
        tag, next := NextTag(View(), offset);
        TokenRead(View(), cur, i, offset, tag, next, rsv, z);
      }
      tokens := cur[..|ts|];
      RenumberedAll(z, ts, cur[..|ts|], events);
      assert cur == cur[..|ts|] + [End];
      if next < 0 {
        return next;
      }
      return 0;
    }

    /** The first half of `fdt_finish`: the end tag, and the strings block moved down to it. */
    method CloseAndMove() returns (ok: bool, ghost z: bytes)
      requires Valid() && InStruct()
      modifies this`sizeStruct, this`offStrings, buf
      ensures ok <==> offStruct + old(sizeStruct) + 4 + sizeStrings <= totalsize
      ensures ok ==>
        && sizeStruct == old(sizeStruct) + 4 && offStrings == offStruct + sizeStruct
        && Relocated(buf[..], offStruct, sizeStruct, sizeStrings, rsv, z, tokens + [End])
        && SayAll(z, tokens, events, true)
      ensures !ok ==> sizeStruct == old(sizeStruct) && offStrings == old(offStrings) && buf[..] == old(buf[..])
    {
      hide Written, Splat, ChunkWritten, Relocated, Decodes, SayAll, Enc32, Finished;
      ghost var s := buf[..];
      var end;
      ok, end := GrabSpace(4);
      if !ok {
        return false, [];
      }
      Memcpy(buf, offStruct + end, Enc32(FDT_END));
      TagWritten(s, offStruct + end, End);
      var oldstroffset := totalsize - sizeStrings;
      var newstroffset := offStruct + sizeStruct;
      StringsMoved(s, buf[..], offStruct, end, sizeStrings, rsv, tokens, events);
      Memmove(buf, newstroffset, oldstroffset, sizeStrings);
      offStrings := newstroffset;
      z := s[|s| - sizeStrings..];
    }

    /** `fdt_finish`: closes the structure block, moves the strings block down to it, makes the name offsets
        positive, and turns the buffer into a complete blob that says exactly the calls made. */
    method Finish() returns (err: int)
      requires Valid()
      modifies this`sizeStruct, this`offStrings, this`totalsize, this`lastComp, this`magic, this`tokens, buf
      ensures Valid() && events == old(events) && rsv == old(rsv)
      ensures err != 0 ==> err == if old(InStruct()) then -FDT_ERR_NOSPACE else -FDT_ERR_BADSTATE
      ensures err == 0 <==> old(InStruct()) && offStruct + old(sizeStruct) + 4 + sizeStrings <= old(totalsize)
      ensures err == 0 ==> Complete() && totalsize == offStruct + old(sizeStruct) + 4 + sizeStrings
      ensures err != 0 ==>
        && sizeStruct == old(sizeStruct) && totalsize == old(totalsize) && offStrings == old(offStrings)
        && magic == old(magic) && buf[..] == old(buf[..])
    {
      hide Written, Relocated, Decodes, SayAll, EncRsv;
      err := ProbeStruct();
      if err != 0 {
        return;
      }
      var ok, z := CloseAndMove();
      if !ok {
        return -FDT_ERR_NOSPACE;
      }
      err := Renumber(z);
      if err != 0 {
        return;
      }
      RelocatedParts(buf[..], offStruct, sizeStruct, sizeStrings, rsv, z, tokens + [End]);
      totalsize := offStrings + sizeStrings;
      lastComp := FDT_LAST_COMPATIBLE_VERSION;
      magic := FDT_MAGIC;
    }
  }

  /** Closing the stream and moving the strings block down to it. */
  lemma StringsMoved(s: bytes, s1: bytes, offStruct: nat, end: nat, sizeStrings: nat, rsv: seq<ReserveEntry>,
      ts: seq<Token>, es: seq<Event>)
    requires Written(s, offStruct, end, sizeStrings, rsv, ts, es)
    requires ChunkWritten(s, s1, offStruct + end, 4, End) && offStruct + end + 4 + sizeStrings <= |s|
    ensures |s1| == |s|
    ensures SayAll(s[|s| - sizeStrings..], ts, es, true)
    ensures Relocated(Splat(s1, offStruct + end + 4, s1[|s| - sizeStrings..|s|]), offStruct, end + 4, sizeStrings, rsv,
                      s[|s| - sizeStrings..], ts + [End])
  {
    hide Decodes, SayAll, EncRsv, Splat, Encodes;
    var p, q := offStruct + end, |s| - sizeStrings;
    var s2 := Splat(s1, p + 4, s1[q..|s|]);
    SliceOfPrefix(s, s1, p, SW_HEADER, offStruct);
    SliceOfPrefix(s, s1, p, offStruct, p);
    SliceOfSuffix(s, s1, p + 4, q, |s|);
    DecodesOne(s1[p..p + 4], End);
    DecodesConcat(s1[offStruct..p], ts, s1[p..p + 4], [End]);
    assert s1[offStruct..p + 4] == s1[offStruct..p] + s1[p..p + 4];
    SplatSlice(s1, p + 4, s1[q..|s|], SW_HEADER, offStruct);
    SplatSlice(s1, p + 4, s1[q..|s|], offStruct, p + 4);
    assert s[q..|s|] == s[q..];
  }

  lemma RelocatedParts(s: bytes, offStruct: nat, sizeStruct: nat, sizeStrings: nat, rsv: seq<ReserveEntry>, z: bytes,
      cur: seq<Token>)
    requires Relocated(s, offStruct, sizeStruct, sizeStrings, rsv, z, cur)
    ensures SW_HEADER <= offStruct && offStruct + sizeStruct + sizeStrings <= |s|
    ensures s[SW_HEADER..offStruct] == EncRsv(rsv) && Decodes(s[offStruct..offStruct + sizeStruct], cur)
    ensures s[offStruct + sizeStruct..offStruct + sizeStruct + sizeStrings] == z
  {
  }

  /** While a blob is being written, the name of every property is where `fdt_get_string` looks for it. */
  lemma NamesReadBack(b: SwBuffer, i: nat)
    requires b.Valid() && b.InStruct() && i < |b.tokens| && b.tokens[i].Prop?
    ensures i < |b.events| && b.events[i].PropE? && b.sizeStrings <= b.totalsize == b.buf.Length
    ensures var k := NameIndex(b.sizeStrings, b.tokens[i].nameoff, true);
      && b.tokens[i].nameoff > INT_MAX && k >= 0
      && StringAt(b.buf[b.totalsize - b.sizeStrings..b.totalsize], k) == Some(b.events[i].name)
  {
    hide Decodes, EncRsv, StringAt;
    var z := b.buf[..][b.totalsize - b.sizeStrings..];
    assert z == b.buf[b.totalsize - b.sizeStrings..b.totalsize];
    assert Says(z, b.tokens[i], b.events[i], true);
  }

  /** `fdt_create_with_flags`: a buffer that is too small or an unknown flag is refused. */
  method CreateWithFlags(size: nat, flags: u32) returns (err: int, blob: SwBuffer?)
    requires size < INT_MAX
    ensures err != 0 ==> err == if size < SW_HEADER then -FDT_ERR_NOSPACE else -FDT_ERR_BADFLAGS
    ensures err == 0 <==> SW_HEADER <= size && flags <= NO_NAME_DEDUP
    ensures err == 0 <==> blob != null
    ensures blob != null ==>
      && blob.Valid() && fresh(blob) && fresh(blob.buf) && blob.InMemrsv() && blob.totalsize == size &&
        blob.lastComp == flags
      && blob.rsv == [] && blob.events == []
      && blob.offStruct == SW_HEADER && blob.sizeStruct == 0 && blob.sizeStrings == 0
  {
    if size < SW_HEADER {
      return -FDT_ERR_NOSPACE, null;
    }
    if flags / 2 != 0 {
      return -FDT_ERR_BADFLAGS, null;
    }
    var b := new SwBuffer(size, flags);
    return 0, b;
  }

  /** The blocks in their final place: the strings block `z` directly after the structure block `cur`. */
  predicate Relocated(s: bytes, offStruct: nat, sizeStruct: nat, sizeStrings: nat, rsv: seq<ReserveEntry>, z: bytes,
      cur: seq<Token>)
  {
    && SW_HEADER <= offStruct && offStruct + sizeStruct + sizeStrings <= |s|
    && s[SW_HEADER..offStruct] == EncRsv(rsv)
    && Decodes(s[offStruct..offStruct + sizeStruct], cur)
    && s[offStruct + sizeStruct..offStruct + sizeStruct + sizeStrings] == z
  }

  function Renumbered(t: Token, size: nat): Token {
    match t
    case Prop(off, value) => Prop(U32(off + size), value)
    case _ => t
  }

  lemma RenumberedIs(t: Token, size: nat)
    ensures Renumbered(t, size) == if t.Prop? then Prop(U32(t.nameoff + size), t.value) else t
  {
  }

  lemma RelocatedBounds(s: bytes, offStruct: nat, sizeStruct: nat, sizeStrings: nat, rsv: seq<ReserveEntry>, z: bytes,
      cur: seq<Token>)
    requires Relocated(s, offStruct, sizeStruct, sizeStrings, rsv, z, cur)
    ensures offStruct + sizeStruct + sizeStrings <= |s| && sizeStrings == |z|
  {
  }

  /** What `fdt_next_tag` reads at the offset of token `i`. */
  lemma TokenRead(b: Blob, cur: seq<Token>, i: nat, offset: int, tag: nat, next: int, rsv: seq<ReserveEntry>, z: bytes)
    requires b.totalsize == |b.data| < INT_MAX && b.version >= 17
    requires Relocated(b.data, b.offStruct, b.sizeStruct, b.sizeStrings, rsv, z, cur)
    requires Placed(b) && i < |cur| && offset == LenOf(cur[..i])
    requires match ReadTag(RestOf(b, offset))
      case Bad(e) => tag == FDT_END && next == -e
      case Tok(t, n) => tag == TagOf(t) && next == TagAlign(offset + RawLen(t))
    ensures tag == TagOf(cur[i]) && next == LenOf(cur[..i + 1]) <= b.sizeStruct
  {
    hide ReadTag, TokLen, RawLen, TagOf;
    var st := StructOf(b);
    TokenAtOffset(st, cur, i);
    LenAligned(cur[..i]);
    TokLenIsAligned(cur[i], offset);
  }

  /** Rewriting one name offset in place. */
  lemma PatchStep(s: bytes, offStruct: nat, sizeStruct: nat, sizeStrings: nat, rsv: seq<ReserveEntry>, z: bytes,
      cur: seq<Token>, i: nat, x: u32)
    requires Relocated(s, offStruct, sizeStruct, sizeStrings, rsv, z, cur) && i < |cur| && cur[i].Prop?
    ensures var p := offStruct + LenOf(cur[..i]) + 8;
      && p + 4 <= |s| && Load32(s, p) == cur[i].nameoff
      && Relocated(Splat(s, p, Enc32(x)), offStruct, sizeStruct, sizeStrings, rsv, z, cur[i := Prop(x, cur[i].value)])
  {
    hide Decodes, EncRsv, Load32, Enc32;
    var st := s[offStruct..offStruct + sizeStruct];
    var o := LenOf(cur[..i]) + 8;
    PatchName(st, cur, i, x);
    Load32Shift(s, offStruct, st, o);
    hide Splat;
    SplatInside(s, offStruct, sizeStruct, o, Enc32(x));
    SplatSlice(s, offStruct + o, Enc32(x), SW_HEADER, offStruct);
    SplatSlice(s, offStruct + o, Enc32(x), offStruct + sizeStruct, offStruct + sizeStruct + sizeStrings);
  }

  lemma SplatInside(s: bytes, from: nat, n: nat, o: nat, d: bytes)
    requires from + n <= |s| && o + |d| <= n
    ensures Splat(s, from + o, d)[from..from + n] == s[from..from + n][..o] + d + s[from..from + n][o + |d|..]
  {
    SplatIs(s, from + o, d);
    hide Splat;
    var l, w := Splat(s, from + o, d)[from..from + n], s[from..from + n];
    var r := w[..o] + d + w[o + |d|..];
    forall i | 0 <= i < n ensures l[i] == r[i] {
      assert l[i] == Splat(s, from + o, d)[from + i];
      assert i >= o + |d| ==> r[i] == w[o + |d|..][i - o - |d|] == w[i];
    }
  }

  lemma LenOfNone(cur: seq<Token>)
    ensures LenOf(cur[..0]) == 0
  {
  }

  lemma LenPatched(cur: seq<Token>, i: nat, x: u32)
    requires i < |cur| && cur[i].Prop?
    ensures var cur' := cur[i := Prop(x, cur[i].value)];
      LenOf(cur'[..i]) == LenOf(cur[..i]) && LenOf(cur'[..i + 1]) == LenOf(cur[..i + 1])
  {
    var cur' := cur[i := Prop(x, cur[i].value)];
    assert cur'[..i] == cur[..i];
    assert cur'[..i + 1] == cur[..i] + [cur'[i]] && cur[..i + 1] == cur[..i] + [cur[i]];
    LenOfConcat(cur[..i], [cur'[i]]);
    LenOfConcat(cur[..i], [cur[i]]);
    LenOfOne(cur[i]);
    LenOfOne(cur'[i]);
  }

  lemma NeverEnds(z: bytes, ts: seq<Token>, es: seq<Event>)
    requires SayAll(z, ts, es, true)
    ensures forall j :: 0 <= j < |ts| ==> !ts[j].End?
  {
    forall j | 0 <= j < |ts| ensures !ts[j].End? { assert Says(z, ts[j], es[j], true); }
  }

  /** Renumbered names are the same names. */
  lemma RenumberedAll(z: bytes, ts: seq<Token>, us: seq<Token>, es: seq<Event>)
    requires SayAll(z, ts, es, true) && |z| < TWO32 && |us| == |ts|
    requires forall j :: 0 <= j < |ts| ==> us[j] == Renumbered(ts[j], |z|)
    ensures SayAll(z, us, es, false)
  {
    forall j | 0 <= j < |us| ensures Says(z, us[j], es[j], false) {
      assert Says(z, ts[j], es[j], true);
      if ts[j].Prop? {
        WrapOnce(ts[j].nameoff + |z|);
      }
    }
  }

  lemma WrittenBounds(s: bytes, offStruct: nat, sizeStruct: nat, sizeStrings: nat, rsv: seq<ReserveEntry>,
      ts: seq<Token>, es: seq<Event>)
    requires Written(s, offStruct, sizeStruct, sizeStrings, rsv, ts, es)
    ensures offStruct + sizeStruct + sizeStrings <= |s|
  {
  }

  lemma MatchInside(z: bytes, p: nat, s: bytes)
    requires Matches(z, p, s)
    ensures p < |z|
  {
  }

  /** Forgetting the name that was added last restores what was written before. */
  lemma RollBack(s: bytes, offStruct: nat, sizeStruct: nat, sizeStrings: nat, rsv: seq<ReserveEntry>, ts: seq<Token>,
      es: seq<Event>, name: bytes)
    requires Written(s, offStruct, sizeStruct, sizeStrings, rsv, ts, es)
    requires offStruct + sizeStruct + sizeStrings + |name| + 1 <= |s|
    ensures Written(Splat(s, |s| - (sizeStrings + |name| + 1), name + [0]), offStruct, sizeStruct, sizeStrings, rsv,
      ts, es)
  {
    hide Decodes, SayAll, EncRsv, Splat;
    var pos := |s| - (sizeStrings + |name| + 1);
    NameInGap(s, sizeStrings, name);
    SplatSlice(s, pos, name + [0], 0, offStruct + sizeStruct);
    var s' := Splat(s, pos, name + [0]);
    assert s'[0..offStruct + sizeStruct] == s'[..offStruct + sizeStruct] &&
      s[0..offStruct + sizeStruct] == s[..offStruct + sizeStruct];
    GapDoesNotMatter(s, s', offStruct, sizeStruct, sizeStrings, rsv, ts, es);
  }

  lemma PropWritten(s: bytes, s': bytes, p: nat, n: nat, nameoff: u32, value: bytes)
    requires |value| < TWO32 && n == 12 + TagAlign(|value|) && p + n <= |s|
    requires s' == Splat(Splat(s, p, Enc32(FDT_PROP) + Enc32(|value|) + Enc32(nameoff)), p + 12, value)
    ensures ChunkWritten(s, s', p, n, Prop(nameoff, value))
  {
    hide Splat, Encodes;
    TwoWrites(s, p, Enc32(FDT_PROP) + Enc32(|value|) + Enc32(nameoff), value, n);
    EncodeProp(nameoff, value, s[p + 12 + |value|..p + n]);
  }

  lemma NameFits(name: bytes)
    ensures |name| + 1 <= TagAlign(|name| + 1)
  {
  }

  lemma ValueFits(value: bytes)
    ensures |value| <= TagAlign(|value|)
  {
  }

  lemma AlignedFour(n: nat)
    requires n % 4 == 0
    ensures (4 + n) % 4 == 0 && (12 + n) % 4 == 0
  {
  }

  /** Two writes one after the other, followed by bytes that are left alone. */
  lemma TwoWrites(s: bytes, p: nat, a: bytes, b: bytes, n: nat)
    requires |a| + |b| <= n && p + n <= |s|
    ensures var s' := Splat(Splat(s, p, a), p + |a|, b);
      && |s'| == |s| && s'[..p] == s[..p] && s'[p + n..] == s[p + n..]
      && s'[p..p + n] == a + b + s[p + |a| + |b|..p + n]
  {
    var s1 := Splat(s, p, a);
    var s' := Splat(s1, p + |a|, b);
    SplatIs(s, p, a);
    SplatIs(s1, p + |a|, b);
    assert forall i :: 0 <= i < |s| ==> s'[i] == if p <= i < p + |a| then a[i - p]
      else if p + |a| <= i < p + |a| + |b| then b[i - p - |a|] else s[i];
  }

  lemma SplatIs(s: bytes, p: nat, a: bytes)
    requires p + |a| <= |s|
    ensures forall i :: 0 <= i < |s| ==> Splat(s, p, a)[i] == if p <= i < p + |a| then a[i - p] else s[i]
  {
  }

  lemma TagWritten(s: bytes, p: nat, t: Token)
    requires p + 4 <= |s| && (t.EndNode? || t.End?)
    ensures ChunkWritten(s, Splat(s, p, Enc32(TagOf(t))), p, 4, t)
  {
    hide Splat, Encodes;
    var s' := Splat(s, p, Enc32(TagOf(t)));
    SplatSlice(s, p, Enc32(TagOf(t)), 0, p);
    SplatSlice(s, p, Enc32(TagOf(t)), p + 4, |s|);
    assert s'[0..p] == s'[..p] && s[0..p] == s[..p] && s'[p + 4..|s|] == s'[p + 4..] && s[p + 4..|s|] == s[p + 4..];
    EncodeTag(t);
  }

  lemma BeginWritten(s: bytes, s': bytes, p: nat, n: nat, name: bytes)
    requires NoNul(name) && n == 4 + TagAlign(|name| + 1) && p + n <= |s|
    requires s' == Splat(Splat(s, p, Enc32(FDT_BEGIN_NODE)), p + 4, name + [0])
    ensures ChunkWritten(s, s', p, n, BeginNode(name))
  {
    hide Splat, Encodes;
    TwoWrites(s, p, Enc32(FDT_BEGIN_NODE), name + [0], n);
    var pad := s[p + 4 + |name| + 1..p + n];
    EncodeBegin(name, pad);
    assert Enc32(FDT_BEGIN_NODE) + (name + [0]) + pad == Enc32(FDT_BEGIN_NODE) + name + [0] + pad;
  }

  lemma RsvWritten(s: bytes, off: nat, rsv: seq<ReserveEntry>, address: u64, size: u64)
    requires Written(s, off, 0, 0, rsv, [], []) && off + 16 <= |s|
    ensures Written(Splat(s, off, Enc64(address) + Enc64(size)), off + 16, 0, 0, rsv + [ReserveEntry(address, size)],
      [], [])
  {
    RsvAppended(s, off, rsv, address, size);
    var s' := Splat(s, off, Enc64(address) + Enc64(size));
    assert s'[off + 16..off + 16] == [] && s'[|s|..] == [];
  }

  lemma RsvAppended(s: bytes, off: nat, rsv: seq<ReserveEntry>, address: u64, size: u64)
    requires SW_HEADER <= off && off + 16 <= |s| && s[SW_HEADER..off] == EncRsv(rsv)
    ensures Splat(s, off, Enc64(address) + Enc64(size))[SW_HEADER..off + 16]
      == EncRsv(rsv + [ReserveEntry(address, size)])
  {
    var e := ReserveEntry(address, size);
    var r := rsv + [e];
    assert r[..|r| - 1] == rsv && r[|r| - 1] == e;
    var d := Enc64(address) + Enc64(size);
    var s' := Splat(s, off, d);
    assert s'[SW_HEADER..off + 16] == s[SW_HEADER..off] + d;
  }
}
