/** Moving blobs about in memory: resizing a blob under construction, packing, and opening into a larger buffer. */
module FdtRelocate {
  import opened Words
  import opened FdtTokens
  import opened FdtMemory
  import opened FdtEvents
  import opened FdtBlob
  import opened FdtCheck
  import opened FdtRead
  import opened FdtSplice
  import opened FdtRw
  import Sw = FdtSw

  // ---------- fdt_resize ----------

  /** What `memmove` does to a memory. */
  function Moved(s: bytes, dst: nat, src: nat, n: nat): (r: bytes)
    requires dst + n <= |s| && src + n <= |s|
    ensures |r| == |s|
  {
    Splat(s, dst, s[src..src + n])
  }

  lemma MovedSlice(s: bytes, dst: nat, src: nat, n: nat, from: nat, to: nat)
    requires dst + n <= |s| && src + n <= |s| && from <= to <= |s|
    ensures Moved(s, dst, src, n)[dst..dst + n] == s[src..src + n]
    ensures to <= dst || dst + n <= from ==> Moved(s, dst, src, n)[from..to] == s[from..to]
  {
    hide Splat;
    SplatSlice(s, dst, s[src..src + n], from, to);
  }

  /** Two moves, the second of which neither reads nor writes what the first one wrote. */
  lemma MovedTwice(s: bytes, dst: nat, src: nat, n: nat, dst2: nat, src2: nat, n2: nat)
    requires dst + n <= |s| && src + n <= |s| && dst2 + n2 <= |s| && src2 + n2 <= |s|
    requires src2 + n2 <= dst || dst + n <= src2
    requires dst2 + n2 <= dst || dst + n <= dst2
    ensures var r := Moved(Moved(s, dst, src, n), dst2, src2, n2);
      r[dst..dst + n] == s[src..src + n] && r[dst2..dst2 + n2] == s[src2..src2 + n2]
  {
    hide Moved;
    var s1 := Moved(s, dst, src, n);
    MovedSlice(s, dst, src, n, src2, src2 + n2);
    MovedSlice(s1, dst2, src2, n2, dst, dst + n);
  }

  /** The two moves of `fdt_resize`, in the order that the positions of the buffers require. */
  method MoveHeadAndTail(mem: array<byte>, a: nat, totalsize: nat, b: nat, bufsize: nat, headsize: nat, tailsize: nat)
    requires a + totalsize <= mem.Length && b + bufsize <= mem.Length
    requires headsize + tailsize <= totalsize && headsize + tailsize <= bufsize
    modifies mem
    ensures mem[..][b..b + headsize] == old(mem[..])[a..a + headsize]
    ensures mem[..][b + bufsize - tailsize..b + bufsize] == old(mem[..])[a + totalsize - tailsize..a + totalsize]
  {
    hide Splat, Moved;
    ghost var s := mem[..];
    var oldtail, newtail := a + totalsize - tailsize, b + bufsize - tailsize;
    if b <= a {
      MoveOne(mem, b, a, headsize);
      MoveOne(mem, newtail, oldtail, tailsize);
      MovedTwice(s, b, a, headsize, newtail, oldtail, tailsize);
    } else {
      MoveOne(mem, newtail, oldtail, tailsize);
      MoveOne(mem, b, a, headsize);
      MovedTwice(s, newtail, oldtail, tailsize, b, a, headsize);
    }
  }

  method MoveOne(mem: array<byte>, dst: nat, src: nat, n: nat)
    requires dst + n <= mem.Length && src + n <= mem.Length
    modifies mem
    ensures mem[..] == Moved(old(mem[..]), dst, src, n)
  {
    hide Splat;
    Memmove(mem, dst, src, n);
  }

  /** `fdt_resize` of a blob under construction: the blob of `totalsize` bytes at address `a` is moved to the buffer of
      `bufsize` bytes at address `b` of the same memory. The two may overlap in any way. It stays in the state it was
      in: answers the new total size and the new offset of the strings block, which is 0 or the total size. The other
      header fields are as before. */
  method Resize(mem: array<byte>, a: nat, totalsize: nat, b: nat, bufsize: nat, offStruct: nat, sizeStruct: nat,
      sizeStrings: nat, offStrings: nat, ghost rsv: seq<Sw.ReserveEntry>, ghost ts: seq<Token>, ghost es: seq<Event>)
    returns (err: int, totalsize': nat, offStrings': nat)
    requires a + totalsize <= mem.Length && b + bufsize <= mem.Length && totalsize < INT_MAX && bufsize < INT_MAX
    requires Sw.Written(mem[a..a + totalsize], offStruct, sizeStruct, sizeStrings, rsv, ts, es)
    modifies mem
    ensures err == if offStruct + sizeStruct + sizeStrings > bufsize then -FDT_ERR_NOSPACE else 0
    ensures err == 0 ==> Sw.Written(mem[b..b + bufsize], offStruct, sizeStruct, sizeStrings, rsv, ts, es)
    ensures err == 0 ==> totalsize' == bufsize && offStrings' == if offStrings == 0 then 0 else bufsize
    ensures err != 0 ==> mem[..] == old(mem[..]) && totalsize' == totalsize && offStrings' == offStrings
  {
    hide Splat, Sw.Written;
    totalsize', offStrings' := totalsize, offStrings;
    var headsize, tailsize := offStruct + sizeStruct, sizeStrings;
    ghost var s := mem[..];
    assert mem[a..a + totalsize] == s[a..a + totalsize];
    WrittenFits(s[a..a + totalsize], offStruct, sizeStruct, sizeStrings, rsv, ts, es);
    if headsize + tailsize > bufsize {
      return -FDT_ERR_NOSPACE, totalsize, offStrings;
    }
    MoveHeadAndTail(mem, a, totalsize, b, bufsize, headsize, tailsize);
    Resettled(s, a, totalsize, mem[..], b, bufsize, offStruct, sizeStruct, sizeStrings, rsv, ts, es);
    assert mem[b..b + bufsize] == mem[..][b..b + bufsize];
    totalsize' := bufsize;
    if offStrings' != 0 {
      offStrings' := bufsize;
    }
    err := 0;
  }

  lemma WrittenFits(s: bytes, offStruct: nat, sizeStruct: nat, sizeStrings: nat, rsv: seq<Sw.ReserveEntry>,
      ts: seq<Token>, es: seq<Event>)
    requires Sw.Written(s, offStruct, sizeStruct, sizeStrings, rsv, ts, es)
    ensures offStruct + sizeStruct + sizeStrings <= |s|
  {
  }

  /** Head and tail in their new places say what they said before. */
  lemma Resettled(s: bytes, a: nat, totalsize: nat, s': bytes, b: nat, bufsize: nat, offStruct: nat, sizeStruct: nat,
      sizeStrings: nat, rsv: seq<Sw.ReserveEntry>, ts: seq<Token>, es: seq<Event>)
    requires a + totalsize <= |s| && b + bufsize <= |s'| && offStruct + sizeStruct + sizeStrings <= bufsize
    requires Sw.Written(s[a..a + totalsize], offStruct, sizeStruct, sizeStrings, rsv, ts, es)
    requires s'[b..b + offStruct + sizeStruct] == s[a..a + offStruct + sizeStruct]
    requires s'[b + bufsize - sizeStrings..b + bufsize] == s[a + totalsize - sizeStrings..a + totalsize]
    ensures Sw.Written(s'[b..b + bufsize], offStruct, sizeStruct, sizeStrings, rsv, ts, es)
  {
    hide Decodes, SayAll, Sw.EncRsv;
    var n := offStruct + sizeStruct;
    var old_, new_ := s[a..a + totalsize], s'[b..b + bufsize];
    SliceOfSlice(s, a, a + totalsize, 0, n);
    SliceOfSlice(s', b, b + bufsize, 0, n);
    SliceOfSlice(s, a, a + totalsize, totalsize - sizeStrings, totalsize);
    SliceOfSlice(s', b, b + bufsize, bufsize - sizeStrings, bufsize);
    assert old_[0..n] == old_[..n] && new_[0..n] == new_[..n];
    SliceOfPrefix(old_, new_, n, Sw.SW_HEADER, offStruct);
    SliceOfPrefix(old_, new_, n, offStruct, n);
    assert old_[|old_| - sizeStrings..] == old_[totalsize - sizeStrings..totalsize];
    assert new_[|new_| - sizeStrings..] == new_[bufsize - sizeStrings..bufsize];
  }

  // ---------- fdt_packblocks_ ----------

  predicate Apart(p: nat, n: nat, q: nat, m: nat) {
    p + n <= q || q + m <= p
  }

  /** The bytes of the reservation map, `size` bytes of it. */
  function RsvBytes(b: Blob, size: nat): bytes
    requires b.offRsv + size <= |b.data|
  {
    b.data[b.offRsv..b.offRsv + size]
  }

  /** Packed blocks: the map right behind the header, then the structure block, then the strings. */
  predicate Packed(b: Blob, rsvSize: nat) {
    && b.offRsv == FDT_V17_SIZE && b.offStruct == FDT_V17_SIZE + rsvSize
    && b.offStrings == b.offStruct + b.sizeStruct
  }

  /** The three moves of `fdt_packblocks_`: the blocks at `r`, `u` and `v`, of sizes `nr`, `nu` and `nv`, one after the
      other to `p`. */
  method PackBlocks(mem: array<byte>, r: nat, nr: nat, u: nat, nu: nat, v: nat, nv: nat, p: nat)
    requires r + nr <= mem.Length && u + nu <= mem.Length && v + nv <= mem.Length && p + nr + nu + nv <= mem.Length
    modifies mem
    ensures mem[..] == PackMoves(old(mem[..]), r, nr, u, nu, v, nv, p)
  {
    hide Splat, Moved;
    MoveOne(mem, p, r, nr);
    MoveOne(mem, p + nr, u, nu);
    MoveOne(mem, p + nr + nu, v, nv);
  }

  function PackMoves(s: bytes, r: nat, nr: nat, u: nat, nu: nat, v: nat, nv: nat, p: nat): (s': bytes)
    requires r + nr <= |s| && u + nu <= |s| && v + nv <= |s| && p + nr + nu + nv <= |s|
    ensures |s'| == |s|
  {
    Moved(Moved(Moved(s, p, r, nr), p + nr, u, nu), p + nr + nu, v, nv)
  }

  /** Every block arrives whole when no move overwrites a block that is still to be moved. */
  lemma PackedBlocks(s: bytes, r: nat, nr: nat, u: nat, nu: nat, v: nat, nv: nat, p: nat)
    requires r + nr <= |s| && u + nu <= |s| && v + nv <= |s| && p + nr + nu + nv <= |s|
    requires Apart(u, nu, p, nr) && Apart(v, nv, p, nr) && Apart(v, nv, p + nr, nu)
    ensures var s' := PackMoves(s, r, nr, u, nu, v, nv, p);
      && s'[p..p + nr] == s[r..r + nr] && s'[p + nr..p + nr + nu] == s[u..u + nu]
      && s'[p + nr + nu..p + nr + nu + nv] == s[v..v + nv]
  {
    hide Moved;
    MovedThrice(s, p, r, nr, p + nr, u, nu, p + nr + nu, v, nv);
  }

  lemma MovedThrice(s: bytes, d1: nat, s1: nat, n1: nat, d2: nat, s2: nat, n2: nat, d3: nat, s3: nat, n3: nat)
    requires d1 + n1 <= |s| && s1 + n1 <= |s| && d2 + n2 <= |s| && s2 + n2 <= |s| && d3 + n3 <= |s| && s3 + n3 <= |s|
    requires Apart(s2, n2, d1, n1) && Apart(s3, n3, d1, n1) && Apart(s3, n3, d2, n2)
    requires Apart(d1, n1, d2, n2) && Apart(d1, n1, d3, n3) && Apart(d2, n2, d3, n3)
    ensures var r := Moved(Moved(Moved(s, d1, s1, n1), d2, s2, n2), d3, s3, n3);
      r[d1..d1 + n1] == s[s1..s1 + n1] && r[d2..d2 + n2] == s[s2..s2 + n2] && r[d3..d3 + n3] == s[s3..s3 + n3]
  {
    hide Moved;
    var x := Moved(s, d1, s1, n1);
    var y := Moved(x, d2, s2, n2);
    MovedTwice(s, d1, s1, n1, d2, s2, n2);
    MovedSlice(y, d3, s3, n3, d1, d1 + n1);
    MovedSlice(y, d3, s3, n3, d2, d2 + n2);
    MovedSlice(x, d2, s2, n2, s3, s3 + n3);
    MovedSlice(s, d1, s1, n1, s3, s3 + n3);
  }

  /** Moves that leave every block where it is change nothing. */
  lemma PackedAlready(s: bytes, b: Blob, rsvSize: nat)
    requires Packed(b, rsvSize) && b.offStrings + b.sizeStrings <= |s|
    ensures PackMoves(s, b.offRsv, rsvSize, b.offStruct, b.sizeStruct, b.offStrings, b.sizeStrings, FDT_V17_SIZE) == s
  {
    hide Moved;
    MovedNowhere(s, FDT_V17_SIZE, rsvSize);
    MovedNowhere(s, b.offStruct, b.sizeStruct);
    MovedNowhere(s, b.offStrings, b.sizeStrings);
  }

  lemma MovedNowhere(s: bytes, p: nat, n: nat)
    requires p + n <= |s|
    ensures Moved(s, p, p, n) == s
  {
  }

  /** The structure block, the strings and the closed reservation map of one blob are those of the other. */
  ghost predicate SameBlocks(b: Blob, b': Blob, rsvSize: nat) {
    && Placed(b) && StringsPlaced(b) && b.offRsv + rsvSize <= |b.data|
    && Placed(b') && StringsPlaced(b') && b'.offRsv + rsvSize <= |b'.data|
    && StructOf(b') == StructOf(b) && StringsOf(b') == StringsOf(b) && RsvBytes(b', rsvSize) == RsvBytes(b, rsvSize)
  }

  lemma StreamsMoved(b: Blob, b': Blob, ts: seq<Token>)
    requires Streams(b, ts) && Placed(b') && b'.offStruct >= FDT_V17_SIZE && StructOf(b') == StructOf(b)
    ensures Streams(b', ts)
  {
    hide Streams, StructOf, LenOf, Decodes;
    StreamsParts(b, ts);
    StreamsWhole(b', ts);
  }

  /** The entries of the map, read at its new place. */
  lemma {:induction false} RsvMoved(b: Blob, b': Blob, n: nat, k: nat)
    requires Placed(b) && Placed(b') && RsvEnd(b, n) == Some(k)
    requires b.offRsv + 16 * (k + 1) <= b.totalsize && b'.offRsv + 16 * (k + 1) <= b'.totalsize
    requires RsvBytes(b', 16 * (k + 1)) == RsvBytes(b, 16 * (k + 1)) && n <= k
    ensures RsvEnd(b', n) == Some(k)
    decreases k - n
  {
    hide Load32, RsvEnd;
    RsvStep(b, n);
    RsvStep(b', n);
    RsvLoad(b, b', 16 * (k + 1), 16 * n + 8);
    RsvLoad(b, b', 16 * (k + 1), 16 * n + 12);
    if n < k {
      RsvMoved(b, b', n + 1, k);
    } else if RsvEnd(b, n + 1).Some? {
      RsvInside(b, n + 1);
    }
  }

  lemma RsvStep(b: Blob, n: nat)
    requires Placed(b)
    ensures RsvEnd(b, n) ==
      if b.offRsv + 16 * n + 16 > b.totalsize then None
      else if Load32(b.data, b.offRsv + 16 * n + 8) == 0 && Load32(b.data, b.offRsv + 16 * n + 12) == 0 then Some(n)
      else RsvEnd(b, n + 1)
  {
  }

  lemma RsvLoad(b: Blob, b': Blob, size: nat, x: nat)
    requires b.offRsv + size <= |b.data| && b'.offRsv + size <= |b'.data| && RsvBytes(b', size) == RsvBytes(b, size) &&
      x + 4 <= size
    ensures Load32(b'.data, b'.offRsv + x) == Load32(b.data, b.offRsv + x)
  {
    hide Load32;
    Load32Shift(b.data, b.offRsv, RsvBytes(b, size), x);
    Load32Shift(b'.data, b'.offRsv, RsvBytes(b', size), x);
  }

  /** The map is closed by its last entry, inside the blob. */
  lemma {:induction false} RsvInside(b: Blob, n: nat)
    requires Placed(b) && RsvEnd(b, n).Some?
    ensures n <= RsvEnd(b, n).value && b.offRsv + 16 * (RsvEnd(b, n).value + 1) <= b.totalsize
    decreases b.totalsize - (b.offRsv + 16 * n)
  {
    hide Load32, RsvEnd;
    RsvStep(b, n);
    if RsvEnd(b, n).value != n { RsvInside(b, n + 1); }
  }

  // ---------- fdt_pack ----------

  /** The size of the closed reservation map. */
  ghost function RsvSize(b: Blob): nat
    requires Placed(b)
  {
    match RsvEnd(b, 0) case Some(k) => 16 * (k + 1) case None => 0
  }

  /** `fdt_pack`, in place. The reservation map must be closed before the structure block begins: the layout test only
      makes room for one entry. */
  method Pack(d: RwBlob) returns (err: int)
    requires d.Valid() && RsvEnd(d.View(), 0).Some? && d.offRsv + RsvSize(d.View()) <= d.offStruct
    modifies d`version, d`offRsv, d`offStruct, d`offStrings, d`totalsize, d.buf
    ensures d.Valid() && d.tokens == old(d.tokens)
    ensures err == if Ordered(old(d.View())) then 0 else -FDT_ERR_BADLAYOUT
    ensures err == 0 ==>
      var size := RsvSize(old(d.View()));
      && SameBlocks(old(d.View()), d.View(), size) && RsvEnd(d.View(), 0) == RsvEnd(old(d.View()), 0)
      && Packed(d.View(), size) && d.totalsize == d.offStrings + d.sizeStrings
      && d.offRsv == FDT_V17_SIZE && d.offStruct == d.offRsv + size && d.offStrings == d.offStruct + d.sizeStruct
      && (Packed(old(d.View()), size) && old(d.totalsize) == d.totalsize ==> d.View() == old(d.View()).(version := 17))
    ensures err != 0 ==> d.View() == old(d.View())
  {
    hide Streams, CheckHeader, Good, StructOf, StringsOf, RsvEnd, Ordered, PackMoves;
    ghost var b0, ts := d.View(), d.tokens;
    DataFits(b0, ts);
    err := d.Probe();
    if err != 0 {
      return;
    }
    ghost var b := d.View();
    VersionOnly(b0, b, ts);
    DataFits(b, ts);
    OrderedBounds(b);
    var n := NumMemRsv(d.View());
    var memRsvSize := (n + 1) * 16;
    PackBlocks(d.buf, d.offRsv, memRsvSize, d.offStruct, d.sizeStruct, d.offStrings, d.sizeStrings, FDT_V17_SIZE);
    if Packed(b, memRsvSize) { PackedAlready(b.data, b, memRsvSize); }
    d.offRsv, d.offStruct := FDT_V17_SIZE, FDT_V17_SIZE + memRsvSize;
    d.offStrings := d.offStruct + d.sizeStruct;
    d.totalsize := d.offStrings + d.sizeStrings;
    PackGood(b, d.View(), ts, memRsvSize);
  }

  lemma VersionOnly(b: Blob, b': Blob, ts: seq<Token>)
    requires Good(b, ts) && b' == b.(version := b'.version) && b'.version >= 17
    ensures Placed(b) && Placed(b') && StringsPlaced(b) && StringsPlaced(b')
    ensures StructOf(b') == StructOf(b) && StringsOf(b') == StringsOf(b) && RsvEnd(b', 0) == RsvEnd(b, 0)
  {
    hide Streams, CheckHeader, RsvEnd, Load32;
    DataFits(b, ts);
    if RsvEnd(b, 0).Some? {
      RsvInside(b, 0);
      RsvMoved(b, b', 0, RsvEnd(b, 0).value);
    } else if RsvEnd(b', 0).Some? {
      RsvInside(b', 0);
      RsvMoved(b', b, 0, RsvEnd(b', 0).value);
    }
  }

  lemma OrderedBounds(b: Blob)
    requires Ordered(b)
    ensures FDT_V17_SIZE <= b.offRsv <= b.offStruct && b.offStruct + b.sizeStruct <= b.offStrings
  {
  }

  /** The blob after its blocks have been packed. */
  lemma PackGood(b: Blob, b': Blob, ts: seq<Token>, size: nat)
    requires Good(b, ts) && Ordered(b) && RsvEnd(b, 0).Some? && size == RsvSize(b) && b.offRsv + size <= b.offStruct
    requires b.version == b'.version && b'.magic == b.magic && b'.lastComp == b.lastComp
    requires b'.sizeStruct == b.sizeStruct && b'.sizeStrings == b.sizeStrings && Packed(b', size)
    requires b'.totalsize == b'.offStrings + b'.sizeStrings && |b'.data| == |b.data| && b'.totalsize <= |b.data|
    requires b.offStrings + b.sizeStrings <= |b.data|
    requires b'.data
      == PackMoves(b.data, b.offRsv, size, b.offStruct, b.sizeStruct, b.offStrings, b.sizeStrings, FDT_V17_SIZE)
    ensures Good(b', ts) && SameBlocks(b, b', size) && RsvEnd(b', 0) == RsvEnd(b, 0)
  {
    hide Streams, CheckHeader, RsvEnd, PackMoves, Good, SameBlocks;
    HeaderOf(b, ts);
    PackedBlocks(b.data, b.offRsv, size, b.offStruct, b.sizeStruct, b.offStrings, b.sizeStrings, FDT_V17_SIZE);
    BlocksFinal(b, b', ts, size);
  }

  lemma HeaderOf(b: Blob, ts: seq<Token>)
    requires Good(b, ts)
    ensures b.magic == FDT_MAGIC && b.version >= 17 && b.lastComp <= 17 && b.offRsv % 8 == 0 && b.offStruct % 4 == 0
    ensures Placed(b) && StringsPlaced(b) && b.totalsize <= |b.data| < INT_MAX
    ensures RsvEnd(b, 0).Some? ==> RsvSize(b) % 16 == 0 && b.offRsv + RsvSize(b) <= b.totalsize
  {
    hide Streams, CheckHeader, RsvEnd;
    DataFits(b, ts);
    HeaderParts(b);
    if RsvEnd(b, 0).Some? { RsvInside(b, 0); }
  }

  /** The same blocks in other places, in order, under a good header, are the same blob. */
  lemma BlocksFinal(f: Blob, g: Blob, ts: seq<Token>, size: nat)
    requires Good(f, ts) && RsvEnd(f, 0).Some? && size == RsvSize(f) && f.offRsv + size <= f.totalsize
    requires g.magic == FDT_MAGIC && g.version >= 17 && g.lastComp <= 17 && g.offRsv % 8 == 0 && g.offStruct % 4 == 0
    requires InOrder(g, size) && g.offStrings + g.sizeStrings <= g.totalsize <= |g.data| < INT_MAX
    requires g.sizeStruct == f.sizeStruct && g.sizeStrings == f.sizeStrings
    requires f.offStruct + f.sizeStruct <= |f.data| && f.offStrings + f.sizeStrings <= |f.data|
    requires g.data[g.offRsv..g.offRsv + size] == f.data[f.offRsv..f.offRsv + size]
    requires g.data[g.offStruct..g.offStruct + g.sizeStruct] == f.data[f.offStruct..f.offStruct + f.sizeStruct]
    requires g.data[g.offStrings..g.offStrings + g.sizeStrings] == f.data[f.offStrings..f.offStrings + f.sizeStrings]
    ensures Good(g, ts) && Ordered(g) && SameBlocks(f, g, size) && RsvEnd(g, 0) == RsvEnd(f, 0)
  {
    hide Streams, CheckHeader, RsvEnd;
    DataFits(f, ts);
    HeaderGood(g);
    SameGood(f, g, ts, size);
  }

  /** The blocks in order, for a map of `size` bytes. */
  predicate InOrder(b: Blob, size: nat) {
    FDT_V17_SIZE <= b.offRsv && b.offRsv + size <= b.offStruct && b.offStruct + b.sizeStruct <= b.offStrings
  }

  /** The same blocks in other places are the same blob. */
  lemma SameGood(b: Blob, b': Blob, ts: seq<Token>, size: nat)
    requires Good(b, ts) && RsvEnd(b, 0).Some? && size == RsvSize(b)
    requires b'.version >= 17 && b'.totalsize <= |b'.data| < INT_MAX && CheckHeader(b') == 0
    requires b'.offStruct >= FDT_V17_SIZE && b'.offRsv + size <= b'.totalsize
    requires SameBlocks(b, b', size)
    ensures Good(b', ts) && RsvEnd(b', 0) == RsvEnd(b, 0)
  {
    hide Streams, CheckHeader, RsvEnd, StructOf, StringsOf;
    StreamsMoved(b, b', ts);
    RsvInside(b, 0);
    RsvMoved(b, b', 0, RsvEnd(b, 0).value);
  }

  // ---------- fdt_open_into ----------

  lemma InOrderExact(b: Blob, size: nat)
    requires b.version >= 17 && b.totalsize <= |b.data| < INT_MAX && CheckHeader(b) == 0 &&
      b.offRsv + size <= b.totalsize
    ensures Misordered(b, size) <==> !InOrder(b, size)
  {
    HeaderPlaces(b);
    WrapOnce(b.offRsv + size);
    WrapOnce(b.offStruct + b.sizeStruct);
    WrapOnce(b.offStrings + b.sizeStrings);
  }

  /** The size of the blob with its blocks packed. */
  ghost function PackedSize(b: Blob): nat
    requires Placed(b)
  {
    FDT_V17_SIZE + RsvSize(b) + b.sizeStruct + b.sizeStrings
  }

  /** `fdt_open_into`: opens the blob at address `a` into the buffer of `bufsize` bytes at address `b` of the same
      memory, wherever the two lie. Blocks that are out of order are packed on the way, at the start of the buffer, or
      behind the old blob when the buffer overlaps it. */
  method OpenInto(mem: array<byte>, a: nat, f: Blob, b: nat, bufsize: nat, ghost ts: seq<Token>)
    returns (err: int, g: Blob)
    requires Good(f, ts) && RsvEnd(f, 0).Some? && |f.data| == f.totalsize
    requires a + f.totalsize <= mem.Length && mem[..][a..a + f.totalsize] == f.data
    requires b + bufsize <= mem.Length && bufsize < INT_MAX
    modifies mem
    ensures var mapSize := 16 * RsvEnd(f, 0).value + 16;
      var inOrder := FDT_V17_SIZE <= f.offRsv && f.offRsv + mapSize <= f.offStruct &&
        f.offStruct + f.sizeStruct <= f.offStrings;
      var packed := FDT_V17_SIZE + mapSize + f.sizeStruct + f.sizeStrings;
      err == 0 <==>
        if inOrder then f.totalsize <= bufsize
        else packed <= bufsize && (b + packed <= a || a + f.totalsize <= b || a + f.totalsize + packed <= b + bufsize)
    ensures err == 0 ==>
      && g.data == mem[..][b..b + bufsize] && g.totalsize == bufsize && g.version == 17
      && Good(g, ts) && Ordered(g) && SameBlocks(f, g, RsvSize(f)) && RsvEnd(g, 0) == RsvEnd(f, 0)
    ensures err != 0 ==> err == -FDT_ERR_NOSPACE && mem[..] == old(mem[..])
  {
    hide Streams, CheckHeader, Good, RsvEnd, Misordered, Splat, SameBlocks, Ordered;
    g := f;
    ghost var s := mem[..];
    DataFits(f, ts);
    RsvInside(f, 0);
    RsvOffset(f);
    GoodOrder(f, ts, RsvSize(f));
    var n := NumMemRsv(f);
    var memRsvSize := (n + 1) * 16;
    if !Misordered(f, memRsvSize) {
      if f.totalsize > bufsize {
        return -FDT_ERR_NOSPACE, g;
      }
      MoveOne(mem, b, a, f.totalsize);
      MovedSlice(s, b, a, f.totalsize, 0, 0);
      g := f.(data := mem[b..b + bufsize], totalsize := bufsize, version := 17);
      CopiedGood(f, mem[..], b, bufsize, g, ts, memRsvSize);
      return 0, g;
    }
    err, g := OpenReordered(mem, a, f, b, bufsize, memRsvSize, ts);
  }

  /** The part of `fdt_open_into` that reorders. */
  method OpenReordered(mem: array<byte>, a: nat, f: Blob, b: nat, bufsize: nat, memRsvSize: nat, ghost ts: seq<Token>)
    returns (err: int, g: Blob)
    requires Good(f, ts) && RsvEnd(f, 0).Some? && |f.data| == f.totalsize && memRsvSize == RsvSize(f)
    requires a + f.totalsize <= mem.Length && mem[..][a..a + f.totalsize] == f.data
    requires b + bufsize <= mem.Length && bufsize < INT_MAX
    modifies mem
    ensures err == 0 <==>
      PackedSize(f) <= bufsize &&
        (Apart(b, PackedSize(f), a, f.totalsize) || a + f.totalsize + PackedSize(f) <= b + bufsize)
    ensures err == 0 ==>
      && g.data == mem[..][b..b + bufsize] && g.totalsize == bufsize && g.version == 17
      && Good(g, ts) && Ordered(g) && SameBlocks(f, g, RsvSize(f)) && RsvEnd(g, 0) == RsvEnd(f, 0)
    ensures err != 0 ==> err == -FDT_ERR_NOSPACE && mem[..] == old(mem[..])
  {
    hide Streams, CheckHeader, Good, RsvEnd, PackMoves, Splat, SameBlocks, Ordered, RsvSize;
    g := f;
    ghost var s := mem[..];
    DataFits(f, ts);
    RsvOffset(f);
    var newsize := FDT_V17_SIZE + memRsvSize + f.sizeStruct + f.sizeStrings;
    if bufsize < newsize {
      return -FDT_ERR_NOSPACE, g;
    }
    var tmp := b;
    if tmp + newsize > a && tmp < a + f.totalsize {
      tmp := a + f.totalsize;
      if tmp + newsize > b + bufsize {
        return -FDT_ERR_NOSPACE, g;
      }
    }
    PackBlocks(mem, a + f.offRsv, memRsvSize, a + f.offStruct, f.sizeStruct, a + f.offStrings, f.sizeStrings,
      tmp + FDT_V17_SIZE);
    MoveOne(mem, b, tmp, newsize);
    g := Blob(mem[b..b + bufsize], FDT_MAGIC, bufsize, FDT_V17_SIZE + memRsvSize,
      FDT_V17_SIZE + memRsvSize + f.sizeStruct,
              FDT_V17_SIZE, 17, 16, f.sizeStrings, f.sizeStruct);
    ReorderedGood(s, a, f, tmp, mem[..], b, bufsize, g, ts, memRsvSize);
    return 0, g;
  }

  lemma RsvOffset(b: Blob)
    requires Placed(b) && RsvEnd(b, 0).Some?
    ensures b.offRsv + RsvSize(b) <= b.totalsize && b.totalsize >= 16
  {
    hide RsvEnd;
    RsvInside(b, 0);
  }

  lemma GoodOrder(f: Blob, ts: seq<Token>, size: nat)
    requires Good(f, ts) && f.offRsv + size <= f.totalsize
    ensures Misordered(f, size) <==> !InOrder(f, size)
    ensures f.totalsize >= FDT_V17_SIZE && f.offRsv <= f.totalsize
  {
    hide Streams;
    InOrderExact(f, size);
  }

  /** A copy in a larger buffer. */
  lemma CopiedGood(f: Blob, s: bytes, b: nat, bufsize: nat, g: Blob, ts: seq<Token>, size: nat)
    requires Good(f, ts) && |f.data| == f.totalsize <= bufsize && b + bufsize <= |s| && bufsize < INT_MAX
    requires s[b..b + f.totalsize] == f.data && g == f.(data := s[b..b + bufsize], totalsize := bufsize, version := 17)
    requires RsvEnd(f, 0).Some? && size == RsvSize(f) && InOrder(f, size)
    ensures Good(g, ts) && Ordered(g) && SameBlocks(f, g, size) && RsvEnd(g, 0) == RsvEnd(f, 0)
  {
    hide Streams, CheckHeader, RsvEnd, Good, SameBlocks;
    HeaderOf(f, ts);
    SliceOfSlice(s, b, b + bufsize, 0, f.totalsize);
    assert g.data[0..f.totalsize] == g.data[..f.totalsize] && f.data[..f.totalsize] == f.data;
    SliceOfPrefix(f.data, g.data, f.totalsize, f.offStruct, f.offStruct + f.sizeStruct);
    SliceOfPrefix(f.data, g.data, f.totalsize, f.offStrings, f.offStrings + f.sizeStrings);
    SliceOfPrefix(f.data, g.data, f.totalsize, f.offRsv, f.offRsv + size);
    BlocksFinal(f, g, ts, size);
  }

  /** The packed copy, moved to the start of the buffer. */
  lemma ReorderedGood(s: bytes, a: nat, f: Blob, t: nat, s': bytes, b: nat, bufsize: nat, g: Blob, ts: seq<Token>,
      size: nat)
    requires Good(f, ts) && |f.data| == f.totalsize && a + f.totalsize <= |s| && s[a..a + f.totalsize] == f.data
    requires RsvEnd(f, 0).Some? && size == RsvSize(f) && f.offRsv + size <= f.totalsize
    requires var n := FDT_V17_SIZE + size + f.sizeStruct + f.sizeStrings;
      && n <= bufsize < INT_MAX && b + bufsize <= |s| && t + n <= |s| && Apart(t, n, a, f.totalsize)
      && StringsPlaced(f) && Placed(f)
      && s' == Moved(PackMoves(s, a + f.offRsv, size, a + f.offStruct, f.sizeStruct, a + f.offStrings, f.sizeStrings,
        t + FDT_V17_SIZE), b, t, n)
    requires g == Blob(s'[b..b + bufsize], FDT_MAGIC, bufsize, FDT_V17_SIZE + size, FDT_V17_SIZE + size + f.sizeStruct,
                       FDT_V17_SIZE, 17, 16, f.sizeStrings, f.sizeStruct)
    ensures Good(g, ts) && Ordered(g) && SameBlocks(f, g, size) && RsvEnd(g, 0) == RsvEnd(f, 0)
  {
    hide Streams, CheckHeader, RsvEnd, RsvSize, PackMoves, Moved, Good, SameBlocks, Ordered, StringsPlaced, Apart;
    BlocksInside(f);
    BlocksCarried(s, a, f.totalsize, f.offRsv, size, f.offStruct, f.sizeStruct, f.offStrings, f.sizeStrings, t, s', b,
      bufsize);
    var d := s'[b..b + bufsize];
    assert |d| == bufsize;
    PackedFinal(f, d, g, ts, size);
  }

  lemma BlocksInside(f: Blob)
    requires Placed(f) && StringsPlaced(f)
    ensures f.offStruct + f.sizeStruct <= f.totalsize && f.offStrings + f.sizeStrings <= f.totalsize
  {
  }

  /** The header that goes with packed blocks. */
  lemma PackedFinal(f: Blob, d: bytes, g: Blob, ts: seq<Token>, size: nat)
    requires Good(f, ts) && RsvEnd(f, 0).Some? && size == RsvSize(f) && f.offRsv + size <= f.totalsize <= |f.data|
    requires f.offStruct + f.sizeStruct <= f.totalsize && f.offStrings + f.sizeStrings <= f.totalsize
    requires FDT_V17_SIZE + size + f.sizeStruct + f.sizeStrings <= |d| < INT_MAX
    requires var p := FDT_V17_SIZE;
      && d[p..p + size] == f.data[f.offRsv..f.offRsv + size]
      && d[p + size..p + size + f.sizeStruct] == f.data[f.offStruct..f.offStruct + f.sizeStruct]
      && d[p + size + f.sizeStruct..p + size + f.sizeStruct + f.sizeStrings]
         == f.data[f.offStrings..f.offStrings + f.sizeStrings]
    requires g == Blob(d, FDT_MAGIC, |d|, FDT_V17_SIZE + size, FDT_V17_SIZE + size + f.sizeStruct,
                       FDT_V17_SIZE, 17, 16, f.sizeStrings, f.sizeStruct)
    ensures Good(g, ts) && Ordered(g) && SameBlocks(f, g, size) && RsvEnd(g, 0) == RsvEnd(f, 0)
  {
    hide Streams, CheckHeader, RsvEnd, RsvSize, Good, SameBlocks, Ordered, InOrder, Placed, StringsPlaced;
    HeaderOf(f, ts);
    PackedOrder(f, g, size);
    BlocksFinal(f, g, ts, size);
  }

  lemma PackedOrder(f: Blob, g: Blob, size: nat)
    requires size % 16 == 0 && g.offRsv == FDT_V17_SIZE && g.offStruct == FDT_V17_SIZE + size
    requires g.sizeStruct == f.sizeStruct && g.offStrings == FDT_V17_SIZE + size + f.sizeStruct
    ensures InOrder(g, size) && g.offRsv % 8 == 0 && g.offStruct % 4 == 0
  {
  }

  /** The three blocks, from the old blob by way of their packed places to the buffer. */
  lemma BlocksCarried(s: bytes, a: nat, total: nat, r: nat, nr: nat, u: nat, nu: nat, v: nat, nv: nat, t: nat,
      s': bytes, b: nat, bufsize: nat)
    requires a + total <= |s| && r + nr <= total && u + nu <= total && v + nv <= total
    requires var n := FDT_V17_SIZE + nr + nu + nv;
      && n <= bufsize && b + bufsize <= |s| && t + n <= |s| && Apart(t, n, a, total)
      && s' == Moved(PackMoves(s, a + r, nr, a + u, nu, a + v, nv, t + FDT_V17_SIZE), b, t, n)
    ensures var d, e, p := s'[b..b + bufsize], s[a..a + total], FDT_V17_SIZE;
      && d[p..p + nr] == e[r..r + nr] && d[p + nr..p + nr + nu] == e[u..u + nu]
      && d[p + nr + nu..p + nr + nu + nv] == e[v..v + nv]
  {
    hide PackMoves, Moved;
    var n, p := FDT_V17_SIZE + nr + nu + nv, t + FDT_V17_SIZE;
    var w := PackMoves(s, a + r, nr, a + u, nu, a + v, nv, p);
    PackedBlocks(s, a + r, nr, a + u, nu, a + v, nv, p);
    MovedSlice(w, b, t, n, 0, 0);
    CarryAll(s, a, total, r, nr, u, nu, v, nv, w, t, s', b, bufsize);
  }

  lemma CarryAll(s: bytes, a: nat, total: nat, r: nat, nr: nat, u: nat, nu: nat, v: nat, nv: nat, w: bytes, t: nat,
      s': bytes, b: nat, bufsize: nat)
    requires a + total <= |s| && r + nr <= total && u + nu <= total && v + nv <= total
    requires var n, p := FDT_V17_SIZE + nr + nu + nv, t + FDT_V17_SIZE;
      && n <= bufsize && b + bufsize <= |s'| && t + n <= |w| && s'[b..b + n] == w[t..t + n]
      && w[p..p + nr] == s[a + r..a + r + nr] && w[p + nr..p + nr + nu] == s[a + u..a + u + nu]
      && w[p + nr + nu..p + nr + nu + nv] == s[a + v..a + v + nv]
    ensures var d, e, p := s'[b..b + bufsize], s[a..a + total], FDT_V17_SIZE;
      && d[p..p + nr] == e[r..r + nr] && d[p + nr..p + nr + nu] == e[u..u + nu]
      && d[p + nr + nu..p + nr + nu + nv] == e[v..v + nv]
  {
    var n := FDT_V17_SIZE + nr + nu + nv;
    BlockCarried(s, a, total, r, w, t, n, FDT_V17_SIZE, s', b, bufsize, nr);
    BlockCarried(s, a, total, u, w, t, n, FDT_V17_SIZE + nr, s', b, bufsize, nu);
    BlockCarried(s, a, total, v, w, t, n, FDT_V17_SIZE + nr + nu, s', b, bufsize, nv);
  }

  /** One block, from the old blob by way of its packed place to the buffer. */
  lemma BlockCarried(s: bytes, a: nat, total: nat, x: nat, r: bytes, t: nat, n: nat, y: nat, s': bytes, b: nat,
      bufsize: nat, size: nat)
    requires a + total <= |s| && x + size <= total && t + n <= |r| && y + size <= n <= bufsize && b + bufsize <= |s'|
    requires r[t + y..t + y + size] == s[a + x..a + x + size] && s'[b..b + n] == r[t..t + n]
    ensures s'[b..b + bufsize][y..y + size] == s[a..a + total][x..x + size]
  {
    SliceOfSlice(s, a, a + total, x, x + size);
    SliceOfSlice(s', b, b + bufsize, y, y + size);
    SliceOfSlice(s', b, b + n, y, y + size);
    SliceOfSlice(r, t, t + n, y, y + size);
  }
}
