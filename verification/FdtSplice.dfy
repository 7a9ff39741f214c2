/** What the byte splices of the read-write functions do to a blob. */
module FdtSplice {
  import opened Words
  import opened FdtTokens
  import opened FdtStrings
  import opened FdtMemory
  import opened FdtBlob
  import opened FdtCheck
  import opened FdtRead

  /** The blocks come in the order reservation map, structure, strings, and the header comes first. */
  predicate Ordered(b: Blob) {
    && FDT_V17_SIZE <= b.offRsv && b.offRsv + 16 <= b.offStruct
    && b.offStruct + b.sizeStruct <= b.offStrings && b.offStrings + b.sizeStrings <= b.totalsize
  }

  /** `fdt_blocks_misordered_` for a reservation map of `rsvSize` bytes, with its sums in unsigned arithmetic. */
  predicate Misordered(b: Blob, rsvSize: u32) {
    || b.offRsv < FDT_V17_SIZE
    || b.offStruct < U32(b.offRsv + rsvSize)
    || b.offStrings < U32(b.offStruct + b.sizeStruct)
    || b.totalsize < U32(b.offStrings + b.sizeStrings)
  }

  /** Under a header that passes the checks the sums do not wrap. */
  lemma MisorderedExact(b: Blob)
    requires b.version >= 17 && b.totalsize <= |b.data| < INT_MAX && CheckHeader(b) == 0
    ensures Misordered(b, 16) <==> !Ordered(b)
  {
    HeaderPlaces(b);
    WrapOnce(b.offRsv + 16);
    WrapOnce(b.offStruct + b.sizeStruct);
    WrapOnce(b.offStrings + b.sizeStrings);
  }

  /** The header tests depend on the header alone, and on the bounds of the blocks. */
  lemma HeaderKept(b: Blob, b': Blob)
    requires b.version >= 17 && b.totalsize <= |b.data| < INT_MAX && CheckHeader(b) == 0 && Ordered(b)
    requires b'.magic == b.magic && b'.totalsize == b.totalsize && b'.offRsv == b.offRsv && b'.offStruct == b.offStruct
    requires b'.version >= 17 && b'.lastComp == b.lastComp
    requires b'.offStruct + b'.sizeStruct <= b'.offStrings && b'.offStrings + b'.sizeStrings <= b'.totalsize
    ensures CheckHeader(b') == 0 && Ordered(b')
  {
    hide CheckHeader;
    HeaderParts(b);
    HeaderGood(b');
  }

  lemma HeaderParts(b: Blob)
    requires b.version >= 17 && CheckHeader(b) == 0
    ensures b.magic == FDT_MAGIC && b.lastComp <= 17 && FDT_V17_SIZE <= b.totalsize
    ensures b.offRsv % 8 == 0 && b.offStruct % 4 == 0 && b.offStrings >= FDT_V17_SIZE && b.offStruct >= FDT_V17_SIZE
    ensures FDT_V17_SIZE <= b.offRsv <= b.totalsize
  {
    hide U32;
  }

  /** What a header must be like to pass. */
  lemma HeaderGood(b: Blob)
    requires b.magic == FDT_MAGIC && b.version >= 17 && b.lastComp <= 17 && b.totalsize <= INT_MAX
    requires b.offRsv % 8 == 0 && b.offStruct % 4 == 0 && FDT_V17_SIZE <= b.offRsv <= b.totalsize
    requires FDT_V17_SIZE <= b.offStruct && b.offStruct + b.sizeStruct <= b.totalsize
    requires FDT_V17_SIZE <= b.offStrings && b.offStrings + b.sizeStrings <= b.totalsize
    ensures CheckHeader(b) == 0
  {
    hide U32;
    WrapOnce(b.offStruct + b.sizeStruct);
    WrapOnce(b.offStrings + b.sizeStrings);
  }

  /** The end of the last block. */
  function DataSize(b: Blob): nat {
    b.offStrings + b.sizeStrings
  }

  /** `s'` starts with `s` up to `d`, with `c` in place of its bytes `p .. q`. */
  predicate Spliced(s: bytes, s': bytes, p: nat, q: nat, d: nat, c: bytes) {
    && p <= q <= d <= |s| && p + |c| + (d - q) <= |s'|
    && s'[..p + |c| + (d - q)] == s[..p] + c + s[q..d]
  }

  lemma ConcatSlices(x: bytes, c: bytes, y: bytes, a: nat, e: nat)
    requires a <= |x| && e <= |y|
    ensures (x + c + y)[a..|x| + |c| + e] == x[a..] + c + y[..e]
    ensures (x + c + y)[|x| + |c| + e..] == y[e..]
    ensures (x + c + y)[..|x|] == x
  {
  }

  lemma SplicedSlices(s: bytes, s': bytes, p: nat, q: nat, d: nat, c: bytes, a: nat, e: nat)
    requires Spliced(s, s', p, q, d, c) && a <= p && q <= e <= d
    ensures s'[a..p + |c| + (e - q)] == s[a..p] + c + s[q..e]
    ensures s'[p + |c| + (e - q)..p + |c| + (d - q)] == s[e..d]
    ensures s'[..p] == s[..p]
  {
    var x, y := s[..p], s[q..d];
    var k, m := p + |c| + (e - q), p + |c| + (d - q);
    ConcatSlices(x, c, y, a, e - q);
    SliceOfPrefix(x + c + y, s', m, a, k);
    SliceOfPrefix(x + c + y, s', m, k, m);
    SliceOfPrefix(x + c + y, s', m, 0, p);
    assert x[a..] == s[a..p] && y[..e - q] == s[q..e] && y[e - q..] == s[e..d];
  }

  /** The tokens `i .. j` replaced by others: the stream is edited and the strings are as before. */
  lemma EditStruct(b: Blob, b': Blob, ts: seq<Token>, i: nat, j: nat, c: bytes, us: seq<Token>)
    requires Streams(b, ts) && Ordered(b) && i <= j < |ts| && Off(ts, i) <= Off(ts, j) <= b.sizeStruct
    requires Decodes(c, us) && forall k :: 0 <= k < |us| ==> !us[k].End?
    requires b'.offStruct == b.offStruct && b'.version >= 17
    requires b'.totalsize == b.totalsize <= |b'.data|
    requires b'.sizeStruct == b.sizeStruct - (Off(ts, j) - Off(ts, i)) + |c|
    requires b'.offStrings == b.offStrings - (Off(ts, j) - Off(ts, i)) + |c| && b'.sizeStrings == b.sizeStrings
    requires DataSize(b') <= b'.totalsize
    requires Spliced(b.data, b'.data, b.offStruct + Off(ts, i), b.offStruct + Off(ts, j), DataSize(b), c)
    ensures Streams(b', ts[..i] + us + ts[j..]) && StringsPlaced(b') && StringsOf(b') == StringsOf(b)
    ensures b'.data[..b.offStruct] == b.data[..b.offStruct]
  {
    hide Decodes, LenOf, Spliced, StructOf, StringsOf, Streams, EndsOnce, Off;
    StreamsParts(b, ts);
    EditedTokens(StructOf(b), LenOf(ts), ts, i, j, c, us);
    NoEndInside(ts, i, j, us);
    EditedBlocks(b, b', Off(ts, i), Off(ts, j), c);
    StreamsWhole(b', ts[..i] + us + ts[j..]);
  }

  /** One end tag, at the end. */
  predicate EndsOnce(ts: seq<Token>) {
    ts != [] && ts[|ts| - 1].End? && (forall k :: 0 <= k < |ts| - 1 ==> !ts[k].End?)
  }

  lemma StreamsParts(b: Blob, ts: seq<Token>)
    requires Streams(b, ts)
    ensures Placed(b) && b.offStruct >= FDT_V17_SIZE && EndsOnce(ts)
    ensures LenOf(ts) <= b.sizeStruct && Decodes(StructOf(b)[..LenOf(ts)], ts)
  {
    hide Decodes, LenOf;
  }

  lemma StreamsWhole(b: Blob, ts: seq<Token>)
    requires Placed(b) && b.offStruct >= FDT_V17_SIZE && EndsOnce(ts)
    requires LenOf(ts) <= b.sizeStruct && Decodes(StructOf(b)[..LenOf(ts)], ts)
    ensures Streams(b, ts)
  {
    hide Decodes, LenOf;
  }

  lemma EditedBlocks(b: Blob, b': Blob, oi: nat, oj: nat, c: bytes)
    requires Placed(b) && Ordered(b) && oi <= oj <= b.sizeStruct
    requires b'.offStruct == b.offStruct && b'.version >= 17 && b'.totalsize == b.totalsize <= |b'.data|
    requires b'.sizeStruct == b.sizeStruct - (oj - oi) + |c|
    requires b'.offStrings == b.offStrings - (oj - oi) + |c| && b'.sizeStrings == b.sizeStrings
    requires DataSize(b') <= b'.totalsize
    requires Spliced(b.data, b'.data, b.offStruct + oi, b.offStruct + oj, DataSize(b), c)
    ensures Placed(b') && StringsPlaced(b') && StringsOf(b') == StringsOf(b)
    ensures StructOf(b') == StructOf(b)[..oi] + c + StructOf(b)[oj..]
    ensures b'.data[..b.offStruct] == b.data[..b.offStruct]
  {
    hide Spliced;
    EditedBytes(b.data, b'.data, b.offStruct, b.sizeStruct, oi, oj, b.offStrings, DataSize(b), c);
  }

  lemma EditedBytes(s: bytes, s': bytes, o: nat, size: nat, oi: nat, oj: nat, g: nat, d: nat, c: bytes)
    requires oi <= oj <= size && o + size <= g <= d <= |s| && Spliced(s, s', o + oi, o + oj, d, c)
    ensures var size', g', d' := size - (oj - oi) + |c|, g - (oj - oi) + |c|, d - (oj - oi) + |c|;
      && d' <= |s'|
      && s'[o..o + size'] == s[o..o + size][..oi] + c + s[o..o + size][oj..]
      && s'[g'..d'] == s[g..d]
    ensures s'[..o] == s[..o]
  {
    hide Spliced;
    assert d - (oj - oi) + |c| <= |s'| by { SpliceFits(s, s', o + oi, o + oj, d, c); }
    SplicedSlices(s, s', o + oi, o + oj, d, c, o, o + size);
    SplicedSlices(s, s', o + oi, o + oj, d, c, 0, g);
    SliceEnds(s, o, size, oi, oj);
    PrefixOfPrefix(s, s', o + oi, o);
  }

  lemma SpliceFits(s: bytes, s': bytes, p: nat, q: nat, d: nat, c: bytes)
    requires Spliced(s, s', p, q, d, c)
    ensures d - (q - p) + |c| <= |s'|
  {
  }

  lemma SliceEnds(s: bytes, o: nat, size: nat, x: nat, y: nat)
    requires o + size <= |s| && x <= size && y <= size
    ensures s[o..o + size][..x] == s[o..o + x] && s[o..o + size][y..] == s[o + y..o + size]
  {
  }

  lemma PrefixOfPrefix(s: bytes, s': bytes, p: nat, k: nat)
    requires k <= p <= |s| && p <= |s'| && s'[..p] == s[..p]
    ensures s'[..k] == s[..k]
  {
    assert s'[..k] == s'[..p][..k] && s[..k] == s[..p][..k];
  }

  lemma EditedTokens(s: bytes, n: nat, ts: seq<Token>, i: nat, j: nat, c: bytes, us: seq<Token>)
    requires n <= |s| && Decodes(s[..n], ts) && n == LenOf(ts) && i <= j <= |ts| && Decodes(c, us)
    ensures Off(ts, i) <= Off(ts, j) <= n
    ensures var ts' := ts[..i] + us + ts[j..];
      var s' := s[..Off(ts, i)] + c + s[Off(ts, j)..];
      LenOf(ts') <= |s'| && Decodes(s'[..LenOf(ts')], ts')
  {
    hide Decodes, LenOf;
    ReplaceTokens(s[..n], ts, i, j, c, us);
    DecodesLength(s[..n], ts);
    var oi, oj := Off(ts, i), Off(ts, j);
    DecodesLength(s[..n][..oi] + c + s[..n][oj..], ts[..i] + us + ts[j..]);
    ConcatSlices(s[..oi], c, s[oj..], 0, n - oj);
    assert s[..n][..oi] == s[..oi][0..] && s[..n][oj..] == s[oj..][..n - oj];
  }

  lemma NoEndInside(ts: seq<Token>, i: nat, j: nat, us: seq<Token>)
    requires EndsOnce(ts) && i <= j < |ts| && forall k :: 0 <= k < |us| ==> !us[k].End?
    ensures EndsOnce(ts[..i] + us + ts[j..])
  {
  }

  /** Nothing but the place of the structure block and its bytes matter to the stream. */
  lemma StreamsSame(b: Blob, b': Blob, ts: seq<Token>)
    requires Streams(b, ts) && b'.version >= 17 && b'.totalsize == b.totalsize <= |b'.data|
    requires b'.offStruct == b.offStruct && b'.sizeStruct == b.sizeStruct
    requires b'.data[..b.offStruct + b.sizeStruct] == b.data[..b.offStruct + b.sizeStruct]
    ensures Streams(b', ts)
  {
    hide Decodes;
    SliceOfPrefix(b.data, b'.data, b.offStruct + b.sizeStruct, b.offStruct, b.offStruct + b.sizeStruct);
  }

  lemma OffOrder(ts: seq<Token>, i: nat, j: nat)
    requires i <= j <= |ts|
    ensures Off(ts, i) <= Off(ts, j)
  {
    hide LenOf;
    if i < j { OffGrows(ts, i, j); }
  }

  /** The tokens of a stream lie inside its structure block. */
  lemma OffInside(b: Blob, ts: seq<Token>, i: nat, j: nat)
    requires Streams(b, ts) && i <= j <= |ts|
    ensures Off(ts, i) <= Off(ts, j) <= b.sizeStruct
  {
    hide Decodes, LenOf;
    OffOrder(ts, i, j);
    OffOrder(ts, j, |ts|);
    assert ts[..|ts|] == ts;
  }

  // ---------- whole blobs ----------

  /** A blob whose header passes the checks and whose structure block starts with the tokens `ts`. */
  ghost predicate Good(b: Blob, ts: seq<Token>) {
    && b.version >= 17 && b.totalsize <= |b.data| < INT_MAX && CheckHeader(b) == 0
    && Streams(b, ts) && StringsPlaced(b)
  }

  /** The header after the structure block has grown by `delta` bytes. */
  predicate Grown(b: Blob, b': Blob, delta: int) {
    && b'.magic == b.magic && b'.totalsize == b.totalsize && b'.offRsv == b.offRsv && b'.offStruct == b.offStruct
    && b'.version == b.version && b'.lastComp == b.lastComp && |b'.data| == |b.data|
    && b'.sizeStruct == b.sizeStruct + delta && b'.offStrings == b.offStrings + delta && b'.sizeStrings == b.sizeStrings
    && DataSize(b') <= b'.totalsize
  }

  /** The tokens `i .. j` replaced by `us`, encoded by `c`: a good blob again, with the same strings and the same
      bytes in front of the structure block. */
  lemma EditGood(b: Blob, b': Blob, ts: seq<Token>, i: nat, j: nat, c: bytes, us: seq<Token>)
    requires Good(b, ts) && Ordered(b) && i <= j < |ts| && Off(ts, i) <= Off(ts, j)
    requires Decodes(c, us) && forall k :: 0 <= k < |us| ==> !us[k].End?
    requires Grown(b, b', |c| - (Off(ts, j) - Off(ts, i)))
    requires Spliced(b.data, b'.data, b.offStruct + Off(ts, i), b.offStruct + Off(ts, j), DataSize(b), c)
    ensures Good(b', ts[..i] + us + ts[j..]) && Ordered(b') && StringsOf(b') == StringsOf(b)
    ensures b'.data[..b.offStruct] == b.data[..b.offStruct]
  {
    hide Decodes, Off, Spliced, Streams, StringsOf, CheckHeader;
    OffInside(b, ts, i, j);
    EditStruct(b, b', ts, i, j, c, us);
    HeaderKept(b, b');
  }

  // ---------- edits in place ----------

  /** No byte belongs to the structure block and to the strings block. */
  predicate StringsApart(b: Blob) {
    b.sizeStrings == 0 || b.offStrings + b.sizeStrings <= b.offStruct || b.offStruct + b.sizeStruct <= b.offStrings
  }

  /** A write inside the structure block, seen from the two blocks. */
  lemma WrittenInside(b: Blob, b': Blob, o: nat, c: bytes)
    requires Placed(b) && StringsPlaced(b) && StringsApart(b) && o + |c| <= b.sizeStruct
    requires b' == b.(data := Splat(b.data, b.offStruct + o, c))
    ensures Placed(b') && StringsPlaced(b') && StringsApart(b') && StringsOf(b') == StringsOf(b)
    ensures StructOf(b') == StructOf(b)[..o] + c + StructOf(b)[o + |c|..]
    ensures b'.data[..b.offStruct] == b.data[..b.offStruct]
  {
    hide Splat;
    WrittenBytes(b.data, b.offStruct, b.sizeStruct, o, c);
    if b.sizeStrings > 0 { SplatSlice(b.data, b.offStruct + o, c, b.offStrings, DataSize(b)); }
  }

  lemma WrittenBytes(s: bytes, from: nat, n: nat, o: nat, c: bytes)
    requires o + |c| <= n && from + n <= |s|
    ensures var s' := Splat(s, from + o, c);
      && s'[..from] == s[..from]
      && s'[from..from + n] == s[from..from + n][..o] + c + s[from..from + n][o + |c|..]
  {
    var s', p, e := Splat(s, from + o, c), from + o, from + n;
    hide Splat;
    SplatSlice(s, p, c, 0, from);
    SplatSlice(s, p, c, from, p);
    SplatSlice(s, p, c, p + |c|, e);
    SliceEnds(s, from, n, o, o + |c|);
    ThreeSlices(s', from, p, p + |c|, e);
  }

  lemma ThreeSlices(s: bytes, a: nat, p: nat, q: nat, e: nat)
    requires a <= p <= q <= e <= |s|
    ensures s[a..e] == s[a..p] + s[p..q] + s[q..e]
  {
  }

  lemma HeaderSame(b: Blob, b': Blob)
    requires b.version >= 17 && b' == b.(data := b'.data)
    ensures CheckHeader(b') == CheckHeader(b)
  {
  }

  /** The tokens `i .. j` overwritten by others of the same length. The strings are as before when they lie outside the
      structure block, in front of it or behind it. */
  lemma InPlaceGood(b: Blob, b': Blob, ts: seq<Token>, i: nat, j: nat, c: bytes, us: seq<Token>)
    requires Good(b, ts) && StringsApart(b) && i <= j < |ts| && Off(ts, i) + |c| == Off(ts, j) <= b.sizeStruct
    requires Decodes(c, us) && forall k :: 0 <= k < |us| ==> !us[k].End?
    requires b' == b.(data := Splat(b.data, b.offStruct + Off(ts, i), c))
    ensures Good(b', ts[..i] + us + ts[j..]) && StringsApart(b') && StringsOf(b') == StringsOf(b)
    ensures b'.data[..b.offStruct] == b.data[..b.offStruct]
  {
    hide Decodes, LenOf, StructOf, StringsOf, Streams, EndsOnce, Off, CheckHeader, Splat, StringsApart;
    StreamsParts(b, ts);
    WrittenInside(b, b', Off(ts, i), c);
    EditedTokens(StructOf(b), LenOf(ts), ts, i, j, c, us);
    NoEndInside(ts, i, j, us);
    StreamsWhole(b', ts[..i] + us + ts[j..]);
    HeaderSame(b, b');
  }

  /** Without that a write may change names: the strings block stays as it was exactly when every byte of it that is
      written over already had its new value. */
  lemma WriteKeepsStrings(b: Blob, p: nat, c: bytes)
    requires Placed(b) && StringsPlaced(b) && p + |c| <= |b.data|
    ensures var b' := b.(data := Splat(b.data, p, c));
      StringsOf(b') == StringsOf(b) <==>
        forall x :: 0 <= x < |c| && b.offStrings <= p + x < DataSize(b) ==> c[x] == b.data[p + x]
  {
    hide Splat;
    WriteKeepsSlice(b.data, p, c, b.offStrings, DataSize(b));
  }

  lemma WriteKeepsSlice(s: bytes, p: nat, c: bytes, a: nat, e: nat)
    requires p + |c| <= |s| && a <= e <= |s|
    ensures Splat(s, p, c)[a..e] == s[a..e] <==> forall x :: 0 <= x < |c| && a <= p + x < e ==> c[x] == s[p + x]
  {
    var r := Splat(s, p, c);
    if r[a..e] == s[a..e] {
      forall x | 0 <= x < |c| && a <= p + x < e ensures c[x] == s[p + x] {
        assert r[p + x] == r[a..e][p + x - a] == s[a..e][p + x - a];
      }
    }
    if forall x :: 0 <= x < |c| && a <= p + x < e ==> c[x] == s[p + x] {
      assert forall m :: 0 <= m < |s| ==> r[m] == if p <= m < p + |c| then c[m - p] else s[m];
    }
  }

  /** A string written after the last one. */
  lemma AppendGood(b: Blob, b': Blob, ts: seq<Token>, s: bytes)
    requires Good(b, ts) && Ordered(b) && DataSize(b) + |s| <= b.totalsize
    requires b' == b.(data := Splat(b.data, DataSize(b), s), sizeStrings := b.sizeStrings + |s|)
    ensures Good(b', ts) && Ordered(b') && StringsOf(b') == StringsOf(b) + s
    ensures b'.data[..b.offStruct] == b.data[..b.offStruct]
  {
    hide Streams, CheckHeader, Splat;
    var d := DataSize(b);
    SplatSlice(b.data, d, s, 0, b.offStruct + b.sizeStruct);
    SplatSlice(b.data, d, s, 0, b.offStruct);
    SplatSlice(b.data, d, s, b.offStrings, d);
    assert StringsOf(b') == b'.data[b.offStrings..d] + b'.data[d..d + |s|];
    StreamsSame(b, b', ts);
    HeaderKept(b, b');
  }

  // ---------- writing into the hole ----------

  /** A write inside the hole `p .. p + n`. */
  lemma SplatInside(s: bytes, p: nat, n: nat, x: nat, w: bytes)
    requires x + |w| <= n && p + n <= |s|
    ensures var r := Splat(s, p + x, w);
      r[..p] == s[..p] && r[p + n..] == s[p + n..] && r[p..p + n] == Splat(s[p..p + n], x, w)
  {
  }

  /** What stands around the hole after the move. */
  lemma HoleMade(s: bytes, p: nat, q: nat, d: nat, n: nat)
    requires p <= q <= d <= |s| && p + n + (d - q) <= |s|
    ensures var r := Splat(s, p + n, s[q..d]);
      r[..p + n] == s[..p + n] && r[..p] == s[..p] && r[p + n..p + n + (d - q)] == s[q..d] && r[p..p + n] == s[p..p + n]
  {
  }

  lemma SplicedBy(s: bytes, s': bytes, p: nat, q: nat, d: nat, n: nat)
    requires p <= q <= d <= |s| && p + n + (d - q) <= |s'| && s'[..p] == s[..p] && s'[p + n..p + n + (d - q)] == s[q..d]
    ensures Spliced(s, s', p, q, d, s'[p..p + n])
  {
    assert s'[..p + n + (d - q)] == s'[..p] + s'[p..p + n] + s'[p + n..p + n + (d - q)];
  }

  /** Equal bytes after a place are equal in every slice after it. */
  lemma SameAfter(s: bytes, s': bytes, q: nat, e: nat)
    requires q <= e <= |s| && |s'| == |s| && s'[q..] == s[q..]
    ensures s'[q..e] == s[q..e]
  {
    assert s'[q..e] == s'[q..][..e - q] && s[q..e] == s[q..][..e - q];
  }

  lemma PropChunk(c: bytes, off: u32, v: bytes)
    requires |v| < TWO32 && |c| == 12 + TagAlign(|v|)
    requires Load32(c, 0) == FDT_PROP && Load32(c, 4) == |v| && Load32(c, 8) == off && c[12..12 + |v|] == v
    ensures Encodes(c, Prop(off, v))
  {
    AlignFour(|v|);
  }

  /** The length and the value of a property written into the hole at `p`. */
  function PutValue(s: bytes, p: nat, v: bytes): (r: bytes)
    requires |v| < TWO32 && p + 12 + |v| <= |s|
    ensures |r| == |s|
  {
    Splat(Splat(s, p + 4, Enc32(|v|)), p + 12, v)
  }

  /** A property token made of an old head, or of a new one. */
  lemma PutValueEncodes(c: bytes, off: u32, v: bytes)
    requires |v| < TWO32 && |c| == 12 + TagAlign(|v|) && Load32(c, 0) == FDT_PROP && Load32(c, 8) == off
    ensures Encodes(PutValue(c, 0, v), Prop(off, v))
  {
    hide Load32, Enc32;
    var c1 := Splat(c, 4, Enc32(|v|));
    var r := Splat(c1, 12, v);
    assert r[0..4] == c[0..4] && r[8..12] == c[8..12] && r[4..8] == Enc32(|v|) && r[12..12 + |v|] == v;
    Load32Local(c, r, 0);
    Load32Local(c, r, 8);
    Load32At(r, 4, |v|);
    PropChunk(r, off, v);
  }

  lemma PutValueInside(s: bytes, p: nat, n: nat, v: bytes)
    requires |v| < TWO32 && 12 + |v| <= n && p + n <= |s|
    ensures var r := PutValue(s, p, v);
      r[..p] == s[..p] && r[p + n..] == s[p + n..] && r[p..p + n] == PutValue(s[p..p + n], 0, v)
  {
    hide Splat, Enc32;
    SplatInside(s, p, n, 4, Enc32(|v|));
    SplatInside(Splat(s, p + 4, Enc32(|v|)), p, n, 12, v);
  }

  /** `fdt_resize_property_`, and the copy of the new value. */
  lemma ResizedBytes(s: bytes, p: nat, q: nat, d: nat, t: Token, v: bytes)
    requires t.Prop? && p <= q <= d <= |s| && Encodes(s[p..q], t) && q - p == TokLen(t)
    requires |v| < TWO32 && p + 12 + TagAlign(|v|) + (d - q) <= |s|
    ensures var n := 12 + TagAlign(|v|);
      var s' := PutValue(Splat(s, p + n, s[q..d]), p, v);
      Spliced(s, s', p, q, d, s'[p..p + n]) && Encodes(s'[p..p + n], Prop(t.nameoff, v))
  {
    hide Splat, PutValue, Spliced, Encodes, Load32, Enc32;
    var n := 12 + TagAlign(|v|);
    var s1 := Splat(s, p + n, s[q..d]);
    HoleMade(s, p, q, d, n);
    PutValueInside(s1, p, n, v);
    var s' := PutValue(s1, p, v);
    SameAfter(s1, s', p + n, p + n + (d - q));
    SplicedBy(s, s', p, q, d, n);
    PropHead(s[p..q], t);
    SliceOfSlice(s, p, q, 0, 4);
    SliceOfSlice(s, p, q, 8, 12);
    SliceOfSlice(s, p, p + n, 0, 4);
    SliceOfSlice(s, p, p + n, 8, 12);
    Load32Local(s[p..q], s1[p..p + n], 0);
    Load32Local(s[p..q], s1[p..p + n], 8);
    PutValueEncodes(s1[p..p + n], t.nameoff, v);
  }

  lemma PropHead(c: bytes, t: Token)
    requires t.Prop? && Encodes(c, t)
    ensures |c| >= 12 && Load32(c, 0) == FDT_PROP && Load32(c, 8) == t.nameoff
  {
  }

  /** The tag and the name offset of a new property written into the hole at `p`. */
  function PutHead(s: bytes, p: nat, nameoff: u32): (r: bytes)
    requires p + 12 <= |s|
    ensures |r| == |s|
  {
    Splat(Splat(s, p, Enc32(FDT_PROP)), p + 8, Enc32(nameoff))
  }

  lemma PutHeadInside(s: bytes, p: nat, n: nat, nameoff: u32)
    requires 12 <= n && p + n <= |s|
    ensures var r := PutHead(s, p, nameoff);
      && r[..p] == s[..p] && r[p + n..] == s[p + n..]
      && Load32(r[p..p + n], 0) == FDT_PROP && Load32(r[p..p + n], 8) == nameoff
  {
    hide Splat, Enc32, Load32;
    SplatInside(s, p, n, 0, Enc32(FDT_PROP));
    var s1 := Splat(s, p, Enc32(FDT_PROP));
    SplatInside(s1, p, n, 8, Enc32(nameoff));
    var c := s[p..p + n];
    var c1 := Splat(c, 0, Enc32(FDT_PROP));
    SplatSlice(c, 0, Enc32(FDT_PROP), 0, 0);
    SplatSlice(c1, 8, Enc32(nameoff), 0, 4);
    Load32At(Splat(c1, 8, Enc32(nameoff)), 0, FDT_PROP);
    Load32At(Splat(c1, 8, Enc32(nameoff)), 8, nameoff);
  }

  /** `fdt_add_property_`, and the copy of the value. */
  lemma AddedBytes(s: bytes, p: nat, d: nat, nameoff: u32, v: bytes)
    requires p <= d <= |s| && |v| < TWO32 && p + 12 + TagAlign(|v|) + (d - p) <= |s|
    ensures var n := 12 + TagAlign(|v|);
      var s' := PutValue(PutHead(Splat(s, p + n, s[p..d]), p, nameoff), p, v);
      Spliced(s, s', p, p, d, s'[p..p + n]) && Encodes(s'[p..p + n], Prop(nameoff, v))
  {
    hide Splat, PutHead, PutValue, Spliced, Encodes, Load32, Enc32;
    var n := 12 + TagAlign(|v|);
    var s1 := Splat(s, p + n, s[p..d]);
    var s2 := PutHead(s1, p, nameoff);
    var s' := PutValue(s2, p, v);
    HoleMade(s, p, p, d, n);
    PutHeadInside(s1, p, n, nameoff);
    PutValueInside(s2, p, n, v);
    SameAfter(s1, s', p + n, p + n + (d - p));
    SplicedBy(s, s', p, p, d, n);
    PutValueEncodes(s2[p..p + n], nameoff, v);
  }

  function Zeros(n: nat): (r: bytes)
    ensures |r| == n && forall i :: 0 <= i < n ==> r[i] == 0
  {
    seq(n, i => 0)
  }

  /** An empty node written into the hole at `p`. */
  function PutNode(s: bytes, p: nat, name: bytes): (r: bytes)
    requires p + 8 + TagAlign(|name| + 1) <= |s|
    ensures |r| == |s|
  {
    var k := TagAlign(|name| + 1);
    Splat(Splat(Splat(Splat(s, p, Enc32(FDT_BEGIN_NODE)), p + 4, Zeros(k)), p + 4, name), p + 4 + k,
      Enc32(FDT_END_NODE))
  }

  lemma PutNodeInside(s: bytes, p: nat, name: bytes)
    requires p + 8 + TagAlign(|name| + 1) <= |s|
    ensures var n := 8 + TagAlign(|name| + 1);
      var r := PutNode(s, p, name);
      r[..p] == s[..p] && r[p + n..] == s[p + n..] && r[p..p + n] == PutNode(s[p..p + n], 0, name)
  {
    hide Splat, Enc32, TagAlign;
    var k := TagAlign(|name| + 1);
    SplatInside(s, p, 8 + k, 0, Enc32(FDT_BEGIN_NODE));
    var s1 := Splat(s, p, Enc32(FDT_BEGIN_NODE));
    SplatInside(s1, p, 8 + k, 4, Zeros(k));
    var s2 := Splat(s1, p + 4, Zeros(k));
    SplatInside(s2, p, 8 + k, 4, name);
    SplatInside(Splat(s2, p + 4, name), p, 8 + k, 4 + k, Enc32(FDT_END_NODE));
  }

  lemma PutNodeDecodes(c: bytes, name: bytes)
    requires NoNul(name) && |c| == 8 + TagAlign(|name| + 1)
    ensures Decodes(PutNode(c, 0, name), [BeginNode(name), EndNode])
  {
    hide Enc32, Decodes, Encodes;
    var k := TagAlign(|name| + 1);
    var pad := Zeros(k - |name| - 1);
    var a, e := Enc32(FDT_BEGIN_NODE) + name + [0] + pad, Enc32(FDT_END_NODE);
    NodePieces(c, name, k);
    EncodeBegin(name, pad);
    EncodeTag(EndNode);
    DecodesOne(a, BeginNode(name));
    DecodesOne(e, EndNode);
    DecodesConcat(a, [BeginNode(name)], e, [EndNode]);
    assert [BeginNode(name)] + [EndNode] == [BeginNode(name), EndNode];
  }

  lemma NodePieces(c: bytes, name: bytes, k: nat)
    requires k == TagAlign(|name| + 1) && |c| == 8 + k
    ensures PutNode(c, 0, name) == Enc32(FDT_BEGIN_NODE) + name + [0] + Zeros(k - |name| - 1) + Enc32(FDT_END_NODE)
  {
    hide Enc32, TagAlign;
    var b, e := Enc32(FDT_BEGIN_NODE), Enc32(FDT_END_NODE);
    assert Splat(c, 0, b) == b + c[4..];
    assert Splat(b + c[4..], 4, Zeros(k)) == b + Zeros(k) + c[4 + k..];
    assert Splat(b + Zeros(k) + c[4 + k..], 4, name) == b + name + Zeros(k)[|name|..] + c[4 + k..];
    assert Zeros(k)[|name|..] == [0] + Zeros(k - |name| - 1);
    assert Splat(b + name + Zeros(k)[|name|..] + c[4 + k..], 4 + k, e) == b + name + Zeros(k)[|name|..] + e;
    assert b + name + Zeros(k)[|name|..] + e == b + name + [0] + Zeros(k - |name| - 1) + e;
  }

  /** `fdt_add_subnode_namelen`. */
  lemma NodeBytes(s: bytes, p: nat, d: nat, name: bytes)
    requires NoNul(name) && p <= d <= |s| && d + 8 + TagAlign(|name| + 1) <= |s|
    ensures var n := 8 + TagAlign(|name| + 1);
      var s' := PutNode(Splat(s, p + n, s[p..d]), p, name);
      Spliced(s, s', p, p, d, s'[p..p + n]) && Decodes(s'[p..p + n], [BeginNode(name), EndNode])
  {
    hide Splat, PutNode, Spliced, Decodes, TagAlign;
    var n := 8 + TagAlign(|name| + 1);
    var s1 := Splat(s, p + n, s[p..d]);
    var s' := PutNode(s1, p, name);
    HoleMade(s, p, p, d, n);
    PutNodeInside(s1, p, name);
    SameAfter(s1, s', p + n, p + n + (d - p));
    SplicedBy(s, s', p, p, d, n);
    PutNodeDecodes(s1[p..p + n], name);
  }

  /** Only the move: the bytes `p .. q` are gone. */
  lemma RemovedBytes(s: bytes, p: nat, q: nat, d: nat)
    requires p <= q <= d <= |s|
    ensures Spliced(s, Splat(s, p, s[q..d]), p, q, d, [])
  {
    assert Splat(s, p, s[q..d])[..p + (d - q)] == s[..p] + [] + s[q..d];
  }

  // ---------- NOPs ----------

  function NopBytes(k: nat): (r: bytes)
    ensures |r| == 4 * k
  {
    if k == 0 then [] else NopBytes(k - 1) + Enc32(FDT_NOP)
  }

  function Nops(k: nat): (us: seq<Token>)
    ensures |us| == k && forall i :: 0 <= i < k ==> us[i] == Nop
  {
    seq(k, i => Nop)
  }

  lemma {:induction false} NopsDecode(k: nat)
    ensures Decodes(NopBytes(k), Nops(k))
  {
    hide Decodes, Enc32;
    if k == 0 {
      NothingDecodes();
    } else {
      NopsDecode(k - 1);
      EncodeTag(Nop);
      DecodesOne(Enc32(FDT_NOP), Nop);
      DecodesConcat(NopBytes(k - 1), Nops(k - 1), Enc32(FDT_NOP), [Nop]);
      assert Nops(k) == Nops(k - 1) + [Nop];
    }
  }

  lemma NothingDecodes()
    ensures Decodes([], []) && NopBytes(0) == [] && Nops(0) == []
  {
  }

  lemma SplatAfter(s: bytes, p: nat, a: bytes, e: bytes)
    requires p + |a| + |e| <= |s|
    ensures Splat(Splat(s, p, a), p + |a|, e) == Splat(s, p, a + e)
  {
  }

  /** The tokens `i .. j` overwritten by as many bytes of NOPs. */
  lemma OverwrittenGood(b: Blob, b': Blob, ts: seq<Token>, i: nat, j: nat, k: nat)
    requires Good(b, ts) && StringsApart(b) && i <= j < |ts| && Off(ts, i) + 4 * k == Off(ts, j) <= b.sizeStruct
    requires b' == b.(data := Splat(b.data, b.offStruct + Off(ts, i), NopBytes(k)))
    ensures Good(b', ts[..i] + Nops(k) + ts[j..]) && StringsApart(b') && StringsOf(b') == StringsOf(b)
    ensures b'.data[..b.offStruct] == b.data[..b.offStruct]
  {
    hide Decodes, LenOf, CheckHeader, Splat, Streams, StringsOf, Off, NopBytes, StringsApart;
    NopsDecode(k);
    InPlaceGood(b, b', ts, i, j, NopBytes(k), Nops(k));
  }

  /** The NOPs take the place of the tokens they replace, so that every other token keeps its offset. */
  lemma NopsKeepOffsets(ts: seq<Token>, i: nat, j: nat, k: nat, m: nat)
    requires i <= j <= |ts| && Off(ts, i) + 4 * k == Off(ts, j) && j + m <= |ts|
    ensures i + k + m <= |ts[..i] + Nops(k) + ts[j..]|
    ensures Off(ts[..i] + Nops(k) + ts[j..], i + k + m) == Off(ts, j + m)
  {
    hide LenOf, Nops;
    var ts' := ts[..i] + Nops(k) + ts[j..];
    NopsLength(k);
    assert ts'[..i + k + m] == ts[..i] + Nops(k) + ts[j..j + m];
    assert ts[..j + m] == ts[..j] + ts[j..j + m];
    LenOfConcat(ts[..i] + Nops(k), ts[j..j + m]);
    LenOfConcat(ts[..i], Nops(k));
    LenOfConcat(ts[..j], ts[j..j + m]);
  }

  lemma {:induction false} NopsLength(k: nat)
    ensures LenOf(Nops(k)) == 4 * k
  {
    if k > 0 {
      assert Nops(k)[1..] == Nops(k - 1);
      NopsLength(k - 1);
    }
  }

  /** `fdt_appendprop` writes only the new part of the value. */
  lemma AppendIsPut(s: bytes, p: nat, v: bytes, more: bytes)
    requires |v| + |more| < TWO32 && p + 12 + |v| + |more| <= |s| && s[p + 12..p + 12 + |v|] == v
    ensures Splat(Splat(s, p + 4, Enc32(|v| + |more|)), p + 12 + |v|, more) == PutValue(s, p, v + more)
  {
    hide Enc32;
    var a := Splat(s, p + 4, Enc32(|v| + |more|));
    assert a[p + 12..p + 12 + |v|] == v;
    assert Splat(a, p + 12, v) == a;
    SplatAfter(a, p + 12, v, more);
  }

  // ---------- a name inside a value ----------

  /** The bytes of a root with two properties of one name. The name is the value of the first one. */
  function TwiceNamed(): bytes {
    (Enc32(FDT_BEGIN_NODE) + [] + [0] + [0, 0, 0])
    + (Enc32(FDT_PROP) + Enc32(4) + Enc32(0) + [97, 0, 0, 0] + [])
    + (Enc32(FDT_PROP) + Enc32(0) + Enc32(0) + [] + [])
    + Enc32(FDT_END_NODE) + Enc32(FDT_END)
  }

  const TwiceNamedTokens: seq<Token> := [BeginNode([])] + [Prop(0, [97, 0, 0, 0])] + [Prop(0, [])] + [EndNode] + [End]

  lemma TwiceNamedDecodes()
    ensures Decodes(TwiceNamed(), TwiceNamedTokens) && |TwiceNamed()| == 44
  {
    hide Decodes, Encodes, Load32, Enc32;
    EncodeBegin([], [0, 0, 0]);
    EncodeProp(0, [97, 0, 0, 0], []);
    EncodeProp(0, [], []);
    EncodeTag(EndNode);
    EncodeTag(End);
    var c0 := Enc32(FDT_BEGIN_NODE) + [] + [0] + [0, 0, 0];
    var c1 := Enc32(FDT_PROP) + Enc32(4) + Enc32(0) + [97, 0, 0, 0] + [];
    var c2 := Enc32(FDT_PROP) + Enc32(0) + Enc32(0) + [] + [];
    var c3, c4 := Enc32(FDT_END_NODE), Enc32(FDT_END);
    DecodesOne(c0, BeginNode([]));
    DecodesOne(c1, Prop(0, [97, 0, 0, 0]));
    DecodesOne(c2, Prop(0, []));
    DecodesOne(c3, EndNode);
    DecodesOne(c4, End);
    DecodesConcat(c0, [BeginNode([])], c1, [Prop(0, [97, 0, 0, 0])]);
    DecodesConcat(c0 + c1, [BeginNode([])] + [Prop(0, [97, 0, 0, 0])], c2, [Prop(0, [])]);
    DecodesConcat(c0 + c1 + c2, [BeginNode([])] + [Prop(0, [97, 0, 0, 0])] + [Prop(0, [])], c3, [EndNode]);
    DecodesConcat(c0 + c1 + c2 + c3, [BeginNode([])] + [Prop(0, [97, 0, 0, 0])] + [Prop(0, [])] + [EndNode], c4, [End]);
  }

  /** A blob that the header checks accept. Its strings block, the name "a", lies inside the value of its first
      property, from byte 60 on. */
  function OverlappingBlob(): Blob {
    Blob(seq(40, _ => 0) + TwiceNamed(), FDT_MAGIC, 84, 40, 60, 40, 17, 16, 2, 44)
  }

  lemma NameThere()
    ensures var b := OverlappingBlob();
      b.data[60..62] == [97, 0] && 4 * 4 + 48 <= |b.data| && Splat(b.data, 48, NopBytes(4))[60..62] == [0, 0]
  {
    var b, w := OverlappingBlob(), Enc32(FDT_NOP);
    assert w[0] == w[1] == 0;
    hide Enc32;
    assert b.data[60] == 97 && b.data[61] == 0;
    assert NopBytes(4) == NopBytes(3) + w && |NopBytes(3)| == 12;
    var r := Splat(b.data, 48, NopBytes(4));
    assert r[60] == NopBytes(4)[12] && r[61] == NopBytes(4)[13];
  }

  lemma ShortStrings()
    ensures StringAt([97, 0], 0) == Some([97]) && StringAt([0, 0], 0) == Some([])
  {
    FindNulUnique([97, 0], 0, 1);
    FindNulUnique([0, 0], 0, 0);
    assert [97, 0][0..1] == [97];
  }

  lemma FirstOffset()
    ensures Off(TwiceNamedTokens, 1) == 8 && LenOf(TwiceNamedTokens[..1]) == 8
  {
    assert TwiceNamedTokens[..1] == [BeginNode([])];
    LenOfOne(BeginNode([]));
  }

  lemma OverlappingGood()
    ensures Good(OverlappingBlob(), TwiceNamedTokens) && !StringsApart(OverlappingBlob())
  {
    hide Decodes, Enc32;
    var b, ts := OverlappingBlob(), TwiceNamedTokens;
    TwiceNamedDecodes();
    DecodesLength(TwiceNamed(), ts);
    assert StructOf(b) == TwiceNamed();
    assert TwiceNamed()[..44] == TwiceNamed();
    HeaderGood(b);
  }

  /** Overwriting its first property, which starts at byte 48, with NOPs takes away the name of the second one. */
  lemma NopsTakeTheName()
    ensures var b := OverlappingBlob();
      && Good(b, TwiceNamedTokens) && !StringsApart(b) && b.offStruct + Off(TwiceNamedTokens, 1) == 48
      && 48 + |NopBytes(4)| <= |b.data|
      && TwiceNamedTokens[2] == Prop(0, []) && StringAt(StringsOf(b), 0) == Some([97])
      && var b' := b.(data := Splat(b.data, 48, NopBytes(4)));
      Placed(b') && StringsPlaced(b') && StringAt(StringsOf(b'), 0) == Some([])
  {
    hide Streams, Splat, NopBytes, TwiceNamed, StringAt, Off, LenOf, CheckHeader;
    OverlappingGood();
    NameThere();
    ShortStrings();
    FirstOffset();
  }
}
