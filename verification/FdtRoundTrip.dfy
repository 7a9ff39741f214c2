/** What a blob finished by the sequential writer says to the readers. */
module FdtRoundTrip {
  import opened Words
  import opened FdtTokens
  import opened FdtMemory
  import opened FdtEvents
  import opened FdtBlob
  import opened FdtCheck
  import opened FdtTree
  import opened FdtSw

  /** The blocks of a finished blob, as the readers find them. */
  lemma FinishedBlocks(b: SwBuffer)
    requires b.Valid() && b.Complete()
    ensures var v := b.View();
      && Placed(v) && StringsPlaced(v) && CheckHeader(v) == 0
      && Decodes(StructOf(v), b.tokens + [End]) && SayAll(StringsOf(v), b.tokens, b.events, false)
      && v.data[SW_HEADER..v.offStruct] == EncRsv(b.rsv) && v.offRsv == SW_HEADER &&
        SW_HEADER <= v.offStruct <= v.totalsize
      && b.rsv != [] && b.rsv[|b.rsv| - 1] == ReserveEntry(0, 0)
  {
    hide Decodes, SayAll, EncRsv, Written;
    var v := b.View();
    WrapOnce(v.offStruct + v.sizeStruct);
    WrapOnce(v.offStrings + v.sizeStrings);
    assert b.offStruct % 4 == 0 by { EightIsFour(b.offStruct); }
  }

  lemma EightIsFour(x: nat)
    requires x % 8 == 0
    ensures x % 4 == 0
  {
  }

  // ---------- the reservation map ----------

  lemma {:induction false} EncRsvAt(rsv: seq<ReserveEntry>, i: nat)
    requires i < |rsv|
    ensures EncRsv(rsv)[16 * i..16 * i + 16] == Enc64(rsv[i].address) + Enc64(rsv[i].size)
    decreases |rsv|
  {
    hide Enc64;
    var last := |rsv| - 1;
    var front, d := EncRsv(rsv[..last]), Enc64(rsv[last].address) + Enc64(rsv[last].size);
    assert EncRsv(rsv) == front + d;
    if i < last {
      EncRsvAt(rsv[..last], i);
      SliceOfPrefix(front, front + d, |front|, 16 * i, 16 * i + 16);
    } else {
      assert (front + d)[|front|..|front| + 16] == d;
    }
  }

  function Load64(s: bytes, i: nat): int
    requires i + 8 <= |s|
  {
    Load32(s, i) * TWO32 + Load32(s, i + 4)
  }

  lemma Load64At(s: bytes, i: nat, x: u64)
    requires i + 8 <= |s| && s[i..i + 8] == Enc64(x)
    ensures Load64(s, i) == x
  {
    hide Load32, Enc32;
    var hi, lo := x / TWO32, x % TWO32;
    assert s[i..i + 4] == s[i..i + 8][..4] == Enc32(hi);
    assert s[i + 4..i + 8] == s[i..i + 8][4..] == Enc32(lo);
    Load32At(s, i, hi);
    Load32At(s, i + 4, lo);
  }

  /** Reservation entry `i` reads back as it was written. */
  lemma EntryReadsBack(v: Blob, rsv: seq<ReserveEntry>, i: nat)
    requires Placed(v) && v.offRsv == SW_HEADER && SW_HEADER <= v.offStruct <= v.totalsize && i < |rsv|
    requires v.data[SW_HEADER..v.offStruct] == EncRsv(rsv)
    ensures v.offRsv + 16 * i + 16 <= v.totalsize
    ensures Load64(v.data, v.offRsv + 16 * i) == rsv[i].address
    ensures Load64(v.data, v.offRsv + 16 * i + 8) == rsv[i].size
  {
    hide Load64, Enc64, EncRsv;
    var block := v.data[SW_HEADER..v.offStruct];
    var p := SW_HEADER + 16 * i;
    EncRsvAt(rsv, i);
    var e := block[16 * i..16 * i + 16];
    assert |block| == 16 * |rsv|;
    SliceOfSlice(block, 16 * i, 16 * i + 16, 0, 8);
    SliceOfSlice(block, 16 * i, 16 * i + 16, 8, 16);
    SliceOfSlice(v.data, SW_HEADER, v.offStruct, 16 * i, 16 * i + 8);
    SliceOfSlice(v.data, SW_HEADER, v.offStruct, 16 * i + 8, 16 * i + 16);
    assert e[0..8] == Enc64(rsv[i].address) && e[8..16] == Enc64(rsv[i].size);
    Load64At(v.data, p, rsv[i].address);
    Load64At(v.data, p + 8, rsv[i].size);
  }

  /** `fdt_num_mem_rsv` stops at the first entry of size 0, at the latest at the terminator. */
  lemma {:induction false} RsvEndFound(v: Blob, rsv: seq<ReserveEntry>, i: nat)
    requires Placed(v) && v.offRsv == SW_HEADER && SW_HEADER <= v.offStruct <= v.totalsize
    requires v.data[SW_HEADER..v.offStruct] == EncRsv(rsv)
    requires i < |rsv| && rsv[|rsv| - 1].size == 0
    ensures RsvEnd(v, i).Some?
    ensures i <= RsvEnd(v, i).value < |rsv| && rsv[RsvEnd(v, i).value].size == 0
    ensures forall j :: i <= j < RsvEnd(v, i).value ==> rsv[j].size != 0
    decreases |rsv| - i
  {
    hide EncRsv, Load32;
    EntryReadsBack(v, rsv, i);
    if rsv[i].size != 0 { RsvEndFound(v, rsv, i + 1); }
  }

  // ---------- the main result ----------

  /** Whatever calls were made, a finished blob has a valid header and a closed reservation map, its structure
      block decodes to one token per call, and with the names looked up these tokens are the calls, in order,
      with all their values. `fdt_check_full` accepts it exactly when the calls were nested. */
  lemma FinishedSaysTheCalls(b: SwBuffer)
    requires b.Valid() && b.Complete()
    ensures var v := b.View();
      && Placed(v) && StringsPlaced(v) && CheckHeader(v) == 0 && RsvEnd(v, 0).Some?
      && TokensOf(StructOf(v)) == Some(b.tokens)
      && EventsOf(StringsOf(v), b.tokens + [End]) == Some(b.events)
      && (CheckFrom(StructOf(v), StringsOf(v), 0, false) == 0 <==> NestedCalls(b.events))
  {
    hide Decodes, SayAll, EncRsv, CheckHeader, NestedCalls, WellNested, CheckFrom, EventsOf, TokensOf;
    FinishedBlocks(b);
    var v := b.View();
    var s, z := StructOf(v), StringsOf(v);
    NoEndInside(z, b.tokens, b.events);
    TokensOfDecoded(s, b.tokens, []);
    assert s + [] == s;
    EventsOfSaid(z, b.tokens, b.events);
    CheckAccepts(s, z);
    NestedIff(z, b.tokens, b.events);
    RsvEndFound(v, b.rsv, 0);
  }

  lemma NoEndInside(z: bytes, ts: seq<Token>, es: seq<Event>)
    requires SayAll(z, ts, es, false)
    ensures forall i :: 0 <= i < |ts| ==> !ts[i].End?
  {
    forall i | 0 <= i < |ts| ensures !ts[i].End? { assert Says(z, ts[i], es[i], false); }
  }

  /** The tree that a finished blob holds, read from its bytes alone. */
  function ReadTree(v: Blob): Option<Node>
    requires Placed(v) && StringsPlaced(v)
  {
    match TokensOf(StructOf(v))
    case None => None
    case Some(ts) =>
      match EventsOf(StringsOf(v), ts + [End])
      case None => None
      case Some(es) => ParseTree(es)
  }

  /** Round trip: a tree written with begin, property and end calls is read back exactly, names, nesting,
      property names and values, through the shared strings and their relocation; and a tree with an unnamed
      root is accepted by the full check. */
  lemma TreeRoundTrip(b: SwBuffer, tree: Node)
    requires b.Valid() && b.Complete() && b.events == Flatten(tree)
    ensures var v := b.View();
      && Placed(v) && StringsPlaced(v)
      && ReadTree(v) == Some(tree)
      && (CheckFrom(StructOf(v), StringsOf(v), 0, false) == 0 <==> tree.name == [])
  {
    hide CheckFrom, NestedCalls, TokensOf, EventsOf, Flatten, ParseTree;
    FinishedSaysTheCalls(b);
    ParseFlatten(tree);
    TreeIsNested(tree);
  }
}
