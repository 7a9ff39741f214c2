/** A client of the sequential writer: when a whole tree fits into a buffer, and that it is then read back. */
module FdtWrite {
  import opened Words
  import opened FdtTokens
  import opened FdtStrings
  import opened FdtEvents
  import opened FdtBlob
  import opened FdtCheck
  import opened FdtTree
  import opened FdtSw
  import opened FdtRoundTrip

  // ---------- the size of what is written ----------

  /** The bytes of the structure block that a list of calls needs. */
  function StructSize(es: seq<Event>): nat {
    if es == [] then 0 else EventSize(es[0]) + StructSize(es[1..])
  }

  function EventSize(e: Event): nat {
    match e
    case BeginE(name) => 4 + TagAlign(|name| + 1)
    case EndE => 4
    case PropE(_, value) => 12 + TagAlign(|value|)
  }

  /** The strings block after one call: a name is shared, or added in front. */
  ghost function StringsWith(z: bytes, e: Event, share: bool): bytes {
    match e
    case PropE(name, _) => if share && Shared(z, name) then z else name + [0] + z
    case _ => z
  }

  ghost function StringsAfter(z: bytes, es: seq<Event>, share: bool): bytes
    decreases |es|
  {
    if es == [] then z else StringsAfter(StringsWith(z, es[0], share), es[1..], share)
  }

  lemma {:induction false} StringsGrow(z: bytes, es: seq<Event>, share: bool)
    ensures |z| <= |StringsAfter(z, es, share)|
    decreases |es|
  {
    hide Shared;
    if es != [] { StringsGrow(StringsWith(z, es[0], share), es[1..], share); }
  }

  /** The arguments are C strings, and lengths are those of a C int. */
  predicate Writable(e: Event) {
    match e
    case BeginE(name) => NoNul(name)
    case EndE => true
    case PropE(name, value) => NoNul(name) && |value| < INT_MAX
  }

  predicate AllWritable(es: seq<Event>) {
    forall k :: 0 <= k < |es| ==> Writable(es[k])
  }

  // ---------- one call ----------

  /** The call that an event stands for. It succeeds exactly when the structure block and the strings with it fit. */
  method WriteCall(b: SwBuffer, e: Event) returns (err: int)
    requires b.Valid() && b.InStruct() && Writable(e)
    requires |StringsWith(b.Names(), e, b.lastComp % 2 == 0)| <= b.totalsize
    modifies b`sizeStruct, b`sizeStrings, b`tokens, b`events, b.buf
    ensures b.Valid() && b.InStruct()
    ensures err == 0 <==>
      b.offStruct + old(b.sizeStruct) + EventSize(e) + |old(StringsWith(b.Names(), e, b.lastComp % 2 == 0))|
        <= b.totalsize
    ensures err == 0 ==>
      && b.events == old(b.events) + [e] && b.sizeStruct == old(b.sizeStruct) + EventSize(e)
      && b.Names() == old(StringsWith(b.Names(), e, b.lastComp % 2 == 0))
  {
    hide Written, Shared, TagAlign;
    NamesFit(b);
    match e
    case BeginE(name) => err := b.BeginNode(name);
    case EndE => err := b.EndNode();
    case PropE(name, value) => err := b.Property(name, value);
    NamesFit(b);
  }

  lemma NamesFit(b: SwBuffer)
    requires b.Valid() && b.InStruct()
    ensures b.offStruct + b.sizeStruct + b.sizeStrings <= b.totalsize == b.buf.Length && |b.Names()| == b.sizeStrings
  {
    hide Decodes, SayAll, EncRsv;
  }

  // ---------- a list of calls ----------

  /** All calls succeed exactly when everything they write fits. The guard is that the names alone fit, without which
      the room test of the writer does not count right. */
  method WriteCalls(b: SwBuffer, es: seq<Event>) returns (err: int)
    requires b.Valid() && b.InStruct() && AllWritable(es)
    requires |StringsAfter(b.Names(), es, b.lastComp % 2 == 0)| <= b.totalsize
    modifies b`sizeStruct, b`sizeStrings, b`tokens, b`events, b.buf
    ensures b.Valid() && b.InStruct()
    ensures err == 0 <==>
      b.offStruct + old(b.sizeStruct) + StructSize(es) + |old(StringsAfter(b.Names(), es, b.lastComp % 2 == 0))|
        <= b.totalsize
    ensures err == 0 ==>
      && b.events == old(b.events) + es && b.sizeStruct == old(b.sizeStruct) + StructSize(es)
      && b.Names() == old(StringsAfter(b.Names(), es, b.lastComp % 2 == 0))
  {
    hide Written, Shared, StringsWith, EventSize, SwBuffer.Finished;
    NamesFit(b);
    ghost var share, start := b.lastComp % 2 == 0, b.sizeStruct;
    ghost var all := StringsAfter(b.Names(), es, share);
    ghost var before := b.events;
    StringsGrow(b.Names(), es, share);
    err := 0;
    var k := 0;
    assert es[0..] == es;
    while k < |es|
      invariant 0 <= k <= |es| && b.Valid() && b.InStruct() && b.events == before + es[..k]
      invariant b.sizeStrings <= b.totalsize == b.buf.Length
      invariant b.sizeStruct + StructSize(es[k..]) == start + StructSize(es)
      invariant StringsAfter(b.Names(), es[k..], share) == all
    {
      ghost var rest := es[k..];
      assert rest[0] == es[k] && rest[1..] == es[k + 1..];
      StringsGrow(StringsWith(b.Names(), es[k], share), es[k + 1..], share);
      err := WriteCall(b, es[k]);
      if err != 0 {
        return;
      }
      NamesFit(b);
      assert es[..k + 1] == es[..k] + [es[k]];
      k := k + 1;
    }
    assert es[..k] == es;
    NamesFit(b);
  }

  // ---------- a whole tree ----------

  /** The size of the finished blob: header, terminator of the reservation map, structure block with its end tag, and
      strings. */
  ghost function BlobSize(tree: Node, share: bool): nat {
    SW_HEADER + 16 + StructSize(Flatten(tree)) + 4 + |StringsAfter([], Flatten(tree), share)|
  }

  /** Create, finish the empty reservation map, write the tree, finish. It succeeds exactly when the flags are known and
      the buffer is as large as the blob; then the blob has that size, and the tree is read back from its bytes. */
  method WriteTree(size: nat, flags: u32, tree: Node) returns (err: int, blob: SwBuffer?)
    requires size < INT_MAX && AllWritable(Flatten(tree)) && |StringsAfter([], Flatten(tree), flags % 2 == 0)| <= size
    ensures err == 0 <==> flags <= NO_NAME_DEDUP && BlobSize(tree, flags % 2 == 0) <= size
    ensures err == 0 ==>
      && blob != null && blob.Valid() && blob.Complete() && blob.events == Flatten(tree)
      && blob.totalsize == BlobSize(tree, flags % 2 == 0)
      && Placed(blob.View()) && StringsPlaced(blob.View()) && ReadTree(blob.View()) == Some(tree)
  {
    hide Written, StringsAfter, StructSize, Flatten, ReadTree, SwBuffer.Finished;
    err, blob := CreateWithFlags(size, flags);
    if err != 0 {
      return;
    }
    err := blob.FinishReservemap();
    if err != 0 {
      return;
    }
    NamesFit(blob);
    assert blob.Names() == [];
    err := WriteCalls(blob, Flatten(tree));
    if err != 0 {
      return;
    }
    NamesFit(blob);
    err := blob.Finish();
    if err == 0 { TreeRoundTrip(blob, tree); }
  }
}
