/** Blobs that `fdt_check_full` accepts: streams of tokens, with a tree below every node; edits keep them accepted. */
module FdtAccepted {
  import opened Words
  import opened FdtTokens
  import opened FdtStrings
  import opened FdtMemory
  import opened FdtEvents
  import opened FdtBlob
  import opened FdtCheck
  import opened FdtRead
  import opened FdtTree
  import FdtEdit
  import opened FdtItems
  import opened FdtSplice
  import opened FdtSw
  import opened FdtRoundTrip
  import FdtRw
  import opened FdtRwTree

  // ---------- acceptance gives a stream of tokens ----------

  /** A token is read the same from its own bytes. */
  lemma ReadTagCut(s: bytes)
    requires ReadTag(s).Tok? && ReadTag(s).n <= |s|
    ensures Encodes(s[..ReadTag(s).n], ReadTag(s).t)
  {
    var t, n := ReadTag(s).t, ReadTag(s).n;
    var c := s[..n];
    ReadTagLength(s);
    assert s[..4] == c[..4];
    Load32Local(s, c, 0);
    if t.BeginNode? {
      var k := FindNul(s, 4);
      AlignFour(k + 1 - 4);
      FindNulUnique(c, 4, k);
      assert c[4..k] == s[4..k];
    } else if t.Prop? {
      Load32Local(s, c, 4);
      Load32Local(s, c, 8);
      assert c[12..12 + Load32(s, 4)] == s[12..12 + Load32(s, 4)];
    }
  }

  /** Where the walk finds tokens up to an end tag, these tokens are encoded. */
  lemma {:induction false} TokensDecode(s: bytes)
    requires TokensOf(s).Some?
    ensures var ts := TokensOf(s).value + [End];
      EndsOnce(ts) && LenOf(ts) <= |s| && Decodes(s[..LenOf(ts)], ts)
    decreases |s|
  {
    hide ReadTag, TokLen, Encodes, Decodes, LenOf, TokensOf;
    TokensUnfold(s);
    var t, n := ReadTag(s).t, ReadTag(s).n;
    var rest := Drop(s, n);
    ReadTagLength(s);
    if t.End? {
      EndFits(s);
      ReadTagCut(s);
      DecodesOne(s[..n], End);
      LenOfOne(End);
      assert TokensOf(s).value + [End] == [End];
    } else {
      TokensDecode(rest);
      TokensUnfold(rest);
      RestFits(rest);
      ReadTagCut(s);
      var ts := TokensOf(rest).value + [End];
      DecodesOne(s[..n], t);
      DecodesConcat(s[..n], [t], rest[..LenOf(ts)], ts);
      LenOfConcat([t], ts);
      LenOfOne(t);
      assert TokensOf(s).value + [End] == [t] + ts;
      assert s[..n] + rest[..LenOf(ts)] == s[..n + LenOf(ts)];
    }
  }

  lemma TokensUnfold(s: bytes)
    requires TokensOf(s).Some?
    ensures ReadTag(s).Tok?
    ensures ReadTag(s).t.End? ==> TokensOf(s).value == []
    ensures !ReadTag(s).t.End? ==>
      && |Drop(s, ReadTag(s).n)| < |s| && TokensOf(Drop(s, ReadTag(s).n)).Some?
      && TokensOf(s).value == [ReadTag(s).t] + TokensOf(Drop(s, ReadTag(s).n)).value
  {
    hide ReadTag;
    if ReadTag(s).Tok? { ReadTagLength(s); }
  }

  lemma EndFits(s: bytes)
    requires ReadTag(s).Tok? && ReadTag(s).t.End?
    ensures ReadTag(s).n == 4 <= |s|
  {
  }

  lemma RestFits(s: bytes)
    requires ReadTag(s).Tok?
    ensures s != []
  {
  }

  /** What `fdt_check_full` accepts in a buffer of its size. */
  predicate Accepted(b: Blob) {
    && b.version >= 17 && FDT_V17_SIZE <= |b.data| < INT_MAX && b.totalsize <= |b.data| && CheckHeader(b) == 0
    && Placed(b) && StringsPlaced(b) && RsvEnd(b, 0).Some?
    && CheckFrom(StructOf(b), StringsOf(b), 0, false) == 0
  }

  /** The tokens of a placed structure block, with the end tag. */
  function Tokens(b: Blob): seq<Token>
    requires Placed(b)
  {
    match TokensOf(StructOf(b))
    case None => []
    case Some(ts) => ts + [End]
  }

  /** An accepted blob is what the functions that read and edit blobs ask for. */
  lemma AcceptedGood(b: Blob)
    requires Accepted(b)
    ensures Good(b, Tokens(b)) && Nested(Tokens(b), StringsOf(b))
  {
    hide CheckHeader, CheckFrom, Decodes, LenOf, EndsOnce, TokensOf, WellNested, Nested;
    var s, z := StructOf(b), StringsOf(b);
    CheckAccepts(s, z);
    TokensDecode(s);
    HeaderParts(b);
    StreamsWhole(b, Tokens(b));
    WellNestedIsNested(TokensOf(s).value, z);
  }

  /** The stream of a blob is unique. */
  lemma GoodTokens(b: Blob, ts: seq<Token>)
    requires Good(b, ts)
    ensures Tokens(b) == ts && TokensOf(StructOf(b)) == Some(ts[..|ts| - 1])
  {
    hide CheckHeader, Decodes, LenOf, TokensOf;
    StreamsParts(b, ts);
    var s, n := StructOf(b), LenOf(ts);
    assert ts[..|ts| - 1] + [End] == ts;
    TokensOfDecoded(s[..n], ts[..|ts| - 1], s[n..]);
    assert s[..n] + s[n..] == s;
  }

  /** Conversely, a good blob whose nodes are nested and whose map is closed is accepted. */
  lemma GoodAccepted(b: Blob, ts: seq<Token>)
    requires Good(b, ts) && RsvEnd(b, 0).Some?
    ensures Accepted(b) <==> Nested(ts, StringsOf(b))
  {
    hide CheckFrom, Decodes, LenOf, TokensOf, WellNested, Nested, RsvEnd;
    GoodTokens(b, ts);
    CheckAccepts(StructOf(b), StringsOf(b));
    StreamsParts(b, ts);
    assert ts[..|ts| - 1] + [End] == ts;
    WellNestedIsNested(ts[..|ts| - 1], StringsOf(b));
  }

  // ---------- nesting, with the end tag ----------

  /** Every token in front of the end tag is allowed where it stands, and every node has ended. */
  predicate Nested(ts: seq<Token>, z: bytes) {
    ts != [] && (forall i :: 0 <= i < |ts| - 1 ==> Fits(ts, z, i)) && DepthAt(ts, |ts| - 1) == 0
  }

  lemma {:induction false} SameFront(ts: seq<Token>, us: seq<Token>, k: nat)
    requires k <= |ts| && k <= |us| && ts[..k] == us[..k]
    ensures DepthAt(us, k) == DepthAt(ts, k) && Closed(us, k) == Closed(ts, k)
  {
    if k > 0 {
      assert ts[..k - 1] == ts[..k][..k - 1] && us[..k - 1] == us[..k][..k - 1];
      assert ts[k - 1] == ts[..k][k - 1] && us[k - 1] == us[..k][k - 1];
      SameFront(ts, us, k - 1);
    }
  }

  lemma FrontFits(ts: seq<Token>, us: seq<Token>, z: bytes, k: nat)
    requires k < |ts| && k < |us| && ts[..k + 1] == us[..k + 1]
    ensures Fits(us, z, k) == Fits(ts, z, k)
  {
    hide DepthAt, Closed;
    assert ts[..k] == ts[..k + 1][..k] && us[..k] == us[..k + 1][..k];
    assert ts[k] == ts[..k + 1][k] && us[k] == us[..k + 1][k];
    SameFront(ts, us, k);
  }

  lemma WellNestedIsNested(ts: seq<Token>, z: bytes)
    ensures WellNested(ts, z) <==> Nested(ts + [End], z)
  {
    hide DepthAt, Fits;
    var us := ts + [End];
    assert us[..|ts|] == ts[..|ts|];
    SameFront(ts, us, |ts|);
    forall k | 0 <= k < |ts| ensures Fits(us, z, k) == Fits(ts, z, k) {
      assert us[..k + 1] == ts[..k + 1];
      FrontFits(ts, us, z, k);
    }
  }

  // ---------- every node of an accepted blob has a tree ----------

  lemma {:induction false} NestedDepth(ts: seq<Token>, z: bytes, i: nat)
    requires Nested(ts, z) && i < |ts|
    ensures DepthAt(ts, i) >= 0
  {
    if i > 0 {
      NestedDepth(ts, z, i - 1);
      assert Fits(ts, z, i - 1);
    }
  }

  /** Inside a node the tokens up to its end tag are items. */
  lemma {:induction false} NestedItems(ts: seq<Token>, z: bytes, j: nat)
    requires Nested(ts, z) && j < |ts| && DepthAt(ts, j) >= 1
    ensures FdtEdit.Items(ts[j..], z).Some?
    ensures var n := FdtEdit.Items(ts[j..], z).value.1;
      j + n < |ts| && DepthAt(ts, j + n) == DepthAt(ts, j) - 1
    decreases |ts| - j
  {
    hide FdtEdit.Items, StringAt, Closed, DepthAt;
    assert j < |ts| - 1;
    assert Fits(ts, z, j);
    DepthStep(ts, j);
    FdtEdit.ItemsUnfold(ts[j..], z);
    FdtEdit.SuffixOfSuffix(ts, j, 1);
    assert ts[j..][0] == ts[j];
    if !ts[j].EndNode? { NestedItems(ts, z, j + 1); }
    if ts[j].BeginNode? {
      var m := FdtEdit.Items(ts[j + 1..], z).value.1;
      FdtEdit.SuffixOfSuffix(ts, j, 1 + m);
      NestedItems(ts, z, j + 1 + m);
    }
  }

  lemma DepthStep(ts: seq<Token>, j: nat)
    requires j < |ts|
    ensures DepthAt(ts, j + 1) == DepthAt(ts, j) + Step(ts[j])
  {
  }

  /** So every node of an accepted blob has the items that the lookups and edits are described with. */
  lemma NodeHasItems(ts: seq<Token>, z: bytes, k: nat) returns (items: seq<Item>, n: nat)
    requires Nested(ts, z) && k < |ts| - 1 && ts[k].BeginNode?
    ensures ItemsAt(ts, z, k + 1, items, n) && k + 1 + n < |ts|
  {
    hide Nested, DepthAt, FdtEdit.Items;
    NestedDepth(ts, z, k);
    DepthStep(ts, k);
    NestedItems(ts, z, k + 1);
    items, n := FdtEdit.Items(ts[k + 1..], z).value.0, FdtEdit.Items(ts[k + 1..], z).value.1;
  }

  // ---------- blobs that the sequential writer finished ----------

  /** A finished blob is good, with the tokens written; it is accepted exactly when the calls were nested. */
  lemma FinishedGood(b: SwBuffer)
    requires b.Valid() && b.Complete()
    ensures Good(b.View(), b.tokens + [End])
    ensures Accepted(b.View()) <==> NestedCalls(b.events)
  {
    hide Decodes, SayAll, LenOf, CheckHeader, NestedCalls, CheckFrom, EventsOf, TokensOf, RsvEnd;
    FinishedBlocks(b);
    FinishedSaysTheCalls(b);
    var v, ts := b.View(), b.tokens + [End];
    FdtRoundTrip.NoEndInside(StringsOf(v), b.tokens, b.events);
    DecodesLength(StructOf(v), ts);
    assert StructOf(v)[..|StructOf(v)|] == StructOf(v);
    StreamsWhole(v, ts);
  }

  lemma SaidSuffix(z: bytes, ts: seq<Token>, es: seq<Event>, k: nat)
    requires SayAll(z, ts, es, false) && k <= |ts|
    ensures SayAll(z, ts[k..], es[k..], false)
  {
    forall i | 0 <= i < |ts| - k ensures FdtEvents.Says(z, ts[k..][i], es[k..][i], false) {
      assert FdtEvents.Says(z, ts[k + i], es[k + i], false);
    }
  }

  /** Tokens that say the items of a tree and their end are these items. */
  lemma {:induction false} SaidItems(z: bytes, ts: seq<Token>, items: seq<Item>, rest: seq<Event>, tail: seq<Token>)
    requires SayAll(z, ts, FlattenItems(items) + [EndE] + rest, false)
    ensures FdtEdit.Items(ts + tail, z) == Some((items, |FlattenItems(items)| + 1))
    decreases items
  {
    hide SayAll, FdtEdit.Items, StringAt, Flatten, FlattenItem;
    var es := FlattenItems(items) + [EndE] + rest;
    var us := ts + tail;
    SaidFirst(z, ts, es);
    FdtEdit.ItemsUnfold(us, z);
    SaidSuffix(z, ts, es, 1);
    assert us[1..] == ts[1..] + tail;
    if items != [] {
      var more := FlattenItems(items[1..]) + [EndE] + rest;
      FdtEdit.FlattenFirst(items);
      assert es == FlattenItem(items[0]) + more;
      if items[0].PropI? {
        FdtEdit.FlattenProp(items[0]);
        assert es[1..] == more;
        SaidItems(z, ts[1..], items[1..], rest, tail);
        assert items == [PropI(items[0].name, items[0].value)] + items[1..];
      } else {
        var n := items[0].node;
        var m := |FlattenItems(n.items)| + 1;
        FdtEdit.FlattenSub(n);
        assert es[1..] == FlattenItems(n.items) + [EndE] + more;
        assert n < items[0];
        SaidItems(z, ts[1..], n.items, more, tail);
        SaidSuffix(z, ts, es, 1 + m);
        assert es[1 + m..] == more;
        SaidItems(z, ts[1 + m..], items[1..], rest, tail);
        assert us[1 + m..] == ts[1 + m..] + tail;
        assert items == [Sub(Node(n.name, n.items))] + items[1..];
      }
    }
  }

  lemma SaidFirst(z: bytes, ts: seq<Token>, es: seq<Event>)
    requires SayAll(z, ts, es, false) && es != []
    ensures |ts| == |es| && FdtEvents.Says(z, ts[0], es[0], false)
  {
  }

  /** A tree that was written is the tree that the lookups and edits see in the finished blob. */
  lemma FinishedTree(b: SwBuffer, tree: Node)
    requires b.Valid() && b.Complete() && b.events == Flatten(tree)
    ensures var v, ts := b.View(), b.tokens + [End];
      && Good(v, ts) && ts[0] == BeginNode(tree.name)
      && ItemsAt(ts, StringsOf(v), 1, tree.items, |ts| - 2)
  {
    hide SayAll, Good, FdtEdit.Items, CheckHeader, Decodes, FlattenItems, Flatten, Written, EncRsv, ItemsAt,
      FdtEvents.Says;
    FinishedGood(b);
    FinishedBlocks(b);
    SaidTree(StringsOf(b.View()), b.tokens, tree);
  }

  lemma SaidTree(z: bytes, ts: seq<Token>, tree: Node)
    requires SayAll(z, ts, Flatten(tree), false)
    ensures ts != [] && ts[0] == BeginNode(tree.name) && ItemsAt(ts + [End], z, 1, tree.items, |ts| - 1)
  {
    hide SayAll, FdtEdit.Items, FlattenItems;
    SaidFirst(z, ts, Flatten(tree));
    SaidSuffix(z, ts, Flatten(tree), 1);
    assert Flatten(tree)[1..] == FlattenItems(tree.items) + [EndE] + [];
    SaidItems(z, ts[1..], tree.items, [], [End]);
    assert (ts + [End])[1..] == ts[1..] + [End];
  }

  // ---------- acceptance, then the walk over the nodes ----------

  /** A client of both: check the blob, then visit its nodes. An accepted blob gives every node of its tree exactly
      once, in order. */
  method CheckThenEnumerate(b: Blob) returns (err: int, offsets: seq<int>)
    requires b.version >= 17 && |b.data| < INT_MAX
    ensures err == 0 <==> Accepted(b)
    ensures err == 0 ==>
      var ts := Tokens(b);
      && |offsets| == |NodesFrom(ts, 0)|
      && forall n :: 0 <= n < |offsets| ==> NodesFrom(ts, 0)[n] < |ts| && offsets[n] == Off(ts, NodesFrom(ts, 0)[n])
  {
    hide CheckHeader, RsvEnd, CheckFrom, Streams, TokensOf, Off;
    err := CheckFull(b, |b.data|);
    if err != 0 {
      return err, [];
    }
    Checked(b);
    AcceptedGood(b);
    offsets := EnumerateNodes(b, Tokens(b));
  }

  lemma Checked(b: Blob)
    requires b.version >= 17 && |b.data| < INT_MAX && b.totalsize <= |b.data| && CheckHeader(b) == 0
    ensures Placed(b) && StringsPlaced(b) && FDT_V17_SIZE <= b.totalsize
  {
    HeaderPlaces(b);
  }

  // ---------- edits keep acceptance ----------

  /** The tokens of a node's items are all allowed, and its end tag closes it. */
  lemma {:induction false} ItemsFit(ts: seq<Token>, z: bytes, j: nat, items: seq<Item>, n: nat)
    requires ItemsAt(ts, z, j, items, n) && DepthAt(ts, j) >= 1 && !Closed(ts, j)
    ensures j + n <= |ts| && forall m :: j <= m < j + n ==> Fits(ts, z, m)
    ensures DepthAt(ts, j + n) == DepthAt(ts, j) - 1
    ensures Closed(ts, j + n) <==> DepthAt(ts, j) == 1
    decreases n
  {
    hide FdtEdit.Items, ItemsAt, StringAt, Closed, DepthAt;
    ItemsAtStep(ts, z, j, items, n);
    FitsIsAllowed(ts, z, j);
    StepBoth(ts, j);
    if ts[j].BeginNode? {
      var m := FdtEdit.Items(ts[j + 1..], z).value.1;
      ItemsFit(ts, z, j + 1, items[0].node.items, m);
      ItemsFit(ts, z, j + 1 + m, items[1..], n - 1 - m);
    } else if ts[j].Nop? {
      ItemsFit(ts, z, j + 1, items, n - 1);
    } else if ts[j].Prop? {
      ItemsFit(ts, z, j + 1, items[1..], n - 1);
    }
  }

  lemma StepBoth(ts: seq<Token>, j: nat)
    requires j < |ts|
    ensures DepthAt(ts, j + 1) == DepthAt(ts, j) + Step(ts[j])
    ensures Closed(ts, j + 1) <==> Closed(ts, j) || (ts[j].EndNode? && DepthAt(ts, j + 1) == 0)
  {
  }

  /** The tokens behind an edit are allowed as before, at the same depth and with all names still there. */
  lemma {:induction false} TailFits(ts: seq<Token>, z: bytes, k: nat, ts': seq<Token>, z': bytes, k': nat)
    requires k < |ts| && k' < |ts'| && ts'[k'..] == ts[k..] && z <= z'
    requires DepthAt(ts', k') == DepthAt(ts, k) && (Closed(ts', k') ==> Closed(ts, k))
    requires forall m :: k <= m < |ts| - 1 ==> Fits(ts, z, m)
    ensures forall m :: k' <= m < |ts'| - 1 ==> Fits(ts', z', m)
    ensures DepthAt(ts', |ts'| - 1) == DepthAt(ts, |ts| - 1)
    decreases |ts| - k
  {
    hide Closed, DepthAt, StringAt;
    assert |ts'| - k' == |ts| - k;
    assert ts'[k'] == ts'[k'..][0] == ts[k..][0] == ts[k];
    if k < |ts| - 1 {
      assert Fits(ts, z, k);
      StepBoth(ts, k);
      StepBoth(ts', k');
      if ts[k].Prop? {
        assert z' == z + z'[|z|..];
        StringAtAppend(z, z'[|z|..], ts[k].nameoff);
      }
      assert ts'[k' + 1..] == ts'[k'..][1..] && ts[k + 1..] == ts[k..][1..];
      TailFits(ts, z, k + 1, ts', z', k' + 1);
    }
  }

  /** Rewriting a node keeps the nesting of the blob. */
  lemma RewrittenNested(ts: seq<Token>, z: bytes, i: nat, items: seq<Item>, n: nat, ts': seq<Token>, z': bytes,
      items': seq<Item>)
    requires Nested(ts, z) && i < |ts| - 1 && ts[i].BeginNode? && ItemsAt(ts, z, i + 1, items, n) && i + 1 + n < |ts|
    requires Rewritten(ts, z, i, n, ts', z', items')
    ensures Nested(ts', z')
  {
    hide FdtEdit.Items, ItemsAt, StringAt, Closed, DepthAt, Fits;
    var n' := n + |ts'| - |ts|;
    NestedDepth(ts, z, i);
    StepBoth(ts, i);
    OpenHere(ts, z, i);
    SameFront(ts, ts', i + 1);
    ItemsFit(ts, z, i + 1, items, n);
    ItemsFit(ts', z', i + 1, items', n');
    forall m | 0 <= m < i + 1 ensures Fits(ts', z', m) {
      assert Fits(ts, z, m);
      assert ts[..m + 1] == ts[..i + 1][..m + 1] && ts'[..m + 1] == ts'[..i + 1][..m + 1];
      FrontFits(ts, ts', z, m);
      MoreNames(ts', z, z', m);
    }
    TailFits(ts, z, i + 1 + n, ts', z', i + 1 + n');
  }

  lemma OpenHere(ts: seq<Token>, z: bytes, i: nat)
    requires i < |ts| && Fits(ts, z, i) && ts[i].BeginNode?
    ensures !Closed(ts, i)
  {
  }

  lemma MoreNames(ts: seq<Token>, z: bytes, z': bytes, m: nat)
    requires m < |ts| && Fits(ts, z, m) && z <= z'
    ensures Fits(ts, z', m)
  {
    hide Closed, DepthAt, StringAt;
    if ts[m].Prop? {
      assert z' == z + z'[|z|..];
      StringAtAppend(z, z'[|z|..], ts[m].nameoff);
    }
  }

  /** Taking a node out, or overwriting it with NOPs, keeps the nesting. */
  lemma CutNested(ts: seq<Token>, z: bytes, i: nat, items: seq<Item>, n: nat, us: seq<Token>)
    requires Nested(ts, z) && i < |ts| - 1 && ts[i].BeginNode? && ItemsAt(ts, z, i + 1, items, n) && i + 1 + n < |ts|
    requires forall m :: 0 <= m < |us| ==> us[m].Nop?
    ensures Nested(ts[..i] + us + ts[i + 1 + n..], z)
  {
    hide FdtEdit.Items, ItemsAt, StringAt, Closed, DepthAt, Fits;
    var ts' := ts[..i] + us + ts[i + 1 + n..];
    NestedDepth(ts, z, i);
    StepBoth(ts, i);
    OpenHere(ts, z, i);
    assert ts'[..i] == ts[..i];
    SameFront(ts, ts', i);
    ItemsFit(ts, z, i + 1, items, n);
    forall m | 0 <= m < i ensures Fits(ts', z, m) {
      assert Fits(ts, z, m);
      assert ts[..m + 1] == ts[..i][..m + 1] && ts'[..m + 1] == ts'[..i][..m + 1];
      FrontFits(ts, ts', z, m);
    }
    NopsFit(ts', z, i, |us|);
    assert ts'[i + |us|..] == ts[i + 1 + n..];
    TailFits(ts, z, i + 1 + n, ts', z, i + |us|);
  }

  lemma {:induction false} NopsFit(ts: seq<Token>, z: bytes, i: nat, k: nat)
    requires i + k <= |ts| && forall m :: i <= m < i + k ==> ts[m].Nop?
    ensures forall m :: i <= m < i + k ==> Fits(ts, z, m)
    ensures DepthAt(ts, i + k) == DepthAt(ts, i) && Closed(ts, i + k) == Closed(ts, i)
  {
    if k > 0 { NopsFit(ts, z, i, k - 1); }
  }

  /** The header and the bytes in front of the structure block are the same, up to the size of the structure block. */
  predicate SameHead(b: Blob, b': Blob) {
    && b'.offRsv == b.offRsv && b'.totalsize == b.totalsize && b'.offStruct == b.offStruct
    && b.offStruct <= |b.data| && b.offStruct <= |b'.data| && b'.data[..b.offStruct] == b.data[..b.offStruct]
  }

  /** The reservation map ends in front of the structure block. */
  predicate MapInFront(b: Blob)
    requires Placed(b)
  {
    RsvEnd(b, 0).Some? && b.offRsv + 16 * RsvEnd(b, 0).value + 16 <= b.offStruct
  }

  lemma {:induction false} MapKept(b: Blob, b': Blob, n: nat)
    requires Placed(b) && Placed(b') && SameHead(b, b')
    requires RsvEnd(b, n).Some? && b.offRsv + 16 * RsvEnd(b, n).value + 16 <= b.offStruct
    ensures RsvEnd(b', n) == RsvEnd(b, n)
    decreases b.totalsize - (b.offRsv + 16 * n)
  {
    hide Load32;
    var p := b.offRsv + 16 * n;
    RsvEndGrows(b, n);
    SliceOfPrefix(b.data, b'.data, b.offStruct, p + 8, p + 12);
    SliceOfPrefix(b.data, b'.data, b.offStruct, p + 12, p + 16);
    Load32Local(b.data, b'.data, p + 8);
    Load32Local(b.data, b'.data, p + 12);
    if !(Load32(b.data, p + 8) == 0 && Load32(b.data, p + 12) == 0) { MapKept(b, b', n + 1); }
  }

  lemma {:induction false} RsvEndGrows(b: Blob, n: nat)
    requires Placed(b) && RsvEnd(b, n).Some?
    ensures n <= RsvEnd(b, n).value
    decreases b.totalsize - (b.offRsv + 16 * n)
  {
    hide Load32;
    var p := b.offRsv + 16 * n;
    if !(Load32(b.data, p + 8) == 0 && Load32(b.data, p + 12) == 0) { RsvEndGrows(b, n + 1); }
  }

  /** An edit that rewrites one node of an accepted blob leaves an accepted blob: `fdt_setprop`, `fdt_delprop`,
      `fdt_nop_property`, `fdt_add_subnode`, and the removal of a node below it. */
  lemma EditKeepsAccepted(b: Blob, b': Blob, i: nat, items: seq<Item>, n: nat, ts': seq<Token>, items': seq<Item>)
    requires Accepted(b) && MapInFront(b) && SameHead(b, b') && Good(b', ts')
    requires var ts, z := Tokens(b), StringsOf(b);
      && i < |ts| - 1 && ts[i].BeginNode? && ItemsAt(ts, z, i + 1, items, n)
      && Rewritten(ts, z, i, n, ts', StringsOf(b'), items')
    ensures Accepted(b')
  {
    hide FdtEdit.Items, ItemsAt, Rewritten, Nested, CheckFrom, CheckHeader, Streams, StringsOf, RsvEnd, Tokens,
      StructOf;
    AcceptedGood(b);
    FdtRw.DataFits(b', ts');
    ItemsInside(b, i, items, n);
    RewrittenNested(Tokens(b), StringsOf(b), i, items, n, ts', StringsOf(b'), items');
    MapKept(b, b', 0);
    GoodAccepted(b', ts');
  }

  lemma ItemsInside(b: Blob, i: nat, items: seq<Item>, n: nat)
    requires Accepted(b)
    requires i < |Tokens(b)| - 1 && Tokens(b)[i].BeginNode? && ItemsAt(Tokens(b), StringsOf(b), i + 1, items, n)
    ensures i + 1 + n < |Tokens(b)|
  {
    hide FdtEdit.Items, Nested, StringsOf, Good, Tokens, DepthAt, CheckHeader, CheckFrom, RsvEnd;
    AcceptedGood(b);
    NestedDepth(Tokens(b), StringsOf(b), i);
    DepthStep(Tokens(b), i);
    NestedItems(Tokens(b), StringsOf(b), i + 1);
  }

  /** So does `fdt_del_node` or `fdt_nop_node` on any node. */
  lemma CutKeepsAccepted(b: Blob, b': Blob, i: nat, items: seq<Item>, n: nat, us: seq<Token>)
    requires Accepted(b) && MapInFront(b) && SameHead(b, b')
    requires i < |Tokens(b)| - 1 && Tokens(b)[i].BeginNode? && ItemsAt(Tokens(b), StringsOf(b), i + 1, items, n)
    requires forall m :: 0 <= m < |us| ==> us[m].Nop?
    requires i + 1 + n <= |Tokens(b)| && Good(b', Tokens(b)[..i] + us + Tokens(b)[i + 1 + n..]) &&
      StringsOf(b') == StringsOf(b)
    ensures Accepted(b')
  {
    hide FdtEdit.Items, ItemsAt, Nested, CheckFrom, CheckHeader, Streams, StringsOf, RsvEnd, Tokens, StructOf;
    AcceptedGood(b);
    FdtRw.DataFits(b', Tokens(b)[..i] + us + Tokens(b)[i + 1 + n..]);
    ItemsInside(b, i, items, n);
    CutNested(Tokens(b), StringsOf(b), i, items, n, us);
    MapKept(b, b', 0);
    GoodAccepted(b', Tokens(b)[..i] + us + Tokens(b)[i + 1 + n..]);
  }
}
