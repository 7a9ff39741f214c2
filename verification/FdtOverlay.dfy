/** Applying an overlay fragment to a node of the base blob. */
module FdtOverlay {
  import opened Words
  import opened FdtTokens
  import opened FdtStrings
  import opened FdtBlob
  import opened FdtCheck
  import opened FdtRead
  import opened FdtEvents
  import opened FdtTree
  import opened FdtWrite
  import opened FdtLookup
  import opened FdtEdit
  import opened FdtItems
  import opened FdtSplice
  import opened FdtRw
  import opened FdtRwTree
  import opened FdtChildren
  import opened FdtMerge

  /** Two rewritings of the same node, one after the other. */
  lemma RewrittenTwice(ts: seq<Token>, z: bytes, i: nat, n: nat, ts1: seq<Token>, z1: bytes, items1: seq<Item>,
      ts2: seq<Token>, z2: bytes, items2: seq<Item>)
    requires Rewritten(ts, z, i, n, ts1, z1, items1)
    requires n + |ts1| >= |ts| && Rewritten(ts1, z1, i, n + |ts1| - |ts|, ts2, z2, items2)
    ensures Rewritten(ts, z, i, n, ts2, z2, items2)
  {
    hide ItemsAt;
  }

  lemma NotRewritten(ts: seq<Token>, z: bytes, i: nat, n: nat, items: seq<Item>)
    requires i < |ts| && ItemsAt(ts, z, i + 1, items, n)
    ensures Rewritten(ts, z, i, n, ts, z, items)
  {
    hide Items, ItemsAt;
    ItemsAtStep(ts, z, i + 1, items, n);
  }

  /** Rewriting the subnode that a name finds rewrites its parent. */
  lemma RewrittenSub(ts: seq<Token>, z: bytes, i: nat, items: seq<Item>, n: nat, s: bytes, ts': seq<Token>, z': bytes,
      inner: seq<Item>)
    requires i < |ts| && ItemsAt(ts, z, i + 1, items, n) && FindSub(ts, i + 1, 0, s).Some?
    requires var k := FindSub(ts, i + 1, 0, s).value; Rewritten(ts, z, k, InnerLen(ts, z, k), ts', z', inner)
    ensures FindItem(items, s).Some? && FindItem(items, s).value < |items| && items[FindItem(items, s).value].Sub?
    ensures var q := FindItem(items, s).value;
      Rewritten(ts, z, i, n, ts', z', items[q := Sub(Node(items[q].node.name, inner))])
  {
    hide Items, ItemsAt, StringAt, FindSub, FindItem, NameEq, Run;
    FindSubItem(ts, z, i + 1, items, n, s);
    var k, q := FindSub(ts, i + 1, 0, s).value, FindItem(items, s).value;
    var m := InnerLen(ts, z, k);
    var m' := m + |ts'| - |ts|;
    assert z + z'[|z|..] == z';
    ItemsAtAppend(ts, z, z'[|z|..], i + 1, items, n);
    ItemsAtAppend(ts, z, z'[|z|..], k + 1, items[q].node.items, m);
    SameInner(ts, z', k, items[q].node.items, m);
    SamePrefix(ts, ts', k + 1, k);
    NodeIsRun(ts', z', k, inner, m');
    EditSub(ts, z', i + 1, items, n, s, ts'[k..k + 1 + m'], [Sub(Node(ts[k].name, inner))]);
    Reassembled(ts, ts', k, m, m');
    assert items[..q] + [Sub(Node(ts[k].name, inner))] + items[q + 1..] == items[q := Sub(Node(ts[k].name, inner))];
    ItemsAtStep(ts, z, i + 1, items, n);
    AroundEdit(ts, i, n, k, k + 1 + m, ts'[k..k + 1 + m']);
  }

  /** Sizes and names of what a blob's tokens hold are what the editing functions can take. */
  lemma TokenSizes(b: Blob, ts: seq<Token>, k: nat)
    requires Streams(b, ts) && k < |ts|
    ensures ts[k].Prop? ==> IntSized(|ts[k].value|)
    ensures ts[k].BeginNode? ==> IntSized(|ts[k].name|) && NoNul(ts[k].name)
  {
    hide Streams, LenOf, ReadTag, Off;
    StreamsParts(b, ts);
    TokenHere(b, ts, k);
    OffInside(b, ts, k, k + 1);
    TokenBytes(RestOf(b, Off(ts, k)), ts[k]);
    RestLength(b, Off(ts, k));
  }

  lemma TokenBytes(s: bytes, t: Token)
    requires ReadTag(s) == Tok(t, TokLen(t))
    ensures t.BeginNode? ==> NoNul(t.name)
    ensures TokLen(t) < |s| + 4
  {
    ReadTagLength(s);
  }

  lemma StringSizes(b: Blob, ts: seq<Token>, k: nat)
    requires Streams(b, ts) && StringsPlaced(b) && b.offStrings >= FDT_V17_SIZE && StringAt(StringsOf(b), k).Some?
    ensures NoNul(StringAt(StringsOf(b), k).value) && IntSized(|StringAt(StringsOf(b), k).value|)
  {
    hide Streams;
    StreamsParts(b, ts);
    var z := StringsOf(b);
    var e := FindNul(z, k);
    forall j | 0 <= j < e - k ensures z[k..e][j] != 0 { }
  }

  /** A rewritten node is still where it was. */
  lemma PlaceKept(ts: seq<Token>, ts': seq<Token>, i: nat)
    requires i < |ts| && i < |ts'| && ts'[..i + 1] == ts[..i + 1]
    ensures ts'[i] == ts[i] && Off(ts', i) == Off(ts, i)
  {
    hide LenOf;
    assert ts'[i] == ts'[..i + 1][i] && ts[i] == ts[..i + 1][i];
    assert ts'[..i] == ts'[..i + 1][..i] && ts[..i] == ts[..i + 1][..i];
  }

  /** `fdt_getprop_by_offset`. */
  method GetPropByOffset(o: Blob, offset: nat, ghost us: seq<Token>, ghost k: nat) returns (name: bytes, value: bytes)
    requires Good(o, us) && k < |us| && us[k].Prop? && offset == Off(us, k) &&
      StringAt(StringsOf(o), us[k].nameoff).Some?
    ensures StringAt(StringsOf(o), us[k].nameoff) == Some(name) && value == us[k].value
    ensures NoNul(name) && IntSized(|name|) && IntSized(|value|)
  {
    hide Streams, LenOf, Off, StringAt, ReadTag, CheckHeader;
    DataFits(o, us);
    TokenHere(o, us, k);
    PropFields(o, offset);
    TokenSizes(o, us, k);
    StringsBehindHeader(o);
    StringSizes(o, us, us[k].nameoff);
    ValueThere(o, offset);
    var len := Load32(o.data, o.offStruct + offset + 4);
    var found, s, err := GetString(o, Load32(o.data, o.offStruct + offset + 8));
    return s, o.data[o.offStruct + offset + 12..o.offStruct + offset + 12 + len];
  }

  lemma StringsBehindHeader(o: Blob)
    requires o.version >= 17 && CheckHeader(o) == 0
    ensures o.offStrings >= FDT_V17_SIZE
  {
  }

  lemma ValueThere(o: Blob, offset: nat)
    requires Placed(o) && ReadTag(RestOf(o, offset)).Tok? && ReadTag(RestOf(o, offset)).t.Prop?
    ensures var v := ReadTag(RestOf(o, offset)).t.value;
      && offset + 12 + |v| <= o.sizeStruct
      && o.data[o.offStruct + offset + 12..o.offStruct + offset + 12 + |v|] == v
  {
    hide Load32;
    RestLength(o, offset);
    var v := ReadTag(RestOf(o, offset)).t.value;
    forall x | 0 <= x < |v| ensures o.data[o.offStruct + offset + 12 + x] == v[x] { RestIndex(o, offset, 12 + x); }
  }

  // ---------- room ----------

  lemma NoSuchProperty(b: Blob, ts: seq<Token>, z: bytes, i: nat, items: seq<Item>, n: nat)
    requires Streams(b, ts) && i < |ts| && ItemsAt(ts, z, i + 1, items, n)
    ensures LeadEnd(ts, i + 1) != |ts| - 1
  {
    hide Streams, Items, ItemsAt, StringAt;
    StreamsParts(b, ts);
    ItemsAtStep(ts, z, i + 1, items, n);
    LeadNotEnd(ts, z, i + 1, items, n);
  }

  /** The properties of a node end at another tag than the end tag of the block. */
  lemma {:induction false} LeadNotEnd(ts: seq<Token>, z: bytes, j: nat, items: seq<Item>, n: nat)
    requires ItemsAt(ts, z, j, items, n)
    ensures LeadEnd(ts, j) < |ts| && !ts[LeadEnd(ts, j)].End?
    decreases n
  {
    hide Items, ItemsAt, StringAt;
    ItemsAtStep(ts, z, j, items, n);
    if ts[j].Nop? { LeadNotEnd(ts, z, j + 1, items, n - 1); }
    else if ts[j].Prop? { LeadNotEnd(ts, z, j + 1, items[1..], n - 1); }
  }

  /** The bytes that setting the leading properties can add, names included. */
  function PropRoom(over: seq<Item>): nat {
    if over == [] || over[0].Sub? then 0
    else 12 + TagAlign(|over[0].value|) + |over[0].name| + 1 + PropRoom(over[1..])
  }

  /** The bytes that merging the subnodes can add. */
  function SubRoom(over: seq<Item>): nat
    decreases over, 0
  {
    if over == [] then 0 else SubRoomOf(over[0]) + SubRoom(over[1..])
  }

  function SubRoomOf(i: Item): nat
    decreases i, 1
  {
    match i
    case PropI(_, _) => 0
    case Sub(n) => 8 + TagAlign(|n.name| + 1) + PropRoom(n.items) + SubRoom(n.items)
  }

  /** The bytes that merging a node can add. */
  function Room(over: seq<Item>): nat { PropRoom(over) + SubRoom(over) }

  /** The names of the properties among these calls, each with its NUL. */
  function NameBytes(es: seq<Event>): nat {
    if es == [] then 0 else (if es[0].PropE? then |es[0].name| + 1 else 0) + NameBytes(es[1..])
  }

  /** That is no more than the structure block and the unshared names of the overlay's own items take. */
  lemma {:induction false} RoomBound(over: seq<Item>)
    ensures Room(over) <= StructSize(FlattenItems(over)) + NameBytes(FlattenItems(over))
    decreases over
  {
    hide TagAlign;
    if over != [] {
      var es := FlattenItem(over[0]);
      RoomBound(over[1..]);
      SizesConcat(es, FlattenItems(over[1..]));
      FlattenFirst(over);
      if over[0].PropI? {
        FlattenProp(over[0]);
        OneSize(es[0]);
        assert es == [es[0]];
      } else {
        var n := over[0].node;
        FlattenSub(n);
        assert n < over[0];
        RoomBound(n.items);
        SizesConcat([BeginE(n.name)], FlattenItems(n.items));
        SizesConcat([BeginE(n.name)] + FlattenItems(n.items), [EndE]);
        OneSize(BeginE(n.name));
        OneSize(EndE);
        assert SubRoom(over) == SubRoomOf(over[0]) + SubRoom(over[1..]);
      }
    }
  }

  lemma OneSize(e: Event)
    ensures StructSize([e]) == EventSize(e) && NameBytes([e]) == if e.PropE? then |e.name| + 1 else 0
  {
    assert [e][1..] == [];
  }

  lemma {:induction false} SizesConcat(a: seq<Event>, c: seq<Event>)
    ensures StructSize(a + c) == StructSize(a) + StructSize(c) && NameBytes(a + c) == NameBytes(a) + NameBytes(c)
    decreases |a|
  {
    if a == [] {
      assert a + c == c;
    } else {
      assert (a + c)[1..] == a[1..] + c;
      SizesConcat(a[1..], c);
    }
  }

  /** The blob may be edited, and so much more fits into it. */
  ghost predicate HasRoom(b: Blob, n: nat) {
    Ordered(b) && DataSize(b) + n <= b.totalsize
  }

  /** Setting a property adds at most the property and its name. */
  lemma GrowthBound(ts: seq<Token>, z: bytes, i: nat, name: bytes, value: bytes)
    ensures SetGrowth(ts, z, i, name, value) <= 12 + TagAlign(|value|) + |name| + 1
  {
    hide FindProp, Shared;
  }

  /** The version plays no part. */
  lemma RoomVersion(b: Blob, b': Blob, n: nat)
    requires b' == b.(version := b'.version, data := b'.data)
    ensures HasRoom(b', n) == HasRoom(b, n) && DataSize(b') == DataSize(b)
  {
  }

  lemma {:induction false} DropRoom(over: seq<Item>)
    ensures SubRoom(DropProps(over)) == SubRoom(over)
    ensures DropProps(over) != [] && DropProps(over)[0].Sub? ==>
      var n := DropProps(over)[0].node;
      SubRoom(over) == 8 + TagAlign(|n.name| + 1) + Room(n.items) + SubRoom(DropProps(over)[1..])
  {
    if over != [] && over[0].PropI? { DropRoom(over[1..]); }
  }

  // ---------- overlay_apply_node ----------

  /** The first loop of `overlay_apply_node`: the properties. */
  method ApplyProps(d: RwBlob, target: int, o: Blob, node: int, ghost i: nat, ghost items: seq<Item>, ghost n: nat,
      ghost us: seq<Token>, ghost g: nat, ghost over: seq<Item>, ghost m: nat)
    returns (err: int, ghost items': seq<Item>)
    requires d.Valid() && i < |d.tokens| && d.tokens[i].BeginNode? && target == Off(d.tokens, i)
    requires ItemsAt(d.tokens, d.Strings(), i + 1, items, n)
    requires Good(o, us) && g < |us| && us[g].BeginNode? && node == Off(us, g) &&
      ItemsAt(us, StringsOf(o), g + 1, over, m)
    modifies d`version, d`sizeStruct, d`offStrings, d`sizeStrings, d`tokens, d.buf
    ensures d.Valid() && d.buf[..d.offStruct] == old(d.buf[..d.offStruct])
    ensures Rewritten(old(d.tokens), old(d.Strings()), i, n, d.tokens, d.Strings(), items')
    ensures err == 0 ==> items' == SetProps(items, over)
    ensures HasRoom(old(d.View()), PropRoom(over)) ==>
      err == 0 && Ordered(d.View()) && DataSize(d.View()) <= old(DataSize(d.View())) + PropRoom(over)
  {
    hide Streams, LenOf, Off, StringAt, Items, ItemsAt, Good, Rewritten, NextProp, FindProp, LeadEnd, SetItem,
      SetGrowth, PropSet, Ordered, StringsOf, TagAlign;
    ghost var b0, most := d.View(), DataSize(d.View()) + PropRoom(over);
    DataFits(o, us);
    DataFits(d.View(), d.tokens);
    ghost var ts, z, oz := d.tokens, d.Strings(), StringsOf(o);
    NotRewritten(ts, z, i, n, items);
    var tag, next := TagAt(o, node, us, g);
    NotLast(us, g, o);
    var property := NextPropFrom(o, next, us, g + 1);
    ghost var h, rest, mm := g + 1, over, m;
    err, items' := 0, items;
    while property >= 0
      invariant d.Valid() && d.buf[..d.offStruct] == old(d.buf[..d.offStruct])
      invariant Rewritten(ts, z, i, n, d.tokens, d.Strings(), items')
      invariant h < |us| && mm >= 0 && ItemsAt(us, oz, h, rest, mm) && SetProps(items', rest) == SetProps(items, over)
      invariant HasRoom(b0, PropRoom(over)) ==>
        err == 0 && Ordered(d.View()) && DataSize(d.View()) + PropRoom(rest) <= most <= d.totalsize
      invariant match NextProp(us, h)
        case Some(k) => k < |us| && us[k].Prop? && property == Off(us, k)
        case None => property < 0
      decreases |us| - h
    {
      NextPropItem(us, oz, h, rest, mm);
      ghost var k := NextProp(us, h).value;
      var name, value := GetPropByOffset(o, property, us, k);
      ghost var ts1, z1, n1 := d.tokens, d.Strings(), n + |d.tokens| - |ts|;
      RewrittenPlace(ts, z, i, n, ts1, z1, items');
      GrowthBound(ts1, z1, i, name, value);
      DataFits(d.View(), ts1);
      NoSuchProperty(d.View(), ts1, z1, i, items', n1);
      err := d.SetProp(target, name, value, i);
      if err != 0 {
        return;
      }
      SetPropRefines(ts1, z1, i, items', n1, name, value, d.tokens, d.Strings());
      RewrittenTwice(ts, z, i, n, ts1, z1, items', d.tokens, d.Strings(), SetItem(items', name, value));
      items' := SetItem(items', name, value);
      tag, next := TagAt(o, property, us, k);
      NotLast(us, k, o);
      property := NextPropFrom(o, next, us, k + 1);
      mm := mm - (k - h) - 1;
      h, rest := k + 1, rest[1..];
    }
    NextPropItem(us, oz, h, rest, mm);
  }

  lemma RewrittenPlace(ts: seq<Token>, z: bytes, i: nat, n: nat, ts': seq<Token>, z': bytes, items': seq<Item>)
    requires Rewritten(ts, z, i, n, ts', z', items')
    ensures i < |ts| && i < |ts'| && ts'[i] == ts[i] && Off(ts', i) == Off(ts, i)
    ensures n + |ts'| >= |ts| && ItemsAt(ts', z', i + 1, items', n + |ts'| - |ts|)
  {
    hide LenOf, ItemsAt, Off;
    PlaceKept(ts, ts', i);
  }

  /** `overlay_apply_node`: merges the overlay node at token `g` into the base node at token `i`. Everything in front
      of and behind the items of the base node stays as it is, whatever the outcome, so the offsets that the
      enclosing calls hold stay good. With room for all that the overlay can add it succeeds. */
  method ApplyNode(d: RwBlob, target: int, o: Blob, node: int, ghost i: nat, ghost items: seq<Item>, ghost n: nat,
      ghost us: seq<Token>, ghost g: nat, ghost over: seq<Item>, ghost m: nat)
    returns (err: int, ghost items': seq<Item>)
    requires d.Valid() && i < |d.tokens| && d.tokens[i].BeginNode? && target == Off(d.tokens, i)
    requires ItemsAt(d.tokens, d.Strings(), i + 1, items, n)
    requires Good(o, us) && g < |us| && us[g].BeginNode? && node == Off(us, g) &&
      ItemsAt(us, StringsOf(o), g + 1, over, m)
    modifies d`version, d`sizeStruct, d`offStrings, d`sizeStrings, d`tokens, d.buf
    ensures d.Valid() && d.buf[..d.offStruct] == old(d.buf[..d.offStruct])
    ensures Rewritten(old(d.tokens), old(d.Strings()), i, n, d.tokens, d.Strings(), items')
    ensures err == 0 ==> items' == Merge(items, over)
    ensures HasRoom(old(d.View()), Room(over)) ==>
      err == 0 && Ordered(d.View()) && DataSize(d.View()) <= old(DataSize(d.View())) + Room(over)
    decreases m, 1
  {
    hide Streams, LenOf, Off, StringAt, Items, ItemsAt, Good, Rewritten, StringsOf, SetProps, MergeSubs, Ordered,
      PropRoom, SubRoom;
    DataFits(d.View(), d.tokens);
    ghost var ts, z := d.tokens, d.Strings();
    err, items' := ApplyProps(d, target, o, node, i, items, n, us, g, over, m);
    if err != 0 {
      return;
    }
    ghost var ts1, z1, n1 := d.tokens, d.Strings(), n + |d.tokens| - |ts|;
    RewrittenPlace(ts, z, i, n, ts1, z1, items');
    ghost var items1 := items';
    err, items' := ApplySubs(d, target, o, node, i, items1, n1, us, g, over, m);
    RewrittenTwice(ts, z, i, n, ts1, z1, items1, d.tokens, d.Strings(), items');
  }

  /** The second loop of `overlay_apply_node`: the subnodes. */
  method ApplySubs(d: RwBlob, target: int, o: Blob, node: int, ghost i: nat, ghost items: seq<Item>, ghost n: nat,
      ghost us: seq<Token>, ghost g: nat, ghost over: seq<Item>, ghost m: nat)
    returns (err: int, ghost items': seq<Item>)
    requires d.Valid() && i < |d.tokens| && d.tokens[i].BeginNode? && target == Off(d.tokens, i)
    requires ItemsAt(d.tokens, d.Strings(), i + 1, items, n)
    requires Good(o, us) && g < |us| && us[g].BeginNode? && node == Off(us, g) &&
      ItemsAt(us, StringsOf(o), g + 1, over, m)
    modifies d`version, d`sizeStruct, d`offStrings, d`sizeStrings, d`tokens, d.buf
    ensures d.Valid() && d.buf[..d.offStruct] == old(d.buf[..d.offStruct])
    ensures Rewritten(old(d.tokens), old(d.Strings()), i, n, d.tokens, d.Strings(), items')
    ensures err == 0 ==> items' == MergeSubs(items, over)
    ensures HasRoom(old(d.View()), SubRoom(over)) ==>
      err == 0 && Ordered(d.View()) && DataSize(d.View()) <= old(DataSize(d.View())) + SubRoom(over)
    decreases m, 0
  {
    hide Streams, LenOf, Off, StringAt, Items, ItemsAt, Good, Rewritten, NextSub, StringsOf, MergeSub, MergeSubs,
      Ordered, Room, SubRoom, TagAlign;
    ghost var b0, most := d.View(), DataSize(d.View()) + SubRoom(over);
    DataFits(o, us);
    DataFits(d.View(), d.tokens);
    ghost var ts, z, oz := d.tokens, d.Strings(), StringsOf(o);
    NotRewritten(ts, z, i, n, items);
    var subnode := FirstSubnode(o, node, us, g);
    ghost var h, rest, mm := g + 1, over, m;
    err, items' := 0, items;
    while subnode >= 0
      invariant d.Valid() && d.buf[..d.offStruct] == old(d.buf[..d.offStruct])
      invariant Rewritten(ts, z, i, n, d.tokens, d.Strings(), items')
      invariant h <= |us| && 0 <= mm <= m && ItemsAt(us, oz, h, rest, mm) &&
        MergeSubs(items', rest) == MergeSubs(items, over)
      invariant HasRoom(b0, SubRoom(over)) ==>
        err == 0 && Ordered(d.View()) && DataSize(d.View()) + SubRoom(rest) <= most <= d.totalsize
      invariant match NextSub(us, h, 0)
        case Some(k) => k < |us| && us[k].BeginNode? && subnode == Off(us, k)
        case None => subnode < 0
      decreases |us| - h
    {
      NextSubItem(us, oz, h, rest, mm);
      ghost var k := NextSub(us, h, 0).value;
      DroppedProps(items', rest);
      DropRoom(rest);
      mm, rest := mm - (k - h), DropProps(rest);
      ItemsAtStep(us, oz, k, rest, mm);
      ghost var x, inner := rest[0].node, Items(us[k + 1..], oz).value.1;
      ghost var ts1, z1, n1, items1 := d.tokens, d.Strings(), n + |d.tokens| - |ts|, items';
      RewrittenPlace(ts, z, i, n, ts1, z1, items');
      err, items' := ApplySub(d, target, o, subnode, i, items1, n1, us, k, x.items, inner);
      RewrittenTwice(ts, z, i, n, ts1, z1, items1, d.tokens, d.Strings(), items');
      if err != 0 {
        return;
      }
      NextSubSkips(us, oz, k + 1, x.items, inner, 0);
      subnode := NextSubnode(o, subnode, us, k);
      h, rest, mm := k + 1 + inner, rest[1..], mm - 1 - inner;
    }
    NextSubItem(us, oz, h, rest, mm);
    DroppedProps(items', rest);
  }

  lemma {:induction false} DroppedProps(base: seq<Item>, over: seq<Item>)
    ensures MergeSubs(base, DropProps(over)) == MergeSubs(base, over)
    ensures DropProps(over) == [] ==> MergeSubs(base, over) == base
    ensures DropProps(over) != [] ==>
      && DropProps(over)[0].Sub?
      && MergeSubs(base, over) == MergeSubs(MergeSub(base, DropProps(over)[0].node), DropProps(over)[1..])
    decreases |over|
  {
    hide MergeSub;
    if over != [] && over[0].PropI? { DroppedProps(base, over[1..]); }
  }

  /** The body of that loop: finds or adds the subnode of the base, and merges into it. */
  method ApplySub(d: RwBlob, target: int, o: Blob, subnode: int, ghost i: nat, ghost items: seq<Item>, ghost n: nat,
      ghost us: seq<Token>, ghost h: nat, ghost over: seq<Item>, ghost m: nat)
    returns (err: int, ghost items': seq<Item>)
    requires d.Valid() && i < |d.tokens| && d.tokens[i].BeginNode? && target == Off(d.tokens, i)
    requires ItemsAt(d.tokens, d.Strings(), i + 1, items, n)
    requires Good(o, us) && h < |us| && us[h].BeginNode? && subnode == Off(us, h) &&
      ItemsAt(us, StringsOf(o), h + 1, over, m)
    modifies d`version, d`sizeStruct, d`offStrings, d`sizeStrings, d`tokens, d.buf
    ensures d.Valid() && d.buf[..d.offStruct] == old(d.buf[..d.offStruct])
    ensures Rewritten(old(d.tokens), old(d.Strings()), i, n, d.tokens, d.Strings(), items')
    ensures err == 0 ==> items' == MergeSub(items, Node(us[h].name, over))
    ensures var most := 8 + TagAlign(|us[h].name| + 1) + Room(over);
      HasRoom(old(d.View()), most) ==>
        err == 0 && Ordered(d.View()) && DataSize(d.View()) <= old(DataSize(d.View())) + most
    decreases m, 2
  {
    hide Streams, LenOf, Off, StringAt, Items, ItemsAt, Good, Rewritten, StringsOf, Merge, FindSub, FindItem, LeadEnd,
      Ordered, HoleFilled, ReadTag, Room, TagAlign;
    DataFits(o, us);
    DataFits(d.View(), d.tokens);
    ghost var ts, z := d.tokens, d.Strings();
    NotRewritten(ts, z, i, n, items);
    TokenSizes(o, us, h);
    TokenHere(o, us, h);
    var name := NodeName(o, subnode);
    FindSubItem(ts, z, i + 1, items, n, name);
    AddSubnodeRefines(ts, z, i, items, n, name);
    err, items' := 0, items;
    ghost var b0 := d.View();
    var nnode := d.AddSubnode(target, name, i);
    ghost var ts1, items1, n1 := d.tokens, WithSub(items, name), n + |d.tokens| - |ts|;
    if nnode == -FDT_ERR_EXISTS {
      RoomVersion(b0, d.View(), Room(over));
      DataFits(d.View(), d.tokens);
      nnode := SubnodeOffset(d.View(), target, name, d.tokens, i);
      if nnode == -FDT_ERR_NOTFOUND {
        return -FDT_ERR_INTERNAL, items;
      }
    } else if nnode >= 0 {
      AddThenLookUp(ts, z, i, items, n, name);
      PlaceKeptBefore(ts, ts1, LeadEnd(ts, i + 1));
    }
    if nnode < 0 {
      return nnode, items;
    }
    RewrittenPlace(ts, z, i, n, ts1, z, items1);
    ghost var k, q := FindSub(ts1, i + 1, 0, name).value, FindItem(items1, name).value;
    FindSubItem(ts1, z, i + 1, items1, n1, name);
    ghost var inner;
    err, inner := ApplyNode(d, nnode, o, subnode, k, items1[q].node.items, InnerLen(ts1, z, k), us, h, over, m);
    RewrittenSub(ts1, z, i, items1, n1, name, d.tokens, d.Strings(), inner);
    items' := items1[q := Sub(Node(items1[q].node.name, inner))];
    RewrittenTwice(ts, z, i, n, ts1, z, items1, d.tokens, d.Strings(), items');
  }

  lemma PlaceKeptBefore(ts: seq<Token>, ts': seq<Token>, k: nat)
    requires k <= |ts| && k <= |ts'| && ts'[..k] == ts[..k]
    ensures Off(ts', k) == Off(ts, k)
  {
  }
}
