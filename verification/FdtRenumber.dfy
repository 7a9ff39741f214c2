/** The two passes of `fdt_overlay_apply` over the phandles of the overlay, in place in its blob. */
module FdtRenumber {
  import opened Words
  import opened FdtTokens
  import opened FdtStrings
  import opened FdtMemory
  import opened FdtBlob
  import opened FdtCheck
  import opened FdtRead
  import opened FdtTree
  import opened FdtLookup
  import opened FdtEdit
  import opened FdtItems
  import opened FdtSplice
  import opened FdtRw
  import opened FdtRwTree
  import opened FdtChildren
  import opened FdtOverlay
  import opened FdtPhandles

  // ---------- reading phandles ----------

  /** The value of the property that a lookup in the node at token `i` finds. */
  function PropValue(ts: seq<Token>, z: bytes, i: nat, name: bytes): Option<bytes> {
    match FindProp(ts, z, i + 1, name)
    case Some(k) => if k < |ts| && ts[k].Prop? then Some(ts[k].value) else None
    case None => None
  }

  function PhandleTok(ts: seq<Token>, z: bytes, i: nat): u32 {
    PhandleFrom(PropValue(ts, z, i, PHANDLE), PropValue(ts, z, i, LINUX_PHANDLE))
  }

  /** `fdt_get_phandle`. */
  method GetPhandle(b: Blob, node: int, ghost ts: seq<Token>, ghost i: nat) returns (r: u32)
    requires Good(b, ts) && i < |ts| && ts[i].BeginNode? && node == Off(ts, i)
    ensures var first, second := PropValue(ts, StringsOf(b), i, PHANDLE), PropValue(ts, StringsOf(b), i, LINUX_PHANDLE);
      r == if first.Some? && |first.value| == 4 then Load32(first.value, 0)
           else if second.Some? && |second.value| == 4 then Load32(second.value, 0) else 0
    ensures r == PhandleTok(ts, StringsOf(b), i)
  {
    hide Streams, CheckHeader, LenOf, Off, Good, FindProp, LeadEnd, Load32, StringAt;
    DataFits(b, ts);
    ghost var z := StringsOf(b);
    var found, offset, len := GetProperty(b, node, PHANDLE, ts, i);
    if !found || len != 4 {
      found, offset, len := GetProperty(b, node, LINUX_PHANDLE, ts, i);
      if !found || len != 4 {
        return 0;
      }
      WordThere(b, ts, FindProp(ts, z, i + 1, LINUX_PHANDLE).value, 0);
      return Load32(b.data, b.offStruct + offset + 12);
    }
    WordThere(b, ts, FindProp(ts, z, i + 1, PHANDLE).value, 0);
    return Load32(b.data, b.offStruct + offset + 12);
  }

  /** A word of the value of a property, where it lies in the blob. */
  lemma WordThere(b: Blob, ts: seq<Token>, k: nat, x: nat)
    requires Good(b, ts) && k < |ts| && ts[k].Prop? && x + 4 <= |ts[k].value|
    ensures b.offStruct + Off(ts, k) + 12 + x + 4 <= |b.data|
    ensures Load32(b.data, b.offStruct + Off(ts, k) + 12 + x) == Load32(ts[k].value, x)
  {
    hide Streams, CheckHeader, LenOf, Off, Load32, ReadTag;
    DataFits(b, ts);
    TokenHere(b, ts, k);
    ValueThere(b, Off(ts, k));
    Load32Shift(b.data, b.offStruct + Off(ts, k) + 12, ts[k].value, x);
  }

  /** `fdt_find_max_phandle`: no node of the blob has a larger phandle. */
  method FindMaxPhandle(b: Blob, ghost ts: seq<Token>) returns (max: u32)
    requires Good(b, ts)
    ensures forall k :: 0 <= k < |ts| && ts[k].BeginNode? ==> PhandleTok(ts, StringsOf(b), k) <= max
    ensures max == 0 || exists k :: 0 <= k < |ts| && ts[k].BeginNode? && PhandleTok(ts, StringsOf(b), k) == max
  {
    hide Streams, CheckHeader, LenOf, Off, Good, PhandleTok, NodesFrom, StringsOf;
    DataFits(b, ts);
    StreamsParts(b, ts);
    ghost var z := StringsOf(b);
    max := 0;
    var offset := -1;
    ghost var j := 0;
    while true
      invariant 0 <= j <= |ts|
      invariant offset >= 0 ==> 1 <= j && ts[j - 1].BeginNode? && offset == Off(ts, j - 1)
      invariant offset < 0 ==> j == 0
      invariant forall k :: 0 <= k < j && ts[k].BeginNode? ==> PhandleTok(ts, z, k) <= max
      invariant max == 0 || exists k :: 0 <= k < |ts| && ts[k].BeginNode? && PhandleTok(ts, z, k) == max
      decreases |ts| - j
    {
      NextNodeFrom(ts, j, 0);
      ghost var w := ScanNode(ts, j, 0, false);
      var depth;
      offset, depth := NextNode(b, offset, 0, false, ts, if j > 0 then j - 1 else 0);
      if offset < 0 {
        return;
      }
      var value := GetPhandle(b, offset, ts, w.k);
      if value > max {
        max := value;
      }
      j := w.k + 1;
    }
  }

  /** A walk that ignores depth stops at the next node and passes over none. */
  lemma {:induction false} NextNodeFrom(ts: seq<Token>, j: nat, depth: int)
    requires EndsOnce(ts)
    ensures match ScanNode(ts, j, depth, false)
      case NodeAt(k, _) => j <= k < |ts| && ts[k].BeginNode? && forall m :: j <= m < k ==> !ts[m].BeginNode?
      case Left(_, _) => false
      case NoMore(_) => forall m :: j <= m < |ts| ==> !ts[m].BeginNode?
    decreases |ts| - j
  {
    if j < |ts| {
      if ts[j].EndNode? { NextNodeFrom(ts, j + 1, depth - 1); }
      else if !ts[j].BeginNode? && !ts[j].End? { NextNodeFrom(ts, j + 1, depth); }
    }
  }

  lemma PhandleTokItems(ts: seq<Token>, z: bytes, i: nat, items: seq<Item>, n: nat)
    requires ItemsAt(ts, z, i + 1, items, n)
    ensures PhandleTok(ts, z, i) == PhandleOf(items)
  {
    hide Items, ItemsAt, StringAt, FindProp, Load32;
    FindPropItem(ts, z, i + 1, items, n, PHANDLE);
    FindPropItem(ts, z, i + 1, items, n, LINUX_PHANDLE);
  }

  /** A bound on the phandles of the tokens is a bound on the phandles of the tree. */
  lemma {:induction false} BoundBelow(ts: seq<Token>, z: bytes, j: nat, items: seq<Item>, n: nat, max: u32)
    requires ItemsAt(ts, z, j, items, n) && forall k :: 0 <= k < |ts| && ts[k].BeginNode? ==>
      PhandleTok(ts, z, k) <= max
    ensures forall x :: 0 <= x < |PhandlesBelow(items)| ==> PhandlesBelow(items)[x] <= max
    decreases n
  {
    hide Items, ItemsAt, StringAt, PhandleTok, PhandleOf;
    ItemsAtStep(ts, z, j, items, n);
    if ts[j].BeginNode? {
      var m := Items(ts[j + 1..], z).value.1;
      PhandleTokItems(ts, z, j, items[0].node.items, m);
      BoundBelow(ts, z, j + 1, items[0].node.items, m, max);
      BoundBelow(ts, z, j + 1 + m, items[1..], n - 1 - m, max);
      assert PhandlesIn(items[0]) == [PhandleOf(items[0].node.items)] + PhandlesBelow(items[0].node.items);
      assert PhandlesBelow(items) == PhandlesIn(items[0]) + PhandlesBelow(items[1..]);
    } else if ts[j].Nop? {
      BoundBelow(ts, z, j + 1, items, n - 1, max);
    } else if ts[j].Prop? {
      BoundBelow(ts, z, j + 1, items[1..], n - 1, max);
    }
  }

  /** So what `fdt_find_max_phandle` answers bounds every phandle of the tree under a node. */
  lemma BoundInTree(ts: seq<Token>, z: bytes, i: nat, items: seq<Item>, n: nat, max: u32)
    requires i < |ts| && ts[i].BeginNode? && ItemsAt(ts, z, i + 1, items, n)
    requires forall k :: 0 <= k < |ts| && ts[k].BeginNode? ==> PhandleTok(ts, z, k) <= max
    ensures forall x :: 0 <= x < |Phandles(items)| ==> Phandles(items)[x] <= max
  {
    hide ItemsAt, PhandleTok, PhandleOf;
    PhandleTokItems(ts, z, i, items, n);
    BoundBelow(ts, z, i + 1, items, n, max);
  }

  /** The phandle of every node inside a run of items is among those of the items. */
  lemma {:induction false} PhandleBelow(ts: seq<Token>, z: bytes, j: nat, items: seq<Item>, n: nat, k: nat)
    requires ItemsAt(ts, z, j, items, n) && j <= k < j + n && k < |ts| && ts[k].BeginNode?
    ensures PhandleTok(ts, z, k) in PhandlesBelow(items)
    decreases n
  {
    hide Items, ItemsAt, StringAt, PhandleTok, PhandleOf;
    ItemsAtStep(ts, z, j, items, n);
    if ts[j].BeginNode? {
      var m := Items(ts[j + 1..], z).value.1;
      assert PhandlesIn(items[0]) == [PhandleOf(items[0].node.items)] + PhandlesBelow(items[0].node.items);
      assert PhandlesBelow(items) == PhandlesIn(items[0]) + PhandlesBelow(items[1..]);
      if k == j {
        PhandleTokItems(ts, z, j, items[0].node.items, m);
      } else if k < j + 1 + m {
        PhandleBelow(ts, z, j + 1, items[0].node.items, m, k);
      } else {
        PhandleBelow(ts, z, j + 1 + m, items[1..], n - 1 - m, k);
      }
    } else if ts[j].Nop? {
      PhandleBelow(ts, z, j + 1, items, n - 1, k);
    } else if ts[j].Prop? {
      PhandleBelow(ts, z, j + 1, items[1..], n - 1, k);
    }
  }

  /** So the largest phandle of a blob is a phandle of its tree, when the tree has all the nodes of the blob. */
  lemma MaxInTree(ts: seq<Token>, z: bytes, i: nat, items: seq<Item>, n: nat, max: u32)
    requires i < |ts| && ts[i].BeginNode? && ItemsAt(ts, z, i + 1, items, n)
    requires forall k :: 0 <= k < |ts| && ts[k].BeginNode? ==> i <= k < i + 1 + n
    requires max == 0 || exists k :: 0 <= k < |ts| && ts[k].BeginNode? && PhandleTok(ts, z, k) == max
    requires forall k :: 0 <= k < |ts| && ts[k].BeginNode? ==> PhandleTok(ts, z, k) <= max
    ensures max in Phandles(items)
  {
    hide ItemsAt, PhandleTok, PhandleOf, PhandlesBelow;
    PhandleTokItems(ts, z, i, items, n);
    assert Phandles(items) == [PhandleOf(items)] + PhandlesBelow(items);
    if max > 0 {
      var k :| 0 <= k < |ts| && ts[k].BeginNode? && PhandleTok(ts, z, k) == max;
      if k > i { PhandleBelow(ts, z, i + 1, items, n, k); }
    }
  }

  // ---------- writing a word of a value ----------

  lemma PatchedChunk(c: bytes, off: u32, v: bytes, x: nat, w: u32)
    requires Encodes(c, Prop(off, v)) && x + 4 <= |v|
    ensures 12 + |v| <= |c| && Encodes(Splat(c, 12 + x, Enc32(w)), Prop(off, Splat(v, x, Enc32(w))))
  {
    hide Load32, Enc32;
    var r := Splat(c, 12 + x, Enc32(w));
    ChunkParts(c, off, v);
    Load32Local(c, r, 0);
    Load32Local(c, r, 4);
    Load32Local(c, r, 8);
    SplatInside(c, 12, |v|, x, Enc32(w));
    PropChunk(r, off, Splat(v, x, Enc32(w)));
  }

  lemma ChunkParts(c: bytes, off: u32, v: bytes)
    requires Encodes(c, Prop(off, v))
    ensures |c| == 12 + TagAlign(|v|) && |v| < TWO32
    ensures Load32(c, 0) == FDT_PROP && Load32(c, 4) == |v| && Load32(c, 8) == off && c[12..12 + |v|] == v
  {
    AlignFour(|v|);
  }

  lemma SplatWhole(s: bytes, s': bytes, p: nat, n: nat)
    requires p + n <= |s| == |s'| && s'[..p] == s[..p] && s'[p + n..] == s[p + n..]
    ensures s' == Splat(s, p, s'[p..p + n])
  {
    assert s' == s'[..p] + s'[p..p + n] + s'[p + n..];
  }

  lemma PatchedGood(b: Blob, b': Blob, ts: seq<Token>, k: nat, x: nat, w: u32)
    requires Good(b, ts) && StringsApart(b) && k < |ts| && ts[k].Prop? && x + 4 <= |ts[k].value|
    requires b.offStruct + Off(ts, k) + 12 + x + 4 <= |b.data|
    requires b' == b.(data := Splat(b.data, b.offStruct + Off(ts, k) + 12 + x, Enc32(w)))
    ensures Good(b', ts[k := Prop(ts[k].nameoff, Splat(ts[k].value, x, Enc32(w)))]) && StringsApart(b') &&
      StringsOf(b') == StringsOf(b)
  {
    hide Decodes, LenOf, CheckHeader, Encodes, Splat, Spliced, Streams, StringsOf, TagAlign, Off, Enc32;
    PropPlace(b, ts, k);
    var p := b.offStruct + Off(ts, k);
    var n := 12 + TagAlign(|ts[k].value|);
    var t := Prop(ts[k].nameoff, Splat(ts[k].value, x, Enc32(w)));
    PatchedChunk(b.data[p..p + n], ts[k].nameoff, ts[k].value, x, w);
    SplatInside(b.data, p, n, 12 + x, Enc32(w));
    var c := b'.data[p..p + n];
    DecodesOne(c, t);
    SplatWhole(b.data, b'.data, p, n);
    InPlaceGood(b, b', ts, k, k + 1, c, [t]);
    assert ts[..k] + [t] + ts[k + 1..] == ts[k := t];
  }

  /** `fdt32_st` into a property value. */
  method PutWord(d: RwBlob, offset: nat, x: nat, w: u32, ghost k: nat)
    requires d.Valid() && StringsApart(d.View()) && k < |d.tokens| && d.tokens[k].Prop? && offset == Off(d.tokens, k)
    requires x + 4 <= |d.tokens[k].value|
    modifies d`tokens, d.buf
    ensures d.Valid() && StringsApart(d.View()) && d.Strings() == old(d.Strings())
    ensures d.tokens == old(d.tokens)[k := Prop(old(d.tokens)[k].nameoff, Splat(old(d.tokens)[k].value, x, Enc32(w)))]
  {
    hide Streams, CheckHeader, Good, LenOf, Off, Load32, Splat, Enc32, StringsApart, StringsOf;
    ghost var b, ts := d.View(), d.tokens;
    WordThere(b, ts, k, x);
    Memcpy(d.buf, d.offStruct + offset + 12 + x, Enc32(w));
    d.tokens := ts[k := Prop(ts[k].nameoff, Splat(ts[k].value, x, Enc32(w)))];
    PatchedGood(b, d.View(), ts, k, x, w);
  }

  // ---------- the first pass ----------

  /** A node rewritten in place: no token and no string has moved. */
  ghost predicate InPlace(ts: seq<Token>, z: bytes, i: nat, n: nat, ts': seq<Token>, z': bytes, items': seq<Item>) {
    Rewritten(ts, z, i, n, ts', z', items') && |ts'| == |ts| && z' == z
  }

  lemma InPlaceTwice(ts: seq<Token>, z: bytes, i: nat, n: nat, ts1: seq<Token>, items1: seq<Item>, ts2: seq<Token>,
      items2: seq<Item>)
    requires InPlace(ts, z, i, n, ts1, z, items1) && InPlace(ts1, z, i, n, ts2, z, items2)
    ensures InPlace(ts, z, i, n, ts2, z, items2)
  {
    hide Rewritten;
    RewrittenTwice(ts, z, i, n, ts1, z, items1, ts2, z, items2);
  }

  lemma ShiftedInPlace(ts: seq<Token>, z: bytes, i: nat, items: seq<Item>, n: nat, name: bytes, k: nat, delta: u32)
    requires i < |ts| && ItemsAt(ts, z, i + 1, items, n) && FindProp(ts, z, i + 1, name) == Some(k)
    requires CanShiftProp(items, name, delta)
    ensures k < |ts| && ts[k].Prop? && |ts[k].value| == 4
    ensures var w := Load32(ts[k].value, 0) + delta;
      && w < TWO32 && GetItem(items, name) == Some(ts[k].value)
      && InPlace(ts, z, i, n, ts[k := Prop(ts[k].nameoff, Splat(ts[k].value, 0, Enc32(w)))], z,
        ShiftProp(items, name, delta))
  {
    hide Items, ItemsAt, StringAt, FindProp, Load32, Enc32, ReplaceItem, Rewritten;
    FindPropItem(ts, z, i + 1, items, n, name);
    var w := Load32(ts[k].value, 0) + delta;
    WholeWord(ts[k].value, w);
    ResizeRefines(ts, z, i, items, n, name, Enc32(w), k);
  }

  lemma WholeWord(v: bytes, w: u32)
    requires |v| == 4
    ensures Splat(v, 0, Enc32(w)) == Enc32(w)
  {
  }

  /** `overlay_phandle_add_offset`. */
  method PhandleAddOffset(d: RwBlob, node: int, name: bytes, delta: u32, ghost i: nat, ghost items: seq<Item>,
      ghost n: nat)
    returns (err: int)
    requires d.Valid() && StringsApart(d.View()) && i < |d.tokens| && d.tokens[i].BeginNode? && node == Off(d.tokens, i)
    requires ItemsAt(d.tokens, d.Strings(), i + 1, items, n)
    modifies d`tokens, d.buf
    ensures d.Valid() && StringsApart(d.View()) && d.Strings() == old(d.Strings())
    ensures match GetItem(items, name)
      case None => err == -FDT_ERR_NOTFOUND
      case Some(v) =>
        err == if |v| != 4 then -FDT_ERR_BADPHANDLE
               else if Load32(v, 0) + delta >= 0xffff_ffff then -FDT_ERR_NOPHANDLES else 0
    ensures err == 0 || err == -FDT_ERR_NOTFOUND <==> CanShiftProp(items, name, delta)
    ensures InPlace(old(d.tokens), old(d.Strings()), i, n, d.tokens, d.Strings(),
                    if CanShiftProp(items, name, delta) then ShiftProp(items, name, delta) else items)
  {
    hide Streams, CheckHeader, Good, LenOf, Off, Load32, Enc32, StringsApart, StringsOf, Items, ItemsAt, StringAt,
      FindProp, LeadEnd, Rewritten, Splat;
    ghost var b, ts, z := d.View(), d.tokens, d.Strings();
    DataFits(b, ts);
    NotRewritten(ts, z, i, n, items);
    FindPropItem(ts, z, i + 1, items, n, name);
    var found, offset, len := GetProperty(d.View(), node, name, d.tokens, i);
    if !found {
      NoSuchProperty(b, ts, z, i, items, n);
      return len;
    }
    ghost var k := FindProp(ts, z, i + 1, name).value;
    if len != 4 {
      return -FDT_ERR_BADPHANDLE;
    }
    WordThere(b, ts, k, 0);
    var val := Load32(d.buf[..], d.offStruct + offset + 12);
    SumWraps(val, delta);
    if U32(val + delta) < val || U32(val + delta) == TWO32 - 1 {
      return -FDT_ERR_NOPHANDLES;
    }
    ShiftedInPlace(ts, z, i, items, n, name, k, delta);
    PutWord(d, offset, 0, U32(val + delta), k);
    return 0;
  }

  /** The two tests for overflow, taken together. */
  lemma SumWraps(val: u32, delta: u32)
    ensures U32(val + delta) < val || U32(val + delta) == TWO32 - 1 <==> val + delta >= TWO32 - 1
    ensures val + delta < TWO32 ==> U32(val + delta) == val + delta
  {
    WrapOnce(val + delta);
  }

  // ---------- a run of items already dealt with, and the rest ----------

  lemma RunConcat(a: seq<Token>, xs: seq<Item>, c: seq<Token>, ys: seq<Item>, z: bytes)
    requires Run(a, z, xs) && Run(c, z, ys)
    ensures Run(a + c, z, xs + ys)
  {
    hide Items, ItemsAt;
    var ts := a + c + [EndNode];
    var cs := c + [EndNode];
    assert ts[|a|..|a| + |c| + 1] == cs[0..|c| + 1];
    ItemsAtMove(cs, z, 0, ys, |c| + 1, ts, |a|);
    assert ts[0..|a|] == a;
    RunThen(a, z, xs, ts, 0, ys, |c| + 1);
    assert ts == (a + c) + [EndNode];
  }

  function LeadProps(items: seq<Item>): seq<Item> {
    if items == [] || items[0].Sub? then [] else [items[0]] + LeadProps(items[1..])
  }

  /** What lies before the next subnode is a run of properties. */
  lemma {:induction false} LeadRun(ts: seq<Token>, z: bytes, j: nat, items: seq<Item>, n: nat)
    requires ItemsAt(ts, z, j, items, n) && NextSub(ts, j, 0).Some?
    ensures var k := NextSub(ts, j, 0).value; j <= k <= |ts| && Run(ts[j..k], z, LeadProps(items))
    decreases n
  {
    hide Items, ItemsAt, StringAt, NextSub, Run;
    ItemsAtStep(ts, z, j, items, n);
    NextSubItem(ts, z, j, items, n);
    NextSubUnfold(ts, j, 0);
    var k := NextSub(ts, j, 0).value;
    if ts[j].BeginNode? {
      EmptyRun(ts, z, j);
    } else {
      var rest := if ts[j].Nop? then items else items[1..];
      NextSubItem(ts, z, j + 1, rest, n - 1);
      LeadRun(ts, z, j + 1, rest, n - 1);
      TokenRun(ts[j], z);
      var xs := if ts[j].Nop? then [] else [items[0]];
      if ts[j].Prop? { assert items[0] == PropI(StringAt(z, ts[j].nameoff).value, ts[j].value); }
      RunConcat([ts[j]], xs, ts[j + 1..k], LeadProps(rest), z);
      assert [ts[j]] + ts[j + 1..k] == ts[j..k];
      assert xs + LeadProps(rest) == LeadProps(items);
    }
  }

  lemma EmptyRun(ts: seq<Token>, z: bytes, j: nat)
    requires j <= |ts|
    ensures Run(ts[j..j], z, [])
  {
    hide Items, ItemsAt;
    RunNops(ts[j..j], z);
  }

  lemma TokenRun(t: Token, z: bytes)
    ensures t.Nop? ==> Run([t], z, [])
    ensures t.Prop? && StringAt(z, t.nameoff).Some? ==> Run([t], z, [PropI(StringAt(z, t.nameoff).value, t.value)])
  {
    hide Items, ItemsAt, StringAt;
    var c := [t, EndNode];
    EndAlone(c, z, 1);
    ItemsAtPut(c, z, 0, [], 1);
    assert [t] + [EndNode] == c;
    if t.Prop? && StringAt(z, t.nameoff).Some? {
      var x := PropI(StringAt(z, t.nameoff).value, t.value);
      assert [x] + [] == [x];
    }
  }

  /** `overlay_adjust_node_phandles`: it succeeds exactly when every phandle below the node can be shifted, and then all
      of them are. */
  method AdjustNode(d: RwBlob, node: int, delta: u32, ghost i: nat, ghost items: seq<Item>, ghost n: nat)
    returns (err: int, ghost items': seq<Item>)
    requires d.Valid() && StringsApart(d.View()) && i < |d.tokens| && d.tokens[i].BeginNode? && node == Off(d.tokens, i)
    requires ItemsAt(d.tokens, d.Strings(), i + 1, items, n)
    modifies d`tokens, d.buf
    ensures d.Valid() && StringsApart(d.View()) && d.Strings() == old(d.Strings())
    ensures InPlace(old(d.tokens), old(d.Strings()), i, n, d.tokens, d.Strings(), items')
    ensures err == 0 <==> AllGrow(items, delta)
    ensures err == 0 <==> CanShift(items, delta)
    ensures err == 0 ==> items' == ShiftNode(items, delta)
    decreases n, 1
  {
    hide Streams, CheckHeader, Good, LenOf, Off, StringsApart, StringsOf, Items, ItemsAt, InPlace, CanShiftProp,
      CanShiftSubs, ShiftProp, ShiftSubs, ShiftNode, AllGrow;
    CanShiftIff(items, delta);
    ghost var ts, z := d.tokens, d.Strings();
    ghost var ok1, ok2 := CanShiftProp(items, PHANDLE, delta), CanShiftProp(items, LINUX_PHANDLE, delta);
    err := PhandleAddOffset(d, node, PHANDLE, delta, i, items, n);
    if err != 0 && err != -FDT_ERR_NOTFOUND {
      return err, items;
    }
    ghost var items1, ts1 := ShiftProp(items, PHANDLE, delta), d.tokens;
    InPlaceItems(ts, z, i, n, ts1, items1);
    OtherProp(items, delta);
    err := PhandleAddOffset(d, node, LINUX_PHANDLE, delta, i, items1, n);
    ghost var items2, ts2 := ShiftProp(items1, LINUX_PHANDLE, delta), d.tokens;
    InPlaceTwice(ts, z, i, n, ts1, items1, ts2, if ok2 then items2 else items1);
    if err != 0 && err != -FDT_ERR_NOTFOUND {
      return err, items1;
    }
    InPlaceItems(ts, z, i, n, ts2, items2);
    PropsKeepSubs(items, delta);
    err, items' := AdjustSubs(d, node, delta, i, items2, n);
    InPlaceTwice(ts, z, i, n, ts2, items2, d.tokens, items');
    PropsBeforeSubs(items, delta);
    CanShiftUnfold(items, delta);
  }

  lemma CanShiftUnfold(items: seq<Item>, delta: u32)
    ensures CanShift(items, delta) <==>
      CanShiftProp(items, PHANDLE, delta) && CanShiftProp(items, LINUX_PHANDLE, delta) && CanShiftSubs(items, delta)
  {
  }

  lemma InPlaceItems(ts: seq<Token>, z: bytes, i: nat, n: nat, ts': seq<Token>, items': seq<Item>)
    requires InPlace(ts, z, i, n, ts', z, items')
    ensures i < |ts| == |ts'| && ts'[i] == ts[i] && Off(ts', i) == Off(ts, i) && ItemsAt(ts', z, i + 1, items', n)
  {
    hide ItemsAt, LenOf, Off;
    PlaceKept(ts, ts', i);
  }

  lemma OtherProp(items: seq<Item>, delta: u32)
    ensures CanShiftProp(ShiftProp(items, PHANDLE, delta), LINUX_PHANDLE, delta) <==>
      CanShiftProp(items, LINUX_PHANDLE, delta)
  {
    hide ShiftProp, Load32, Shifted;
    PhandleNames();
    ShiftPropGet(items, PHANDLE, delta, LINUX_PHANDLE);
  }

  lemma PropsKeepSubs(items: seq<Item>, delta: u32)
    ensures CanShiftSubs(ShiftProps(items, delta), delta) <==> CanShiftSubs(items, delta)
    ensures ShiftProps(items, delta) == ShiftProp(ShiftProp(items, PHANDLE, delta), LINUX_PHANDLE, delta)
  {
    hide CanShiftSubs;
    var v := GetItem(items, PHANDLE);
    if v.Some? { ReplaceCanShift(items, delta, PHANDLE, Shifted(v.value, delta)); }
    var items1 := ShiftProp(items, PHANDLE, delta);
    var w := GetItem(items1, LINUX_PHANDLE);
    if w.Some? { ReplaceCanShift(items1, delta, LINUX_PHANDLE, Shifted(w.value, delta)); }
  }

  /** The loop over the subnodes. */
  method AdjustSubs(d: RwBlob, node: int, delta: u32, ghost i: nat, ghost items: seq<Item>, ghost n: nat)
    returns (err: int, ghost items': seq<Item>)
    requires d.Valid() && StringsApart(d.View()) && i < |d.tokens| && d.tokens[i].BeginNode? && node == Off(d.tokens, i)
    requires ItemsAt(d.tokens, d.Strings(), i + 1, items, n)
    modifies d`tokens, d.buf
    ensures d.Valid() && StringsApart(d.View()) && d.Strings() == old(d.Strings())
    ensures InPlace(old(d.tokens), old(d.Strings()), i, n, d.tokens, d.Strings(), items')
    ensures err == 0 <==> CanShiftSubs(items, delta)
    ensures err == 0 ==> items' == ShiftSubs(items, delta)
    decreases n, 0
  {
    hide Streams, CheckHeader, Good, LenOf, Off, StringsApart, StringsOf, Items, ItemsAt, InPlace, CanShift,
      CanShiftSubs, ShiftSubs, ShiftNode, NextSub, Run, Midway, DropProps, LeadProps;
    ghost var ts, z := d.tokens, d.Strings();
    DataFits(d.View(), ts);
    StartMidway(ts, z, i, items, n);
    var child := FirstSubnode(d.View(), node, d.tokens, i);
    ghost var h: nat, done: seq<Item>, rest: seq<Item>, mm: nat := i + 1, [], items, n;
    err := 0;
    while child >= 0
      invariant d.Valid() && StringsApart(d.View()) && d.Strings() == z
      invariant Midway(ts, z, i, n, d.tokens, h, done, rest, mm) && mm <= n && h <= |d.tokens|
      invariant ShiftSubs(items, delta) == done + ShiftSubs(rest, delta)
      invariant CanShiftSubs(items, delta) == CanShiftSubs(rest, delta)
      invariant match NextSub(d.tokens, h, 0)
        case Some(k) => k < |d.tokens| && d.tokens[k].BeginNode? && child == Off(d.tokens, k)
        case None => child < 0
      decreases mm
    {
      ghost var ts1 := d.tokens;
      MidwayItems(ts, z, i, n, ts1, h, done, rest, mm);
      NextSubItem(ts1, z, h, rest, mm);
      ghost var k := NextSub(ts1, h, 0).value;
      ghost var x := DropProps(rest)[0].node;
      ChildAt(ts1, z, k, DropProps(rest), mm - (k - h));
      ghost var m := InnerLen(ts1, z, k);
      ghost var inner;
      err, inner := AdjustNode(d, child, delta, k, x.items, m);
      AfterChild(ts, z, i, n, ts1, h, done, rest, mm, k, m, d.tokens, inner);
      NextSubSkips(d.tokens, z, k + 1, inner, m, 0) by { InPlaceItems(ts1, z, k, m, d.tokens, inner); }
      ShiftOneMore(rest, delta);
      done := done + LeadProps(rest) + [Sub(Node(x.name, inner))];
      rest := DropProps(rest)[1..];
      mm := mm - (k - h) - 1 - m;
      h := k + 1 + m;
      if err != 0 {
        items' := done + rest;
        EndMidway(ts, z, i, n, d.tokens, h, done, rest, mm);
        return;
      }
      InPlaceItems(ts1, z, k, m, d.tokens, inner);
      DataFits(d.View(), d.tokens);
      child := NextSubnode(d.View(), child, d.tokens, k);
    }
    MidwayItems(ts, z, i, n, d.tokens, h, done, rest, mm);
    NextSubItem(d.tokens, z, h, rest, mm);
    ShiftNoMore(rest, delta);
    items' := done + rest;
    EndMidway(ts, z, i, n, d.tokens, h, done, rest, mm);
  }

  /** In the middle of the loop: the items up to token `h` have become `done`, the items from there on are `rest`. */
  ghost predicate Midway(ts: seq<Token>, z: bytes, i: nat, n: nat, ts': seq<Token>, h: nat, done: seq<Item>,
      rest: seq<Item>, mm: nat) {
    && i + 1 <= h && h + mm == i + 1 + n <= |ts| == |ts'|
    && ts'[..i + 1] == ts[..i + 1] && ts'[i + 1 + n..] == ts[i + 1 + n..]
    && Run(ts'[i + 1..h], z, done) && ItemsAt(ts', z, h, rest, mm)
  }

  lemma StartMidway(ts: seq<Token>, z: bytes, i: nat, items: seq<Item>, n: nat)
    requires i < |ts| && ItemsAt(ts, z, i + 1, items, n)
    ensures Midway(ts, z, i, n, ts, i + 1, [], items, n)
  {
    hide Items, ItemsAt, Run;
    ItemsAtStep(ts, z, i + 1, items, n);
    EmptyRun(ts, z, i + 1);
  }

  lemma MidwayItems(ts: seq<Token>, z: bytes, i: nat, n: nat, ts': seq<Token>, h: nat, done: seq<Item>, rest: seq<Item>,
      mm: nat)
    requires Midway(ts, z, i, n, ts', h, done, rest, mm)
    ensures ItemsAt(ts', z, h, rest, mm) && h + mm == i + 1 + n <= |ts'|
  {
  }

  lemma EndMidway(ts: seq<Token>, z: bytes, i: nat, n: nat, ts': seq<Token>, h: nat, done: seq<Item>, rest: seq<Item>,
      mm: nat)
    requires Midway(ts, z, i, n, ts', h, done, rest, mm)
    ensures InPlace(ts, z, i, n, ts', z, done + rest)
  {
    hide Items, ItemsAt, Run;
    ItemsAtStep(ts', z, h, rest, mm);
    RunThen(ts'[i + 1..h], z, done, ts', i + 1, rest, mm);
  }

  lemma ChildAt(ts: seq<Token>, z: bytes, k: nat, items: seq<Item>, n: nat)
    requires ItemsAt(ts, z, k, items, n) && k < |ts| && ts[k].BeginNode?
    ensures items != [] && items[0].Sub? && items[0].node.name == ts[k].name
    ensures ItemsAt(ts, z, k + 1, items[0].node.items, InnerLen(ts, z, k)) && 1 + InnerLen(ts, z, k) < n &&
      k + n <= |ts|
    ensures ItemsAt(ts, z, k + 1 + InnerLen(ts, z, k), items[1..], n - 1 - InnerLen(ts, z, k))
  {
    hide Items, ItemsAt;
    ItemsAtStep(ts, z, k, items, n);
  }

  /** One more subnode done. */
  lemma AfterChild(ts: seq<Token>, z: bytes, i: nat, n: nat, ts1: seq<Token>, h: nat, done: seq<Item>, rest: seq<Item>,
      mm: nat, k: nat, m: nat, ts2: seq<Token>, inner: seq<Item>)
    requires Midway(ts, z, i, n, ts1, h, done, rest, mm) && NextSub(ts1, h, 0) == Some(k) && k < |ts1| &&
      ts1[k].BeginNode?
    requires m == InnerLen(ts1, z, k) && InPlace(ts1, z, k, m, ts2, z, inner)
    ensures h <= k && k + 1 + m <= h + mm && DropProps(rest) != [] && DropProps(rest)[0].Sub?
    ensures Midway(ts, z, i, n, ts2, k + 1 + m,
      done + LeadProps(rest) + [Sub(Node(DropProps(rest)[0].node.name, inner))],
                   DropProps(rest)[1..], mm - (k - h) - 1 - m)
  {
    hide Items, ItemsAt, Run, NextSub, LeadProps, DropProps;
    NextSubItem(ts1, z, h, rest, mm);
    var tail := DropProps(rest);
    ChildAt(ts1, z, k, tail, mm - (k - h));
    LeadRun(ts1, z, h, rest, mm);
    RunConcat(ts1[i + 1..h], done, ts1[h..k], LeadProps(rest), z);
    assert ts1[i + 1..h] + ts1[h..k] == ts1[i + 1..k];
    SamePrefix(ts1, ts2, k + 1, k);
    NodeIsRun(ts2, z, k, inner, m);
    SlicesKept(ts1, ts2, i, k, m, i + 1 + n);
    RunConcat(ts1[i + 1..k], done + LeadProps(rest), ts2[k..k + 1 + m], [Sub(Node(ts1[k].name, inner))], z);
    assert ts2[i + 1..k] + ts2[k..k + 1 + m] == ts2[i + 1..k + 1 + m];
    var r := mm - (k - h) - 1 - m;
    SameTail(ts1, ts2, k + 1 + m, k + 1 + m, r);
    ItemsAtMove(ts1, z, k + 1 + m, tail[1..], r, ts2, k + 1 + m);
  }

  lemma SlicesKept(ts1: seq<Token>, ts2: seq<Token>, i: nat, k: nat, m: nat, e: nat)
    requires i < k && k + 1 + m <= e <= |ts1| == |ts2|
    requires ts2[..k + 1] == ts1[..k + 1] && ts2[k + 1 + m..] == ts1[k + 1 + m..]
    ensures ts2[..i + 1] == ts1[..i + 1] && ts2[i + 1..k] == ts1[i + 1..k] && ts2[e..] == ts1[e..]
  {
    assert ts2[..i + 1] == ts2[..k + 1][..i + 1] && ts1[..i + 1] == ts1[..k + 1][..i + 1];
    assert ts2[i + 1..k] == ts2[..k + 1][i + 1..k] && ts1[i + 1..k] == ts1[..k + 1][i + 1..k];
    assert ts2[e..] == ts2[k + 1 + m..][e - k - 1 - m..] && ts1[e..] == ts1[k + 1 + m..][e - k - 1 - m..];
  }

  lemma {:induction false} ShiftOneMore(rest: seq<Item>, delta: u32)
    requires DropProps(rest) != [] && DropProps(rest)[0].Sub?
    ensures var x, tail := DropProps(rest)[0].node, DropProps(rest)[1..];
      && ShiftSubs(rest, delta)
        == LeadProps(rest) + [Sub(Node(x.name, ShiftNode(x.items, delta)))] + ShiftSubs(tail, delta)
      && CanShiftSubs(rest, delta) == (CanShift(x.items, delta) && CanShiftSubs(tail, delta))
  {
    hide ShiftNode, CanShift;
    if rest[0].PropI? { ShiftOneMore(rest[1..], delta); }
  }

  lemma {:induction false} ShiftNoMore(rest: seq<Item>, delta: u32)
    requires DropProps(rest) == []
    ensures ShiftSubs(rest, delta) == rest && CanShiftSubs(rest, delta)
  {
    if rest != [] {
      ShiftNoMore(rest[1..], delta);
      assert rest == [rest[0]] + rest[1..];
    }
  }
}
