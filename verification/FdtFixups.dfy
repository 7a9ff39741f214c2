/** The second pass over the overlay: `overlay_update_local_references`, in place in its blob. */
module FdtFixups {
  import opened Words
  import opened FdtTokens
  import opened FdtStrings
  import opened FdtMemory
  import opened FdtBlob
  import opened FdtCheck
  import opened FdtRead
  import opened FdtTree
  import opened FdtLookup
  import opened FdtEdit
  import opened FdtItems
  import opened FdtSplice
  import opened FdtRw
  import opened FdtRwTree
  import opened FdtChildren
  import opened FdtOverlay
  import opened FdtMerge
  import opened FdtPhandles
  import opened FdtReferences
  import opened FdtRenumber
  import FdtPaths
  import FdtPathLookup

  const FIXUPS: bytes := Ascii("__local_fixups__")

  // ---------- edits that only change values ----------

  /** Only values of properties differ, and not in length. */
  predicate SameKinds(ts: seq<Token>, ts': seq<Token>) {
    && |ts'| == |ts|
    && forall k :: 0 <= k < |ts| ==> ts'[k] == ts[k] || (ts'[k].Prop? && ts[k].Prop? && |ts'[k].value| == |ts[k].value|)
  }

  /** So every token is where it was. */
  lemma {:induction false} SameKindsOff(ts: seq<Token>, ts': seq<Token>, k: nat)
    requires SameKinds(ts, ts') && k <= |ts|
    ensures Off(ts', k) == Off(ts, k)
  {
    hide LenOf;
    if k == 0 {
      assert ts'[..0] == ts[..0];
    } else {
      SameKindsOff(ts, ts', k - 1);
      assert ts'[..k] == ts'[..k - 1] + [ts'[k - 1]] && ts[..k] == ts[..k - 1] + [ts[k - 1]];
      LenOfConcat(ts'[..k - 1], [ts'[k - 1]]);
      LenOfConcat(ts[..k - 1], [ts[k - 1]]);
      LenOfOne(ts'[k - 1]);
      LenOfOne(ts[k - 1]);
    }
  }

  lemma SameKindsTwice(ts: seq<Token>, ts1: seq<Token>, ts2: seq<Token>)
    requires SameKinds(ts, ts1) && SameKinds(ts1, ts2)
    ensures SameKinds(ts, ts2)
  {
  }

  lemma {:induction false} FindSubSame(ts: seq<Token>, ts': seq<Token>, j: nat, d: nat, s: bytes)
    requires SameKinds(ts, ts')
    ensures FindSub(ts', j, d, s) == FindSub(ts, j, d, s)
    decreases |ts| - j
  {
    hide NameEq, FindSub;
    if j < |ts| {
      FindSubUnfold(ts, j, d, s);
      FindSubUnfold(ts', j, d, s);
      if ts[j].BeginNode? { FindSubSame(ts, ts', j + 1, d + 1, s); }
      else if !ts[j].EndNode? { FindSubSame(ts, ts', j + 1, d, s); }
      else if d > 0 { FindSubSame(ts, ts', j + 1, d - 1, s); }
    } else {
      NothingBeyond(ts, j, d, s);
      NothingBeyond(ts', j, d, s);
    }
  }

  lemma NothingBeyond(ts: seq<Token>, j: nat, d: nat, s: bytes)
    requires j >= |ts|
    ensures FindSub(ts, j, d, s) == None
  {
  }

  // ---------- where things lie ----------

  /** Properties come before the first subnode. */
  lemma {:induction false} PropsFirst(ts: seq<Token>, z: bytes, j: nat, name: bytes, s: bytes)
    ensures FindProp(ts, z, j, name).Some? ==> j <= FindProp(ts, z, j, name).value < LeadEnd(ts, j)
    ensures FindSub(ts, j, 0, s).Some? ==> LeadEnd(ts, j) <= FindSub(ts, j, 0, s).value
    ensures j <= LeadEnd(ts, j)
    decreases |ts| - j
  {
    hide NameEq, StringAt;
    FdtPathLookup.FindSubIsNode(ts, j, 0, s);
    if j < |ts| && (ts[j].Prop? || ts[j].Nop?) { PropsFirst(ts, z, j + 1, name, s); }
  }

  /** Two different subnodes of one node do not overlap. */
  lemma {:induction false} SiblingsApart(ts: seq<Token>, z: bytes, j: nat, items: seq<Item>, n: nat, s: bytes, t: bytes)
    requires ItemsAt(ts, z, j, items, n) && FindSub(ts, j, 0, s).Some? && FindSub(ts, j, 0, t).Some?
    ensures var k, f := FindSub(ts, j, 0, s).value, FindSub(ts, j, 0, t).value;
      && j <= k && j <= f && k + 1 + InnerLen(ts, z, k) < j + n && f + 1 + InnerLen(ts, z, f) < j + n
      && (k != f ==> k + 1 + InnerLen(ts, z, k) <= f || f + 1 + InnerLen(ts, z, f) <= k)
    decreases n
  {
    hide Items, ItemsAt, StringAt, NameEq, FindSub, FindItem, InnerLen, GetItem;
    ItemsAtStep(ts, z, j, items, n);
    FindSubItem(ts, z, j, items, n, s);
    FindSubItem(ts, z, j, items, n, t);
    FindSubUnfold(ts, j, 0, s);
    FindSubUnfold(ts, j, 0, t);
    if ts[j].BeginNode? {
      var m := Items(ts[j + 1..], z).value.1;
      SameInner(ts, z, j, items[0].node.items, m);
      SkipInside(ts, z, j + 1, items[0].node.items, m, 0, s);
      SkipInside(ts, z, j + 1, items[0].node.items, m, 0, t);
      if !NameEq(ts[j].name, s) { FindSubItem(ts, z, j + 1 + m, items[1..], n - 1 - m, s); }
      if !NameEq(ts[j].name, t) { FindSubItem(ts, z, j + 1 + m, items[1..], n - 1 - m, t); }
      if !NameEq(ts[j].name, s) && !NameEq(ts[j].name, t) {
        SiblingsApart(ts, z, j + 1 + m, items[1..], n - 1 - m, s, t);
      }
    } else if ts[j].Nop? {
      SiblingsApart(ts, z, j + 1, items, n - 1, s, t);
    } else if ts[j].Prop? {
      SiblingsApart(ts, z, j + 1, items[1..], n - 1, s, t);
    }
  }

  /** None of the fixups leads from the node at token `i` into the fixups node at token `f` itself. */
  ghost predicate NoneLeadsTo(ts: seq<Token>, i: nat, f: nat, fix: seq<Item>) {
    forall x :: 0 <= x < |fix| && fix[x].Sub? ==> FindSub(ts, i + 1, 0, fix[x].node.name) != Some(f)
  }

  /** Updates in the node at token `i` leave the fixups at token `f` alone: the two are apart, or the fixups node is a
      subnode that the fixups do not lead to. */
  ghost predicate Clear(ts: seq<Token>, z: bytes, i: nat, n: nat, f: nat, fm: nat, fix: seq<Item>) {
    || f + 1 + fm <= i || i + 1 + n <= f
    || (FindSub(ts, i + 1, 0, FIXUPS) == Some(f) && fm == InnerLen(ts, z, f) && NoneLeadsTo(ts, i, f, fix))
  }

  /** The tokens of the fixups node are what they were. */
  predicate Kept(ts: seq<Token>, ts': seq<Token>, f: nat, fm: nat) {
    f + 1 + fm <= |ts| == |ts'| && ts'[f..f + 1 + fm] == ts[f..f + 1 + fm]
  }

  lemma KeptTwice(ts: seq<Token>, ts1: seq<Token>, ts2: seq<Token>, f: nat, fm: nat)
    requires Kept(ts, ts1, f, fm) && Kept(ts1, ts2, f, fm)
    ensures Kept(ts, ts2, f, fm)
  {
  }

  lemma KeptItems(ts: seq<Token>, ts': seq<Token>, z: bytes, f: nat, fm: nat, h: nat, items: seq<Item>, n: nat)
    requires Kept(ts, ts', f, fm) && ItemsAt(ts, z, h, items, n) && f < h && h + n <= f + 1 + fm
    ensures ItemsAt(ts', z, h, items, n)
  {
    hide ItemsAt;
    forall x | h <= x < h + n ensures ts'[x] == ts[x] {
      assert ts'[x] == ts'[f..f + 1 + fm][x - f] && ts[x] == ts[f..f + 1 + fm][x - f];
    }
    ItemsAtMove(ts, z, h, items, n, ts', h);
  }

  /** An edit of one property of the node keeps the fixups. */
  lemma PropKeeps(ts: seq<Token>, z: bytes, i: nat, items: seq<Item>, n: nat, f: nat, fm: nat, fix: seq<Item>,
      name: bytes, k: nat, t: Token)
    requires ItemsAt(ts, z, i + 1, items, n) && FindProp(ts, z, i + 1, name) == Some(k) && k < |ts| && ts[k].Prop? &&
      t.Prop?
    requires |t.value| == |ts[k].value|
    requires Clear(ts, z, i, n, f, fm, fix) && f + 1 + fm <= |ts|
    ensures Kept(ts, ts[k := t], f, fm) && SameKinds(ts, ts[k := t])
  {
    hide Items, ItemsAt, StringAt, FindProp, FindSub, NoneLeadsTo;
    FindPropItem(ts, z, i + 1, items, n, name);
    PropsFirst(ts, z, i + 1, name, FIXUPS);
    var ts' := ts[k := t];
    forall x | f <= x < f + 1 + fm ensures ts'[x] == ts[x] { }
  }

  /** An edit inside a subnode that the fixups lead to keeps the fixups. */
  lemma SubKeeps(ts: seq<Token>, z: bytes, i: nat, items: seq<Item>, n: nat, f: nat, fm: nat, fix: seq<Item>, s: bytes,
      k: nat)
    requires ItemsAt(ts, z, i + 1, items, n) && FindSub(ts, i + 1, 0, s) == Some(k) && Clear(ts, z, i, n, f, fm, fix)
    requires (exists x :: 0 <= x < |fix| && fix[x].Sub? && fix[x].node.name == s)
    ensures f + 1 + fm <= k || k + 1 + InnerLen(ts, z, k) <= f
    ensures i < k && k + 1 + InnerLen(ts, z, k) < i + 1 + n
  {
    hide Items, ItemsAt, StringAt, FindSub, InnerLen;
    SiblingsApart(ts, z, i + 1, items, n, s, s);
    if !(f + 1 + fm <= i || i + 1 + n <= f) { SiblingsApart(ts, z, i + 1, items, n, s, FIXUPS); }
  }

  lemma ClearStays(ts: seq<Token>, ts': seq<Token>, z: bytes, i: nat, n: nat, f: nat, fm: nat, fix: seq<Item>,
      fitems: seq<Item>)
    requires Clear(ts, z, i, n, f, fm, fix) && SameKinds(ts, ts') && Kept(ts, ts', f, fm) &&
      ItemsAt(ts, z, f + 1, fitems, fm)
    ensures Clear(ts', z, i, n, f, fm, fix)
  {
    hide Items, ItemsAt, FindSub, SameKinds;
    FindSubSame(ts, ts', i + 1, 0, FIXUPS);
    forall x | 0 <= x < |fix| && fix[x].Sub?
      ensures FindSub(ts', i + 1, 0, fix[x].node.name) == FindSub(ts, i + 1, 0, fix[x].node.name)
    {
      FindSubSame(ts, ts', i + 1, 0, fix[x].node.name);
    }
    KeptItems(ts, ts', z, f, fm, f + 1, fitems, fm);
    SameInner(ts', z, f, fitems, fm);
  }

  /** Tokens changed only inside one node. */
  lemma OutsideKept(ts: seq<Token>, ts': seq<Token>, k: nat, m: nat, f: nat, fm: nat)
    requires |ts'| == |ts| && k + 1 + m <= |ts| && f + 1 + fm <= |ts|
    requires ts'[..k + 1] == ts[..k + 1] && ts'[k + 1 + m..] == ts[k + 1 + m..]
    requires f + 1 + fm <= k || k + 1 + m <= f
    ensures Kept(ts, ts', f, fm)
  {
    if f + 1 + fm <= k {
      assert ts'[f..f + 1 + fm] == ts'[..k + 1][f..f + 1 + fm] && ts[f..f + 1 + fm] == ts[..k + 1][f..f + 1 + fm];
    } else {
      var e := k + 1 + m;
      assert ts'[f..f + 1 + fm] == ts'[e..][f - e..f - e + 1 + fm] &&
        ts[f..f + 1 + fm] == ts[e..][f - e..f - e + 1 + fm];
    }
  }

  // ---------- one property ----------

  /** The inner loop: `delta` added to every listed word of the value of the property at token `k`. */
  method FixProperty(d: RwBlob, offset: nat, offs: bytes, delta: u32, ghost k: nat)
    requires d.Valid() && StringsApart(d.View()) && k < |d.tokens| && d.tokens[k].Prop? && offset == Off(d.tokens, k)
    requires |offs| % 4 == 0 && FixFrom(d.tokens[k].value, offs, 0, delta).Some?
    modifies d`tokens, d.buf
    ensures d.Valid() && StringsApart(d.View()) && d.Strings() == old(d.Strings())
    ensures d.tokens
      == old(d.tokens)[k := Prop(old(d.tokens)[k].nameoff, FixFrom(old(d.tokens)[k].value, offs, 0, delta).value)]
  {
    hide Streams, CheckHeader, Good, LenOf, Off, Load32, Enc32, Splat, StringsApart, StringsOf, FixFrom, U32;
    ghost var ts := d.tokens;
    for m := 0 to |offs| / 4
      invariant d.Valid() && StringsApart(d.View()) && d.Strings() == old(d.Strings())
      invariant |d.tokens| == |ts| && d.tokens[k].Prop? && d.tokens == ts[k := Prop(ts[k].nameoff, d.tokens[k].value)]
      invariant FixFrom(d.tokens[k].value, offs, m, delta) == FixFrom(ts[k].value, offs, 0, delta)
    {
      FixStep(d.tokens[k].value, offs, m, delta);
      var o := Load32(offs, 4 * m);
      SameOff(ts, d.tokens, k);
      WordThere(d.View(), d.tokens, k, o);
      var val := Load32(d.buf[..], d.offStruct + offset + 12 + o);
      PutWord(d, offset, o, U32(val + delta), k);
    }
    FixDone(d.tokens[k].value, offs, |offs| / 4, delta);
  }

  lemma FixStep(v: bytes, offs: bytes, m: nat, delta: u32)
    requires 4 * m + 4 <= |offs| && FixFrom(v, offs, m, delta).Some?
    ensures var o := Load32(offs, 4 * m);
      && o + 4 <= |v|
      && FixFrom(v, offs, m, delta) == FixFrom(Splat(v, o, Enc32(U32(Load32(v, o) + delta))), offs, m + 1, delta)
  {
    hide Load32, Enc32, Splat, U32;
  }

  lemma FixDone(v: bytes, offs: bytes, m: nat, delta: u32)
    requires 4 * m + 4 > |offs|
    ensures FixFrom(v, offs, m, delta) == Some(v)
  {
  }

  lemma SameOff(ts: seq<Token>, ts': seq<Token>, k: nat)
    requires k < |ts| == |ts'| && ts' == ts[k := ts'[k]]
    ensures Off(ts', k) == Off(ts, k)
  {
    hide LenOf;
    assert ts'[..k] == ts[..k];
  }

  lemma FixedInPlace(ts: seq<Token>, z: bytes, i: nat, items: seq<Item>, n: nat, name: bytes, k: nat, v: bytes)
    requires i < |ts| && ItemsAt(ts, z, i + 1, items, n) && FindProp(ts, z, i + 1, name) == Some(k)
    ensures k < |ts| && ts[k].Prop?
    ensures InPlace(ts, z, i, n, ts[k := Prop(ts[k].nameoff, v)], z, ReplaceItem(items, name, v))
  {
    hide Items, ItemsAt, StringAt, FindProp, ReplaceItem, Rewritten;
    FindPropItem(ts, z, i + 1, items, n, name);
    ResizeRefines(ts, z, i, items, n, name, v, k);
  }

  // ---------- a whole node ----------

  /** Everything the calls below keep. */
  ghost predicate Updating(ts: seq<Token>, z: bytes, i: nat, n: nat, f: nat, fm: nat, ts': seq<Token>, z': bytes,
      items': seq<Item>) {
    InPlace(ts, z, i, n, ts', z', items') && SameKinds(ts, ts') && Kept(ts, ts', f, fm)
  }

  lemma NothingUpdated(ts: seq<Token>, z: bytes, i: nat, items: seq<Item>, n: nat, f: nat, fm: nat)
    requires i < |ts| && ItemsAt(ts, z, i + 1, items, n) && f + 1 + fm <= |ts|
    ensures Updating(ts, z, i, n, f, fm, ts, z, items)
  {
    hide Items, ItemsAt, Rewritten;
    NotRewritten(ts, z, i, n, items);
  }

  lemma UpdatingTwice(ts: seq<Token>, z: bytes, i: nat, n: nat, f: nat, fm: nat, ts1: seq<Token>, items1: seq<Item>,
      ts2: seq<Token>, items2: seq<Item>)
    requires Updating(ts, z, i, n, f, fm, ts1, z, items1) && Updating(ts1, z, i, n, f, fm, ts2, z, items2)
    ensures Updating(ts, z, i, n, f, fm, ts2, z, items2)
  {
    hide InPlace, SameKinds, Kept;
    InPlaceTwice(ts, z, i, n, ts1, items1, ts2, items2);
    SameKindsTwice(ts, ts1, ts2);
    KeptTwice(ts, ts1, ts2, f, fm);
  }

  lemma UpdatingPlace(ts: seq<Token>, z: bytes, i: nat, n: nat, f: nat, fm: nat, ts': seq<Token>, items': seq<Item>,
      fix: seq<Item>)
    requires Updating(ts, z, i, n, f, fm, ts', z, items') && Clear(ts, z, i, n, f, fm, fix) &&
      ItemsAt(ts, z, f + 1, fix, fm)
    ensures i < |ts| == |ts'| && ts'[i] == ts[i] && Off(ts', i) == Off(ts, i) && ItemsAt(ts', z, i + 1, items', n)
    ensures Clear(ts', z, i, n, f, fm, fix) && ItemsAt(ts', z, f + 1, fix, fm) && f + 1 + fm <= |ts'|
  {
    hide InPlace, SameKinds, ItemsAt, Clear, Off, LenOf;
    InPlaceItems(ts, z, i, n, ts', items');
    ClearStays(ts, ts', z, i, n, f, fm, fix, fix);
    KeptItems(ts, ts', z, f, fm, f + 1, fix, fm);
  }

  /** The body of the first loop: one fixup property, looked up in the tree node and applied. */
  method UpdateOneProp(d: RwBlob, treeNode: int, name: bytes, offs: bytes, delta: u32, ghost i: nat,
      ghost items: seq<Item>, ghost n: nat, ghost f: nat, ghost fix: seq<Item>, ghost fm: nat)
    returns (err: int, ghost items': seq<Item>)
    requires d.Valid() && StringsApart(d.View()) && NoNul(name)
    requires i < |d.tokens| && d.tokens[i].BeginNode? && treeNode == Off(d.tokens, i) &&
      ItemsAt(d.tokens, d.Strings(), i + 1, items, n)
    requires Clear(d.tokens, d.Strings(), i, n, f, fm, fix) && f + 1 + fm <= |d.tokens|
    requires |offs| % 4 == 0 && GetItem(items, name).Some? ==> FixFrom(GetItem(items, name).value, offs, 0, delta).Some?
    modifies d`tokens, d.buf
    ensures d.Valid() && StringsApart(d.View()) && d.Strings() == old(d.Strings())
    ensures Updating(old(d.tokens), old(d.Strings()), i, n, f, fm, d.tokens, d.Strings(), items')
    ensures err == if |offs| % 4 == 0 && GetItem(items, name).Some? then 0 else -FDT_ERR_BADOVERLAY
    ensures err == 0 ==> items' == ReplaceItem(items, name, FixFrom(GetItem(items, name).value, offs, 0, delta).value)
  {
    hide Streams, CheckHeader, Good, LenOf, Off, StringsApart, StringsOf, Items, ItemsAt, Clear, FixFrom, StringAt,
      FindProp, LeadEnd, ReplaceItem, GetItem, Kept, SameKinds, InPlace;
    ghost var ts, z := d.tokens, d.Strings();
    DataFits(d.View(), ts);
    NothingUpdated(ts, z, i, items, n, f, fm);
    if |offs| % 4 != 0 {
      return -FDT_ERR_BADOVERLAY, items;
    }
    FindPropItem(ts, z, i + 1, items, n, name);
    NoSuchProperty(d.View(), ts, z, i, items, n);
    var found, offset, len := GetProperty(d.View(), treeNode, name, d.tokens, i);
    if !found {
      return if len == -FDT_ERR_NOTFOUND then -FDT_ERR_BADOVERLAY else len, items;
    }
    ghost var p := FindProp(ts, z, i + 1, name).value;
    FixProperty(d, offset, offs, delta, p);
    ghost var v := FixFrom(ts[p].value, offs, 0, delta).value;
    FixedInPlace(ts, z, i, items, n, name, p, v);
    PropKeeps(ts, z, i, items, n, f, fm, fix, name, p, Prop(ts[p].nameoff, v));
    return 0, ReplaceItem(items, name, v);
  }

  lemma UpdatingParts(ts: seq<Token>, z: bytes, i: nat, n: nat, f: nat, fm: nat, ts': seq<Token>, items': seq<Item>)
    requires Updating(ts, z, i, n, f, fm, ts', z, items')
    ensures InPlace(ts, z, i, n, ts', z, items') && SameKinds(ts, ts') && Kept(ts, ts', f, fm)
  {
  }

  /** After one fixup the others are where they were. */
  lemma FixupDone(ts: seq<Token>, z: bytes, i: nat, n: nat, f: nat, fm: nat, ts1: seq<Token>, items1: seq<Item>,
      ts2: seq<Token>, items2: seq<Item>, k: nat, rest: seq<Item>, m: nat)
    requires Updating(ts, z, i, n, f, fm, ts1, z, items1) && Updating(ts1, z, i, n, f, fm, ts2, z, items2)
    requires f <= k < f + 1 + fm && k < |ts1| && ItemsAt(ts1, z, k + 1, rest, m) && k + 1 + m <= f + 1 + fm
    ensures Updating(ts, z, i, n, f, fm, ts2, z, items2) && ItemsAt(ts2, z, k + 1, rest, m)
    ensures k < |ts2| && ts2[k] == ts1[k] && Off(ts2, k) == Off(ts1, k)
  {
    hide Updating, ItemsAt, LenOf, Off, Kept, SameKinds, InPlace;
    UpdatingTwice(ts, z, i, n, f, fm, ts1, items1, ts2, items2);
    UpdatingParts(ts1, z, i, n, f, fm, ts2, items2);
    KeptItems(ts1, ts2, z, f, fm, k + 1, rest, m);
    KeptLength(ts1, ts2, f, fm);
    KeptToken(ts1, ts2, f, fm, k);
  }

  lemma KeptLength(ts: seq<Token>, ts': seq<Token>, f: nat, fm: nat)
    requires Kept(ts, ts', f, fm)
    ensures f + 1 + fm <= |ts| == |ts'|
  {
  }

  /** The first loop of `overlay_update_local_node_references`: the fixups that are properties. */
  method UpdateNodeProps(d: RwBlob, treeNode: int, fixNode: int, delta: u32, ghost i: nat, ghost items: seq<Item>,
      ghost n: nat, ghost f: nat, ghost fix: seq<Item>, ghost fm: nat)
    returns (err: int, ghost items': seq<Item>)
    requires d.Valid() && StringsApart(d.View())
    requires i < |d.tokens| && d.tokens[i].BeginNode? && treeNode == Off(d.tokens, i) &&
      ItemsAt(d.tokens, d.Strings(), i + 1, items, n)
    requires f < |d.tokens| && d.tokens[f].BeginNode? && fixNode == Off(d.tokens, f) &&
      ItemsAt(d.tokens, d.Strings(), f + 1, fix, fm)
    requires Clear(d.tokens, d.Strings(), i, n, f, fm, fix) && UpdateProps(items, fix, delta) != OutOfBounds
    modifies d`tokens, d.buf
    ensures d.Valid() && StringsApart(d.View()) && d.Strings() == old(d.Strings())
    ensures Updating(old(d.tokens), old(d.Strings()), i, n, f, fm, d.tokens, d.Strings(), items')
    ensures err == 0 <==> UpdateProps(items, fix, delta).Updated?
    ensures err == 0 ==> UpdateProps(items, fix, delta) == Updated(items')
    ensures err != 0 ==> err == -FDT_ERR_BADOVERLAY
  {
    hide Streams, CheckHeader, Good, LenOf, Off, StringsApart, StringsOf, Items, ItemsAt, Clear, Updating, FixFrom,
      UpdateProps, StringAt, FindProp, NextProp, LeadEnd, ReplaceItem, GetItem, Kept, SameKinds, InPlace, RoProbe;
    ghost var ts, z := d.tokens, d.Strings();
    DataFits(d.View(), ts);
    ItemsAtStep(ts, z, f + 1, fix, fm);
    NothingUpdated(ts, z, i, items, n, f, fm);
    var tag, next := TagAt(d.View(), fixNode, d.tokens, f);
    NotLast(ts, f, d.View());
    var property := NextPropFrom(d.View(), next, d.tokens, f + 1);
    ghost var h: nat, rest: seq<Item>, mm: nat := f + 1, fix, fm;
    err, items' := 0, items;
    while property >= 0
      invariant d.Valid() && StringsApart(d.View()) && d.Strings() == z
      invariant Updating(ts, z, i, n, f, fm, d.tokens, z, items')
      invariant f < h < |d.tokens| && h + mm == f + 1 + fm && ItemsAt(d.tokens, z, h, rest, mm)
      invariant UpdateProps(items', rest, delta) == UpdateProps(items, fix, delta)
      invariant match NextProp(d.tokens, h)
        case Some(k) => k < |d.tokens| && d.tokens[k].Prop? && property == Off(d.tokens, k)
        case None => property < 0
      decreases mm
    {
      ghost var ts1 := d.tokens;
      DataFits(d.View(), ts1);
      UpdatingPlace(ts, z, i, n, f, fm, ts1, items', fix);
      NextPropItem(ts1, z, h, rest, mm);
      ghost var k := NextProp(ts1, h).value;
      var name, offs := GetPropByOffset(d.View(), property, d.tokens, k);
      FixupStep(items', rest, delta);
      ghost var items1;
      err, items1 := UpdateOneProp(d, treeNode, name, offs, delta, i, items', n, f, fix, fm);
      FixupDone(ts, z, i, n, f, fm, ts1, items', d.tokens, items1, k, rest[1..], mm - (k - h) - 1);
      items' := items1;
      if err != 0 {
        return;
      }
      DataFits(d.View(), d.tokens);
      tag, next := TagAt(d.View(), property, d.tokens, k);
      NotLast(d.tokens, k, d.View());
      property := NextPropFrom(d.View(), next, d.tokens, k + 1);
      mm := mm - (k - h) - 1;
      h, rest := k + 1, rest[1..];
    }
    NextPropItem(d.tokens, z, h, rest, mm);
    FixupStep(items', rest, delta);
  }

  /** A token inside the fixups node. */
  lemma KeptToken(ts: seq<Token>, ts': seq<Token>, f: nat, fm: nat, k: nat)
    requires Kept(ts, ts', f, fm) && SameKinds(ts, ts') && f <= k < f + 1 + fm
    ensures ts'[k] == ts[k] && Off(ts', k) == Off(ts, k)
  {
    hide LenOf;
    assert ts'[k] == ts'[f..f + 1 + fm][k - f] && ts[k] == ts[f..f + 1 + fm][k - f];
    SameKindsOff(ts, ts', k);
  }

  /** One step of the specification. */
  lemma FixupStep(items: seq<Item>, fix: seq<Item>, delta: u32)
    ensures UpdateProps(items, fix, delta) ==
      if fix == [] || fix[0].Sub? then Updated(items)
      else if |fix[0].value| % 4 != 0 then NothingThere else
      match GetItem(items, fix[0].name)
      case None => NothingThere
      case Some(v) =>
        match FixFrom(v, fix[0].value, 0, delta)
        case None => OutOfBounds
        case Some(r) => UpdateProps(ReplaceItem(items, fix[0].name, r), fix[1..], delta)
  {
  }

  /** `overlay_update_local_node_references`: it succeeds exactly when everything the fixups name is there, and then the
      tree node has been updated as they say. */
  method UpdateNodeReferences(d: RwBlob, treeNode: int, fixNode: int, delta: u32, ghost i: nat, ghost items: seq<Item>,
      ghost n: nat, ghost f: nat, ghost fix: seq<Item>, ghost fm: nat)
    returns (err: int, ghost items': seq<Item>)
    requires d.Valid() && StringsApart(d.View())
    requires i < |d.tokens| && d.tokens[i].BeginNode? && treeNode == Off(d.tokens, i) &&
      ItemsAt(d.tokens, d.Strings(), i + 1, items, n)
    requires f < |d.tokens| && d.tokens[f].BeginNode? && fixNode == Off(d.tokens, f) &&
      ItemsAt(d.tokens, d.Strings(), f + 1, fix, fm)
    requires Clear(d.tokens, d.Strings(), i, n, f, fm, fix) && UpdateNode(items, fix, delta) != OutOfBounds
    modifies d`tokens, d.buf
    ensures d.Valid() && StringsApart(d.View()) && d.Strings() == old(d.Strings())
    ensures Updating(old(d.tokens), old(d.Strings()), i, n, f, fm, d.tokens, d.Strings(), items')
    ensures err == 0 <==> AllThere(items, fix)
    ensures err == 0 <==> UpdateNode(items, fix, delta).Updated?
    ensures err == 0 ==> UpdateNode(items, fix, delta) == Updated(items')
    decreases fm, 1
  {
    hide Streams, CheckHeader, Good, LenOf, Off, StringsApart, StringsOf, Items, ItemsAt, Clear, Updating, UpdateProps,
      UpdateSubs, AllThere;
    AllThereIff(items, fix, delta);
    ghost var ts, z := d.tokens, d.Strings();
    err, items' := UpdateNodeProps(d, treeNode, fixNode, delta, i, items, n, f, fix, fm);
    if err != 0 {
      return;
    }
    ghost var ts1, items1 := d.tokens, items';
    UpdatingPlace(ts, z, i, n, f, fm, ts1, items1, fix);
    FixPlace(ts, z, i, n, f, fm, ts1, items1);
    err, items' := UpdateNodeSubs(d, treeNode, fixNode, delta, i, items1, n, f, fix, fm);
    UpdatingTwice(ts, z, i, n, f, fm, ts1, items1, d.tokens, items');
  }

  lemma FixPlace(ts: seq<Token>, z: bytes, i: nat, n: nat, f: nat, fm: nat, ts': seq<Token>, items': seq<Item>)
    requires Updating(ts, z, i, n, f, fm, ts', z, items')
    ensures f < |ts| == |ts'| && ts'[f] == ts[f] && Off(ts', f) == Off(ts, f)
  {
    hide InPlace;
    KeptToken(ts, ts', f, fm, f);
  }

  /** The second loop: the fixups that are subnodes. */
  method UpdateNodeSubs(d: RwBlob, treeNode: int, fixNode: int, delta: u32, ghost i: nat, ghost items: seq<Item>,
      ghost n: nat, ghost f: nat, ghost fix: seq<Item>, ghost fm: nat)
    returns (err: int, ghost items': seq<Item>)
    requires d.Valid() && StringsApart(d.View())
    requires i < |d.tokens| && d.tokens[i].BeginNode? && treeNode == Off(d.tokens, i) &&
      ItemsAt(d.tokens, d.Strings(), i + 1, items, n)
    requires f < |d.tokens| && d.tokens[f].BeginNode? && fixNode == Off(d.tokens, f) &&
      ItemsAt(d.tokens, d.Strings(), f + 1, fix, fm)
    requires Clear(d.tokens, d.Strings(), i, n, f, fm, fix) && UpdateSubs(items, fix, delta) != OutOfBounds
    modifies d`tokens, d.buf
    ensures d.Valid() && StringsApart(d.View()) && d.Strings() == old(d.Strings())
    ensures Updating(old(d.tokens), old(d.Strings()), i, n, f, fm, d.tokens, d.Strings(), items')
    ensures err == 0 <==> UpdateSubs(items, fix, delta).Updated?
    ensures err == 0 ==> UpdateSubs(items, fix, delta) == Updated(items')
    decreases fm, 0
  {
    hide Streams, CheckHeader, Good, LenOf, Off, StringsApart, StringsOf, Items, ItemsAt, Clear, Updating, UpdateSub,
      UpdateSubs, NextSub, FindSub, FindItem, Kept, SameKinds, InPlace, DropProps, InnerLen;
    ghost var ts, z := d.tokens, d.Strings();
    DataFits(d.View(), ts);
    ItemsAtStep(ts, z, f + 1, fix, fm);
    NothingUpdated(ts, z, i, items, n, f, fm);
    var child := FirstSubnode(d.View(), fixNode, d.tokens, f);
    ghost var h: nat, rest: seq<Item>, mm: nat := f + 1, fix, fm;
    err, items' := 0, items;
    while child >= 0
      invariant d.Valid() && StringsApart(d.View()) && d.Strings() == z
      invariant Updating(ts, z, i, n, f, fm, d.tokens, z, items')
      invariant f < h <= |d.tokens| && h + mm == f + 1 + fm && ItemsAt(d.tokens, z, h, rest, mm)
      invariant forall y :: y in rest ==> y in fix
      invariant UpdateSubs(items', rest, delta) == UpdateSubs(items, fix, delta)
      invariant match NextSub(d.tokens, h, 0)
        case Some(k) => k < |d.tokens| && d.tokens[k].BeginNode? && child == Off(d.tokens, k)
        case None => child < 0
      decreases mm
    {
      ghost var ts1 := d.tokens;
      DataFits(d.View(), ts1);
      UpdatingPlace(ts, z, i, n, f, fm, ts1, items', fix);
      FixPlace(ts, z, i, n, f, fm, ts1, items');
      NextSubItem(ts1, z, h, rest, mm);
      ghost var k := NextSub(ts1, h, 0).value;
      ghost var tail := DropProps(rest);
      DroppedMembers(rest);
      ChildAt(ts1, z, k, tail, mm - (k - h));
      ghost var x, km := tail[0].node, InnerLen(ts1, z, k);
      SubsStep(items', rest, delta);
      ghost var items1;
      err, items1 := UpdateOneSub(d, treeNode, child, delta, i, items', n, f, fix, fm, k, x, km);
      UpdatingTwice(ts, z, i, n, f, fm, ts1, items', d.tokens, items1);
      UpdatingParts(ts1, z, i, n, f, fm, d.tokens, items1);
      items' := items1;
      if err != 0 {
        return;
      }
      KeptItems(ts1, d.tokens, z, f, fm, k + 1, x.items, km);
      KeptItems(ts1, d.tokens, z, f, fm, k + 1 + km, tail[1..], mm - (k - h) - 1 - km);
      KeptToken(ts1, d.tokens, f, fm, k);
      NextSubSkips(d.tokens, z, k + 1, x.items, km, 0);
      DataFits(d.View(), d.tokens);
      child := NextSubnode(d.View(), child, d.tokens, k);
      mm := mm - (k - h) - 1 - km;
      h, rest := k + 1 + km, tail[1..];
    }
    NextSubItem(d.tokens, z, h, rest, mm);
    SubsStep(items', rest, delta);
  }

  lemma {:induction false} DroppedMembers(items: seq<Item>)
    ensures forall y :: y in DropProps(items) ==> y in items
  {
    if items != [] && items[0].PropI? { DroppedMembers(items[1..]); }
  }

  /** The walk passes over properties to the next subnode. */
  lemma {:induction false} SubsStep(items: seq<Item>, fix: seq<Item>, delta: u32)
    ensures DropProps(fix) == [] ==> UpdateSubs(items, fix, delta) == Updated(items)
    ensures DropProps(fix) != [] ==>
      && DropProps(fix)[0].Sub?
      && UpdateSubs(items, fix, delta) ==
         match UpdateSub(items, DropProps(fix)[0], delta)
         case Updated(t) => UpdateSubs(t, DropProps(fix)[1..], delta)
         case other => other
    decreases |fix|
  {
    hide UpdateNode;
    if fix != [] && fix[0].PropI? { SubsStep(items, fix[1..], delta); }
  }

  /** The body of the second loop: the subnode of that name, and the fixups below. */
  method UpdateOneSub(d: RwBlob, treeNode: int, child: int, delta: u32, ghost i: nat, ghost items: seq<Item>,
      ghost n: nat, ghost f: nat, ghost fix: seq<Item>, ghost fm: nat, ghost k: nat, ghost x: Node, ghost km: nat)
    returns (err: int, ghost items': seq<Item>)
    requires d.Valid() && StringsApart(d.View())
    requires i < |d.tokens| && d.tokens[i].BeginNode? && treeNode == Off(d.tokens, i) &&
      ItemsAt(d.tokens, d.Strings(), i + 1, items, n)
    requires Clear(d.tokens, d.Strings(), i, n, f, fm, fix) && f + 1 + fm <= |d.tokens|
    requires k < |d.tokens| && d.tokens[k] == BeginNode(x.name) && child == Off(d.tokens, k) && f < k &&
      k + 1 + km <= f + 1 + fm
    requires ItemsAt(d.tokens, d.Strings(), k + 1, x.items, km) && Sub(x) in fix
    requires UpdateSub(items, Sub(x), delta) != OutOfBounds
    modifies d`tokens, d.buf
    ensures d.Valid() && StringsApart(d.View()) && d.Strings() == old(d.Strings())
    ensures Updating(old(d.tokens), old(d.Strings()), i, n, f, fm, d.tokens, d.Strings(), items')
    ensures err == 0 <==> UpdateSub(items, Sub(x), delta).Updated?
    ensures err == 0 ==> UpdateSub(items, Sub(x), delta) == Updated(items')
    decreases km, 2
  {
    hide Streams, CheckHeader, Good, LenOf, Off, StringsApart, StringsOf, Items, ItemsAt, UpdateNode, FindSub, FindItem,
      Kept, SameKinds, InPlace, InnerLen, ReadTag, NoneLeadsTo, StringAt, Rewritten;
    ghost var ts, z := d.tokens, d.Strings();
    DataFits(d.View(), ts);
    NothingUpdated(ts, z, i, items, n, f, fm);
    FindSubItem(ts, z, i + 1, items, n, x.name);
    TokenHere(d.View(), ts, k);
    var name := NodeName(d.View(), child);
    var treeChild := SubnodeOffset(d.View(), treeNode, name, d.tokens, i);
    if treeChild == -FDT_ERR_NOTFOUND {
      return -FDT_ERR_BADOVERLAY, items;
    }
    if treeChild < 0 {
      return treeChild, items;
    }
    ghost var kc, q := FindSub(ts, i + 1, 0, name).value, FindItem(items, name).value;
    ghost var m := InnerLen(ts, z, kc);
    SubKeeps(ts, z, i, items, n, f, fm, fix, name, kc);
    ghost var inner;
    err, inner := UpdateNodeReferences(d, treeChild, child, delta, kc, items[q].node.items, m, k, x.items, km);
    items' := items[q := Sub(Node(items[q].node.name, inner))];
    SubUpdated(ts, z, i, items, n, f, fm, name, d.tokens, inner, k, km);
  }

  lemma SubUpdated(ts: seq<Token>, z: bytes, i: nat, items: seq<Item>, n: nat, f: nat, fm: nat, s: bytes,
      ts': seq<Token>, inner: seq<Item>, k: nat, km: nat)
    requires i < |ts| && ItemsAt(ts, z, i + 1, items, n) && FindSub(ts, i + 1, 0, s).Some? && f + 1 + fm <= |ts|
    requires var kc := FindSub(ts, i + 1, 0, s).value;
      var m := InnerLen(ts, z, kc);
      && Updating(ts, z, kc, m, k, km, ts', z, inner)
      && (f + 1 + fm <= kc || kc + 1 + m <= f)
    ensures FindItem(items, s).Some? && FindItem(items, s).value < |items| && items[FindItem(items, s).value].Sub?
    ensures var q := FindItem(items, s).value;
      Updating(ts, z, i, n, f, fm, ts', z, items[q := Sub(Node(items[q].node.name, inner))])
  {
    hide Items, ItemsAt, FindSub, FindItem, SameKinds, InnerLen;
    var kc := FindSub(ts, i + 1, 0, s).value;
    RewrittenSub(ts, z, i, items, n, s, ts', z, inner);
    OutsideKept(ts, ts', kc, InnerLen(ts, z, kc), f, fm);
  }

  // ---------- the root ----------

  /** A path of one name is one lookup. */
  lemma ResolveOne(ts: seq<Token>, s: bytes)
    requires s != [] && FdtPaths.SLASH !in s
    ensures FdtPathLookup.Resolve(ts, 0, [FdtPaths.SLASH] + s) == FindSub(ts, 1, 0, s)
  {
    hide FindSub, FdtPathLookup.NextSlash;
    var path := [FdtPaths.SLASH] + s;
    var n := |path|;
    assert path[1..] == s == path[1..n];
    FdtPathLookup.NextSlashAt(path, 1, n);
    FdtPathLookup.ResolveName(ts, 0, path, 1, n);
    var k := FindSub(ts, 1, 0, s);
    if k.Some? { FdtPathLookup.ResolveNothing(ts, k.value, path[n..]); }
  }

  /** `overlay_update_local_references`: without a fixups node there is nothing to do. */
  method UpdateLocalReferences(d: RwBlob, delta: u32, ghost items: seq<Item>, ghost n: nat)
    returns (err: int, ghost items': seq<Item>)
    requires d.Valid() && StringsApart(d.View()) && d.tokens != [] && d.tokens[0].BeginNode? &&
      ItemsAt(d.tokens, d.Strings(), 1, items, n)
    requires FixupsGood(items, delta)
    modifies d`tokens, d.buf
    ensures d.Valid() && StringsApart(d.View()) && d.Strings() == old(d.Strings())
    ensures InPlace(old(d.tokens), old(d.Strings()), 0, n, d.tokens, d.Strings(), items')
    ensures FindItem(items, FIXUPS).None? ==> err == 0 && items' == items
    ensures FindItem(items, FIXUPS).Some? ==>
      && (err == 0 <==> AllThere(items, FixupsOf(items)))
      && (err == 0 <==> UpdateNode(items, FixupsOf(items), delta).Updated?)
      && (err == 0 ==> UpdateNode(items, FixupsOf(items), delta) == Updated(items'))
  {
    hide Streams, CheckHeader, Good, LenOf, Off, StringsApart, StringsOf, Items, ItemsAt, UpdateNode, FindSub, FindItem,
      Kept, SameKinds, InnerLen, NoneLeadsTo, StringAt, Rewritten, FdtPathLookup.Resolve, AllThere, AllGrow;
    ghost var ts, z := d.tokens, d.Strings();
    DataFits(d.View(), ts);
    NotRewritten(ts, z, 0, n, items);
    FindSubItem(ts, z, 1, items, n, FIXUPS);
    ResolveOne(ts, FIXUPS);
    var fixups := FdtPathLookup.PathOffset(d.View(), [FdtPaths.SLASH] + FIXUPS, d.tokens);
    if fixups < 0 {
      if fixups == -FDT_ERR_NOTFOUND {
        return 0, items;
      }
      return fixups, items;
    }
    ghost var f := FindSub(ts, 1, 0, FIXUPS).value;
    FdtPaths.RootFirst(ts);
    NoneLeads(ts, z, items, n, FixupsOf(items));
    err, items' := UpdateNodeReferences(d, 0, fixups, delta, 0, items, n, f, FixupsOf(items), InnerLen(ts, z, f));
    UpdatingParts(ts, z, 0, n, f, InnerLen(ts, z, f), d.tokens, items');
  }

  /** The items of the fixups node. */
  function FixupsOf(items: seq<Item>): seq<Item>
    requires FindItem(items, FIXUPS).Some?
  {
    FindItemIsSub(items, FIXUPS);
    items[FindItem(items, FIXUPS).value].node.items
  }

  /** No fixup lies outside its property, and none is for the fixups node itself. */
  predicate FixupsGood(items: seq<Item>, delta: u32) {
    FindItem(items, FIXUPS).Some? ==>
      var fix := FixupsOf(items);
      && UpdateNode(items, fix, delta) != OutOfBounds
      && forall x :: 0 <= x < |fix| && fix[x].Sub? ==> FindItem(items, fix[x].node.name) != FindItem(items, FIXUPS)
  }

  /** One token is one item. */
  lemma {:induction false} SameSubSameItem(ts: seq<Token>, z: bytes, j: nat, items: seq<Item>, n: nat, s: bytes,
      t: bytes)
    requires ItemsAt(ts, z, j, items, n) && FindSub(ts, j, 0, s).Some? && FindSub(ts, j, 0, s) == FindSub(ts, j, 0, t)
    ensures FindItem(items, s) == FindItem(items, t)
    decreases n
  {
    hide Items, ItemsAt, StringAt, NameEq, FindSub, FindItem;
    ItemsAtStep(ts, z, j, items, n);
    FindSubUnfold(ts, j, 0, s);
    FindSubUnfold(ts, j, 0, t);
    if ts[j].BeginNode? {
      FindItemUnfold(items, s);
      FindItemUnfold(items, t);
      var m := Items(ts[j + 1..], z).value.1;
      SkipInside(ts, z, j + 1, items[0].node.items, m, 0, s);
      SkipInside(ts, z, j + 1, items[0].node.items, m, 0, t);
      if !NameEq(ts[j].name, s) { FindSubItem(ts, z, j + 1 + m, items[1..], n - 1 - m, s); }
      if !NameEq(ts[j].name, t) { FindSubItem(ts, z, j + 1 + m, items[1..], n - 1 - m, t); }
      if !NameEq(ts[j].name, s) && !NameEq(ts[j].name, t) {
        SameSubSameItem(ts, z, j + 1 + m, items[1..], n - 1 - m, s, t);
      }
    } else if ts[j].Nop? {
      SameSubSameItem(ts, z, j + 1, items, n - 1, s, t);
    } else if ts[j].Prop? {
      FindItemUnfold(items, s);
      FindItemUnfold(items, t);
      SameSubSameItem(ts, z, j + 1, items[1..], n - 1, s, t);
    }
  }

  lemma NoneLeads(ts: seq<Token>, z: bytes, items: seq<Item>, n: nat, fix: seq<Item>)
    requires ItemsAt(ts, z, 1, items, n) && FindSub(ts, 1, 0, FIXUPS).Some?
    requires forall x :: 0 <= x < |fix| && fix[x].Sub? ==> FindItem(items, fix[x].node.name) != FindItem(items, FIXUPS)
    ensures NoneLeadsTo(ts, 0, FindSub(ts, 1, 0, FIXUPS).value, fix)
  {
    hide ItemsAt, FindSub, FindItem;
    forall x | 0 <= x < |fix| && fix[x].Sub? && FindSub(ts, 1, 0, fix[x].node.name) == FindSub(ts, 1, 0, FIXUPS)
      ensures false
    {
      SameSubSameItem(ts, z, 1, items, n, fix[x].node.name, FIXUPS);
    }
  }

  /** The largest phandle of a blob. */
  ghost predicate IsMaxPhandle(us: seq<Token>, z: bytes, max: u32) {
    && (forall k :: 0 <= k < |us| && us[k].BeginNode? ==> PhandleTok(us, z, k) <= max)
    && (max == 0 || exists k :: 0 <= k < |us| && us[k].BeginNode? && PhandleTok(us, z, k) == max)
  }

  /** The items of a node of the blob. */
  ghost predicate NodeItems(us: seq<Token>, z: bytes, j: nat, items: seq<Item>, n: nat) {
    j < |us| && us[j].BeginNode? && ItemsAt(us, z, j + 1, items, n)
  }

  /** No local fixup is for a phandle. */
  predicate FixupsSpare(items: seq<Item>) {
    FindItem(items, FIXUPS).Some? ==> SparesPhandles(FixupsOf(items))
  }

  /** What the two passes make of the overlay. */
  ghost predicate RenumberedBy(items: seq<Item>, items': seq<Item>, delta: u32) {
    && CanShift(items, delta)
    && var shifted := ShiftNode(items, delta);
    if FindItem(shifted, FIXUPS).None? then items' == shifted
    else UpdateNode(shifted, FixupsOf(shifted), delta) == Updated(items')
  }

  /** After both passes: no phandle of the overlay collides with one of a tree of the base blob, except that 0 becomes
      `delta`; different ones stay different; and none is the reserved number. */
  lemma RenumberedKeepsApart(us: seq<Token>, z: bytes, delta: u32, j: nat, base: seq<Item>, bn: nat, items: seq<Item>,
      items': seq<Item>)
    requires IsMaxPhandle(us, z, delta) && NodeItems(us, z, j, base, bn)
    requires RenumberedBy(items, items', delta) && FixupsSpare(ShiftNode(items, delta))
    ensures KeptApart(Phandles(base), Phandles(items), Phandles(items'), Presence(items), delta)
  {
    hide ItemsAt, Phandles, PhandleTok, ShiftNode, CanShift, Presence, UpdateNode, SparesPhandles, KeptApart, FindItem;
    BoundInTree(us, z, j, base, bn, delta);
    var shifted := ShiftNode(items, delta);
    if FindItem(shifted, FIXUPS).None? {
      ShiftRenumbers(items, delta);
      RenumberedApart(Phandles(base), Phandles(items), Phandles(shifted), Presence(items), delta);
    } else {
      PassesKeepApart(base, items, FixupsOf(shifted), delta);
    }
  }

  /** And every reference that the fixups list holds the new phandle of the node it referred to. */
  ghost predicate AllFollow(items: seq<Item>, items': seq<Item>, fix: seq<Item>, delta: u32) {
    forall path, name, m: nat, target :: Refers(items, fix, path, name, m, target) ==>
      && HoldsAt(items', fix, path, name, m, PhandleAt(items', target))
      && PhandleAt(items', target) == PhandleAt(items, target) + delta
  }

  lemma RenumberedFollows(items: seq<Item>, items': seq<Item>, delta: u32)
    requires RenumberedBy(items, items', delta) && FindItem(ShiftNode(items, delta), FIXUPS).Some?
    requires Distinct(FixupsOf(ShiftNode(items, delta)))
    ensures AllFollow(items, items', FixupsOf(ShiftNode(items, delta)), delta)
  {
    hide CanShift, ShiftNode, UpdateNode, Distinct, FindItem, Refers, HoldsAt, PhandleAt;
    var fix := FixupsOf(ShiftNode(items, delta));
    forall path, name, m: nat, target | Refers(items, fix, path, name, m, target)
      ensures HoldsAt(items', fix, path, name, m, PhandleAt(items', target))
      ensures PhandleAt(items', target) == PhandleAt(items, target) + delta
    {
      ReferencesFollow(items, fix, delta, path, name, m, target);
    }
  }

  /** The first steps of `fdt_overlay_apply`: the phandles of the overlay are shifted by the largest phandle of the
      base, and the local references follow. The renumbered overlay can be merged into any tree of the base. */
  method RenumberOverlay(base: Blob, d: RwBlob, ghost us: seq<Token>, ghost delta: u32, ghost items: seq<Item>,
      ghost n: nat)
    returns (err: int, ghost items': seq<Item>)
    requires Good(base, us) && IsMaxPhandle(us, StringsOf(base), delta)
    requires d.Valid() && StringsApart(d.View()) && d.tokens != [] && d.tokens[0].BeginNode?
    requires ItemsAt(d.tokens, d.Strings(), 1, items, n)
    requires CanShift(items, delta) ==> FixupsGood(ShiftNode(items, delta), delta)
    modifies d`tokens, d.buf
    ensures d.Valid() && StringsApart(d.View()) && d.Strings() == old(d.Strings())
    ensures InPlace(old(d.tokens), old(d.Strings()), 0, n, d.tokens, d.Strings(), items')
    ensures err == 0 ==> RenumberedBy(items, items', delta)
    ensures err == 0 <==>
      && AllGrow(items, delta)
      && var shifted := ShiftNode(items, delta);
      FindItem(shifted, FIXUPS).None? || AllThere(shifted, FixupsOf(shifted))
    ensures err == 0 <==>
      && CanShift(items, delta)
      && var shifted := ShiftNode(items, delta);
      FindItem(shifted, FIXUPS).None? || UpdateNode(shifted, FixupsOf(shifted), delta).Updated?
    ensures err == 0 && FixupsSpare(ShiftNode(items, delta)) ==>
      forall j, tree, m :: NodeItems(us, StringsOf(base), j, tree, m) ==>
        KeptApart(Phandles(tree), Phandles(items), Phandles(items'), Presence(items), delta)
    ensures err == 0 && FindItem(ShiftNode(items, delta), FIXUPS).Some? ==>
      var fix := FixupsOf(ShiftNode(items, delta));
      Distinct(fix) ==> AllFollow(items, items', fix, delta)
  {
    hide Streams, CheckHeader, Good, LenOf, Off, StringsApart, StringsOf, Items, ItemsAt, UpdateNode, FindItem, InPlace,
      PhandleTok, ShiftNode, CanShift, FixupsGood, FixupsSpare, KeptApart, NodeItems, IsMaxPhandle, AllFollow, Distinct,
      AllThere, AllGrow;
    ghost var ts, z := d.tokens, d.Strings();
    FdtPaths.RootFirst(ts);
    DataFits(base, us);
    var max := FindMaxPhandle(base, us);
    MaxUnique(us, StringsOf(base), max, delta);
    err, items' := AdjustNode(d, 0, max, 0, items, n);
    if err != 0 {
      return;
    }
    ghost var ts1, items1 := d.tokens, items';
    InPlaceItems(ts, z, 0, n, ts1, items1);
    err, items' := UpdateLocalReferences(d, max, items1, n);
    InPlaceTwice(ts, z, 0, n, ts1, items1, d.tokens, items');
    ghost var shifted := ShiftNode(items, delta);
    if err == 0 && FindItem(shifted, FIXUPS).Some? && Distinct(FixupsOf(shifted)) {
      RenumberedFollows(items, items', delta);
    }
    if err == 0 && FixupsSpare(ShiftNode(items, delta)) {
      forall j, tree, m | NodeItems(us, StringsOf(base), j, tree, m)
        ensures KeptApart(Phandles(tree), Phandles(items), Phandles(items'), Presence(items), delta)
      {
        RenumberedKeepsApart(us, StringsOf(base), delta, j, tree, m, items, items');
      }
    }
  }

  lemma MaxUnique(us: seq<Token>, z: bytes, max: u32, delta: u32)
    requires IsMaxPhandle(us, z, delta)
    requires forall k :: 0 <= k < |us| && us[k].BeginNode? ==> PhandleTok(us, z, k) <= max
    requires max == 0 || exists k :: 0 <= k < |us| && us[k].BeginNode? && PhandleTok(us, z, k) == max
    ensures max == delta
  {
    hide PhandleTok;
  }
}
