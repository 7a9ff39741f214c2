/** Local references of an overlay: words that hold phandles of the same overlay, listed in `__local_fixups__`. */
module FdtReferences {
  import opened Words
  import opened FdtTokens
  import opened FdtMemory
  import opened FdtBlob
  import opened FdtTree
  import opened FdtLookup
  import opened FdtItems
  import opened FdtMerge
  import opened FdtPhandles

  // ---------- one property ----------

  /** `delta` added to the words of `v` whose offsets are the words of `offs`, from word `i` on; `None` when a word lies
      outside the value. */
  function FixFrom(v: bytes, offs: bytes, i: nat, delta: u32): (r: Option<bytes>)
    ensures r.Some? ==> |r.value| == |v|
    decreases |offs| - 4 * i
  {
    if 4 * i + 4 > |offs| then Some(v) else
    var o := Load32(offs, 4 * i);
    if o + 4 > |v| then None else FixFrom(Splat(v, o, Enc32(U32(Load32(v, o) + delta))), offs, i + 1, delta)
  }

  /** The offset in word `m`. */
  function Entry(offs: bytes, m: nat): u32
    requires 4 * m + 4 <= |offs|
  {
    Load32(offs, 4 * m)
  }

  /** Every word is listed once: no two listed words overlap. */
  ghost predicate Spread(offs: bytes) {
    forall a, c :: 0 <= a < c && 4 * c + 4 <= |offs| ==>
      Entry(offs, a) + 4 <= Entry(offs, c) || Entry(offs, c) + 4 <= Entry(offs, a)
  }

  lemma SplatLoad(v: bytes, o: nat, w: u32, x: nat)
    requires o + 4 <= |v| && x + 4 <= |v|
    ensures x == o ==> Load32(Splat(v, o, Enc32(w)), x) == w
    ensures x + 4 <= o || o + 4 <= x ==> Load32(Splat(v, o, Enc32(w)), x) == Load32(v, x)
  {
    hide Load32, Enc32, Splat;
    SplatSlice(v, o, Enc32(w), x, x + 4);
    if x == o { Load32At(Splat(v, o, Enc32(w)), x, w); }
    if x + 4 <= o || o + 4 <= x { Load32Local(v, Splat(v, o, Enc32(w)), x); }
  }

  /** Every listed word grows by `delta`, once. */
  lemma {:induction false} FixedWord(v: bytes, offs: bytes, i: nat, delta: u32, m: nat)
    requires FixFrom(v, offs, i, delta).Some? && Spread(offs) && 4 * m + 4 <= |offs|
    ensures var r := FixFrom(v, offs, i, delta).value;
      && (m >= i ==> Entry(offs, m) + 4 <= |v| && Load32(r, Entry(offs, m)) == U32(Load32(v, Entry(offs, m)) + delta))
      && (m < i && Entry(offs, m) + 4 <= |v| ==> Load32(r, Entry(offs, m)) == Load32(v, Entry(offs, m)))
    decreases |offs| - 4 * i
  {
    hide Load32, Enc32, Splat, U32;
    if 4 * i + 4 <= |offs| {
      var o := Entry(offs, i);
      var v1 := Splat(v, o, Enc32(U32(Load32(v, o) + delta)));
      FixedWord(v1, offs, i + 1, delta, m);
      if Entry(offs, m) + 4 <= |v| { SplatLoad(v, o, U32(Load32(v, o) + delta), Entry(offs, m)); }
    }
  }

  // ---------- a whole overlay ----------

  /** What the walk over a fixups node comes to: the new items, or the error of a fixup for which there is nothing, or a
      fixup for a word outside its property. */
  datatype Outcome = Updated(items: seq<Item>) | NothingThere | OutOfBounds

  /** The fixups of the properties of one node. */
  function UpdateProps(tree: seq<Item>, fix: seq<Item>, delta: u32): Outcome
    decreases |fix|
  {
    if fix == [] || fix[0].Sub? then Updated(tree)
    else if |fix[0].value| % 4 != 0 then NothingThere else
    match GetItem(tree, fix[0].name)
    case None => NothingThere
    case Some(v) =>
      match FixFrom(v, fix[0].value, 0, delta)
      case None => OutOfBounds
      case Some(r) => UpdateProps(ReplaceItem(tree, fix[0].name, r), fix[1..], delta)
  }

  /** `overlay_update_local_node_references`. */
  function UpdateNode(tree: seq<Item>, fix: seq<Item>, delta: u32): Outcome
    decreases fix, 1
  {
    match UpdateProps(tree, fix, delta)
    case Updated(t) => UpdateSubs(t, fix, delta)
    case other => other
  }

  function UpdateSubs(tree: seq<Item>, fix: seq<Item>, delta: u32): Outcome
    decreases fix, 0
  {
    if fix == [] then Updated(tree) else
    match UpdateSub(tree, fix[0], delta)
    case Updated(t) => UpdateSubs(t, fix[1..], delta)
    case other => other
  }

  function UpdateSub(tree: seq<Item>, fix: Item, delta: u32): Outcome
    decreases fix, 2
  {
    match fix
    case PropI(_, _) => Updated(tree)
    case Sub(n) =>
      FindItemIsSub(tree, n.name);
      match FindItem(tree, n.name)
      case None => NothingThere
      case Some(q) =>
        match UpdateNode(tree[q].node.items, n.items, delta)
        case Updated(inner) => Updated(tree[q := Sub(Node(tree[q].node.name, inner))])
        case other => other
  }

  // ---------- when an update succeeds ----------

  /** The values replaced by as many zeros: what an update does not change. */
  function Blank(items: seq<Item>): seq<Item>
    decreases items, 0
  {
    if items == [] then [] else [BlankItem(items[0])] + Blank(items[1..])
  }

  function BlankItem(i: Item): Item
    decreases i, 1
  {
    match i
    case PropI(name, value) => PropI(name, Zeroed(value))
    case Sub(n) => Sub(Node(n.name, Blank(n.items)))
  }

  function Zeroed(v: bytes): (r: bytes)
    ensures |r| == |v|
  {
    seq(|v|, _ => 0)
  }

  /** Every word listed lies inside a value of `size` bytes. */
  ghost predicate WordsInside(offs: bytes, size: nat) {
    |offs| % 4 == 0 && forall m :: 0 <= m && 4 * m + 4 <= |offs| ==> Entry(offs, m) + 4 <= size
  }

  /** What the fixups of one node name is there: each leading one is for a property of the node, in words inside it. */
  ghost predicate PropsThere(tree: seq<Item>, fix: seq<Item>) {
    fix == [] || fix[0].Sub? || (
      && GetItem(tree, fix[0].name).Some? && WordsInside(fix[0].value, |GetItem(tree, fix[0].name).value|)
      && PropsThere(tree, fix[1..]))
  }

  /** And so is what the fixups of its subnodes name. */
  ghost predicate AllThere(tree: seq<Item>, fix: seq<Item>)
    decreases fix, 1
  {
    PropsThere(tree, fix) && SubsThere(tree, fix)
  }

  ghost predicate SubsThere(tree: seq<Item>, fix: seq<Item>)
    decreases fix, 0
  {
    fix == [] || (SubThere(tree, fix[0]) && SubsThere(tree, fix[1..]))
  }

  ghost predicate SubThere(tree: seq<Item>, fix: Item)
    decreases fix, 2
  {
    match fix
    case PropI(_, _) => true
    case Sub(n) => At(tree, n.name).Some? && AllThere(At(tree, n.name).value, n.items)
  }

  // Nothing of this depends on the values.

  lemma {:induction false} BlankGet(items: seq<Item>, name: bytes)
    ensures GetItem(Blank(items), name) ==
      match GetItem(items, name) case None => None case Some(v) => Some(Zeroed(v))
  {
    if items != [] {
      BlankGet(items[1..], name);
      assert Blank(items)[1..] == Blank(items[1..]);
    }
  }

  lemma {:induction false} BlankAt(items: seq<Item>, s: bytes)
    ensures At(Blank(items), s) == match At(items, s) case None => None case Some(x) => Some(Blank(x))
  {
    hide At, NameEq;
    if items == [] {
      NothingAt(s);
    } else {
      var r := Blank(items);
      assert r[1..] == Blank(items[1..]);
      AtFirst(items, s);
      AtFirst(r, s);
      BlankAt(items[1..], s);
    }
  }

  lemma {:induction false} BlankReplace(items: seq<Item>, name: bytes, v: bytes)
    requires GetItem(items, name).Some? && |v| == |GetItem(items, name).value|
    ensures Blank(ReplaceItem(items, name, v)) == Blank(items)
  {
    var r := ReplaceItem(items, name, v);
    if items[0].name == name {
      assert r[1..] == items[1..];
      assert Zeroed(v) == Zeroed(items[0].value);
    } else {
      assert r[1..] == ReplaceItem(items[1..], name, v);
      BlankReplace(items[1..], name, v);
    }
  }

  lemma {:induction false} BlankSub(items: seq<Item>, q: nat, inner: seq<Item>)
    requires q < |items| && items[q].Sub? && Blank(inner) == Blank(items[q].node.items)
    ensures Blank(items[q := Sub(Node(items[q].node.name, inner))]) == Blank(items)
  {
    var r := items[q := Sub(Node(items[q].node.name, inner))];
    if q == 0 {
      assert r[1..] == items[1..];
    } else {
      BlankSub(items[1..], q - 1, inner);
      assert r[1..] == items[1..][q - 1 := Sub(Node(items[1..][q - 1].node.name, inner))];
    }
  }

  /** Trees that are the same but for their values offer the same places. */
  lemma {:induction false} SamePropsThere(a: seq<Item>, c: seq<Item>, fix: seq<Item>)
    requires Blank(a) == Blank(c)
    ensures PropsThere(a, fix) == PropsThere(c, fix)
    decreases |fix|
  {
    hide GetItem, Blank, WordsInside;
    if fix != [] && fix[0].PropI? {
      BlankGet(a, fix[0].name);
      BlankGet(c, fix[0].name);
      SamePropsThere(a, c, fix[1..]);
    }
  }

  lemma {:induction false} SameAllThere(a: seq<Item>, c: seq<Item>, fix: seq<Item>)
    requires Blank(a) == Blank(c)
    ensures AllThere(a, fix) == AllThere(c, fix) && SubsThere(a, fix) == SubsThere(c, fix)
    decreases fix, 1
  {
    hide Blank, PropsThere, SubThere;
    SamePropsThere(a, c, fix);
    SameSubsThere(a, c, fix);
  }

  lemma {:induction false} SameSubsThere(a: seq<Item>, c: seq<Item>, fix: seq<Item>)
    requires Blank(a) == Blank(c)
    ensures SubsThere(a, fix) == SubsThere(c, fix)
    decreases fix, 0
  {
    hide Blank, SubThere;
    if fix != [] {
      SameSubThere(a, c, fix[0]);
      SameSubsThere(a, c, fix[1..]);
    }
  }

  lemma {:induction false} SameSubThere(a: seq<Item>, c: seq<Item>, fix: Item)
    requires Blank(a) == Blank(c)
    ensures SubThere(a, fix) == SubThere(c, fix)
    decreases fix, 2
  {
    hide Blank, At, AllThere;
    if fix.Sub? {
      BlankAt(a, fix.node.name);
      BlankAt(c, fix.node.name);
      if At(a, fix.node.name).Some? && At(c, fix.node.name).Some? {
        SameAllThere(At(a, fix.node.name).value, At(c, fix.node.name).value, fix.node.items);
      }
    }
  }

  // So it holds all the way through the update.

  lemma {:induction false} FixFromIff(v: bytes, offs: bytes, i: nat, delta: u32)
    ensures FixFrom(v, offs, i, delta).Some? <==>
      forall m :: i <= m && 4 * m + 4 <= |offs| ==> Entry(offs, m) + 4 <= |v|
    decreases |offs| - 4 * i
  {
    hide Load32, Enc32, Splat, U32;
    if 4 * i + 4 <= |offs| {
      var o := Entry(offs, i);
      if o + 4 <= |v| { FixFromIff(Splat(v, o, Enc32(U32(Load32(v, o) + delta))), offs, i + 1, delta); }
    }
  }

  lemma {:induction false} PropsThereIff(tree: seq<Item>, fix: seq<Item>, delta: u32)
    ensures UpdateProps(tree, fix, delta).Updated? <==> PropsThere(tree, fix)
    ensures UpdateProps(tree, fix, delta).Updated? ==> Blank(UpdateProps(tree, fix, delta).items) == Blank(tree)
    decreases |fix|
  {
    hide FixFrom, GetItem, Blank, ReplaceItem;
    if fix != [] && fix[0].PropI? && GetItem(tree, fix[0].name).Some? {
      var v := GetItem(tree, fix[0].name).value;
      FixFromIff(v, fix[0].value, 0, delta);
      var r := FixFrom(v, fix[0].value, 0, delta);
      if |fix[0].value| % 4 == 0 && r.Some? {
        var t := ReplaceItem(tree, fix[0].name, r.value);
        BlankReplace(tree, fix[0].name, r.value);
        PropsThereIff(t, fix[1..], delta);
        SamePropsThere(t, tree, fix[1..]);
      }
    }
  }

  lemma {:induction false} SubThereIff(tree: seq<Item>, fix: Item, delta: u32)
    ensures UpdateSub(tree, fix, delta).Updated? <==> SubThere(tree, fix)
    ensures UpdateSub(tree, fix, delta).Updated? ==> Blank(UpdateSub(tree, fix, delta).items) == Blank(tree)
    decreases fix, 2
  {
    hide UpdateNode, AllThere, Blank, FindItem;
    if fix.Sub? {
      FindItemIsSub(tree, fix.node.name);
      var q := FindItem(tree, fix.node.name);
      if q.Some? {
        var inner := UpdateNode(tree[q.value].node.items, fix.node.items, delta);
        AllThereIff(tree[q.value].node.items, fix.node.items, delta);
        if inner.Updated? { BlankSub(tree, q.value, inner.items); }
      }
    }
  }

  lemma {:induction false} SubsThereIff(tree: seq<Item>, fix: seq<Item>, delta: u32)
    ensures UpdateSubs(tree, fix, delta).Updated? <==> SubsThere(tree, fix)
    ensures UpdateSubs(tree, fix, delta).Updated? ==> Blank(UpdateSubs(tree, fix, delta).items) == Blank(tree)
    decreases fix, 0
  {
    hide UpdateSub, SubThere, Blank;
    if fix != [] {
      SubThereIff(tree, fix[0], delta);
      if SubThere(tree, fix[0]) {
        var t := UpdateSub(tree, fix[0], delta).items;
        SubsThereIff(t, fix[1..], delta);
        SameSubsThere(t, tree, fix[1..]);
      }
    }
  }

  /** The update succeeds exactly when everything the fixups name is there, and it changes nothing but values. */
  lemma {:induction false} AllThereIff(tree: seq<Item>, fix: seq<Item>, delta: u32)
    ensures UpdateNode(tree, fix, delta).Updated? <==> AllThere(tree, fix)
    ensures UpdateNode(tree, fix, delta).Updated? ==> Blank(UpdateNode(tree, fix, delta).items) == Blank(tree)
    decreases fix, 1
  {
    hide UpdateProps, UpdateSubs, PropsThere, SubsThere, Blank;
    PropsThereIff(tree, fix, delta);
    if PropsThere(tree, fix) {
      var t := UpdateProps(tree, fix, delta).items;
      SubsThereIff(t, fix, delta);
      SameSubsThere(t, tree, fix);
    }
  }

  // ---------- phandles after the update ----------

  /** No fixup, at any depth, is for a property that holds a phandle. */
  predicate SparesPhandles(fix: seq<Item>)
    decreases fix, 0
  {
    fix == [] || (SparesItem(fix[0]) && SparesPhandles(fix[1..]))
  }

  predicate SparesItem(i: Item)
    decreases i, 1
  {
    match i
    case PropI(name, _) => !IsPhandleName(name)
    case Sub(n) => SparesPhandles(n.items)
  }

  lemma SamePhandles(a: seq<Item>, c: seq<Item>)
    requires GetItem(a, PHANDLE) == GetItem(c, PHANDLE) && GetItem(a, LINUX_PHANDLE) == GetItem(c, LINUX_PHANDLE)
    requires PhandlesBelow(a) == PhandlesBelow(c)
    ensures Phandles(a) == Phandles(c)
  {
    hide GetItem, PhandlesBelow;
  }

  lemma {:induction false} PropsKeepPhandles(tree: seq<Item>, fix: seq<Item>, delta: u32)
    requires UpdateProps(tree, fix, delta).Updated? && SparesPhandles(fix)
    ensures Phandles(UpdateProps(tree, fix, delta).items) == Phandles(tree)
    decreases |fix|
  {
    hide FixFrom, GetItem, Phandles, ReplaceItem;
    if fix != [] && fix[0].PropI? {
      var v := FixFrom(GetItem(tree, fix[0].name).value, fix[0].value, 0, delta).value;
      var t := ReplaceItem(tree, fix[0].name, v);
      PropsKeepPhandles(t, fix[1..], delta);
      ReplaceThenGet(tree, fix[0].name, v, PHANDLE);
      ReplaceThenGet(tree, fix[0].name, v, LINUX_PHANDLE);
      ShiftPropsBelow(tree, fix[0].name, v);
      SamePhandles(t, tree);
    }
  }

  /** A subnode rewritten without a change of its phandles. */
  lemma {:induction false} SubPhandles(tree: seq<Item>, q: nat, inner: seq<Item>)
    requires q < |tree| && tree[q].Sub? && Phandles(inner) == Phandles(tree[q].node.items)
    ensures PhandlesBelow(tree[q := Sub(Node(tree[q].node.name, inner))]) == PhandlesBelow(tree)
  {
    hide Phandles;
    var r := tree[q := Sub(Node(tree[q].node.name, inner))];
    if q == 0 {
      assert r[1..] == tree[1..];
    } else {
      SubPhandles(tree[1..], q - 1, inner);
      assert r[1..] == tree[1..][q - 1 := Sub(Node(tree[1..][q - 1].node.name, inner))];
    }
  }

  lemma {:induction false} SubKeepsPhandles(tree: seq<Item>, fix: Item, delta: u32)
    requires UpdateSub(tree, fix, delta).Updated? && SparesItem(fix)
    ensures Phandles(UpdateSub(tree, fix, delta).items) == Phandles(tree)
    decreases fix, 2
  {
    hide UpdateNode, Phandles, PhandlesBelow, GetItem;
    if fix.Sub? {
      FindItemIsSub(tree, fix.node.name);
      var q := FindItem(tree, fix.node.name).value;
      UpdateKeepsPhandles(tree[q].node.items, fix.node.items, delta);
      SubPhandles(tree, q, UpdateNode(tree[q].node.items, fix.node.items, delta).items);
      UpdateSubGet(tree, fix, delta, PHANDLE);
      UpdateSubGet(tree, fix, delta, LINUX_PHANDLE);
      SamePhandles(UpdateSub(tree, fix, delta).items, tree);
    }
  }

  lemma {:induction false} SubsKeepPhandles(tree: seq<Item>, fix: seq<Item>, delta: u32)
    requires UpdateSubs(tree, fix, delta).Updated? && SparesPhandles(fix)
    ensures Phandles(UpdateSubs(tree, fix, delta).items) == Phandles(tree)
    decreases fix, 0
  {
    hide UpdateSub, SparesItem, Phandles;
    if fix != [] {
      SubKeepsPhandles(tree, fix[0], delta);
      SubsKeepPhandles(UpdateSub(tree, fix[0], delta).items, fix[1..], delta);
    }
  }

  /** The second pass leaves every phandle of the tree alone when no fixup is for one. */
  lemma {:induction false} UpdateKeepsPhandles(tree: seq<Item>, fix: seq<Item>, delta: u32)
    requires UpdateNode(tree, fix, delta).Updated? && SparesPhandles(fix)
    ensures Phandles(UpdateNode(tree, fix, delta).items) == Phandles(tree)
    decreases fix, 1
  {
    hide Phandles, UpdateProps, UpdateSubs, SparesPhandles;
    PropsKeepPhandles(tree, fix, delta);
    SubsKeepPhandles(UpdateProps(tree, fix, delta).items, fix, delta);
  }

  /** The phandles after both passes, against those of the base: the new numbers collide with none, and stay apart. */
  lemma PassesKeepApart(base: seq<Item>, over: seq<Item>, fix: seq<Item>, delta: u32)
    requires CanShift(over, delta) && forall x :: 0 <= x < |Phandles(base)| ==> Phandles(base)[x] <= delta
    requires UpdateNode(ShiftNode(over, delta), fix, delta).Updated? && SparesPhandles(fix)
    ensures KeptApart(Phandles(base), Phandles(over), Phandles(UpdateNode(ShiftNode(over, delta), fix, delta).items),
                      Presence(over), delta)
  {
    hide Phandles, ShiftNode, CanShift, Presence, UpdateNode, SparesPhandles, KeptApart;
    ShiftRenumbers(over, delta);
    UpdateKeepsPhandles(ShiftNode(over, delta), fix, delta);
    RenumberedApart(Phandles(base), Phandles(over), Phandles(ShiftNode(over, delta)), Presence(over), delta);
  }

  // ---------- lookups after the update ----------

  lemma {:induction false} UpdatePropsGet(tree: seq<Item>, fix: seq<Item>, delta: u32, name: bytes)
    requires UpdateProps(tree, fix, delta).Updated? && Distinct(fix)
    ensures var r := UpdateProps(tree, fix, delta).items;
      match GetItem(fix, name)
      case None => GetItem(r, name) == GetItem(tree, name)
      case Some(offs) =>
        && GetItem(tree, name).Some? && GetItem(r, name).Some?
        && GetItem(r, name) == FixFrom(GetItem(tree, name).value, offs, 0, delta)
    decreases |fix|
  {
    hide FixFrom;
    if fix != [] && fix[0].PropI? {
      var v := FixFrom(GetItem(tree, fix[0].name).value, fix[0].value, 0, delta).value;
      UpdatePropsGet(ReplaceItem(tree, fix[0].name, v), fix[1..], delta, name);
      ReplaceThenGet(tree, fix[0].name, v, name);
    }
  }

  lemma {:induction false} UpdatePropsAt(tree: seq<Item>, fix: seq<Item>, delta: u32, s: bytes)
    requires UpdateProps(tree, fix, delta).Updated?
    ensures At(UpdateProps(tree, fix, delta).items, s) == At(tree, s)
    ensures Top(UpdateProps(tree, fix, delta).items) == Top(tree)
    decreases |fix|
  {
    hide FixFrom, At;
    if fix != [] && fix[0].PropI? {
      var v := FixFrom(GetItem(tree, fix[0].name).value, fix[0].value, 0, delta).value;
      ReplaceTop(tree, fix[0].name, v);
      UpdatePropsAt(ReplaceItem(tree, fix[0].name, v), fix[1..], delta, s);
      ReplaceKeepsAt(tree, fix[0].name, v, s);
    }
  }

  lemma {:induction false} UpdateSubsGet(tree: seq<Item>, fix: seq<Item>, delta: u32, name: bytes)
    requires UpdateSubs(tree, fix, delta).Updated?
    ensures GetItem(UpdateSubs(tree, fix, delta).items, name) == GetItem(tree, name)
    decreases |fix|
  {
    if fix != [] {
      var t := UpdateSub(tree, fix[0], delta).items;
      UpdateSubsGet(t, fix[1..], delta, name);
      UpdateSubGet(tree, fix[0], delta, name);
    }
  }

  lemma UpdateSubGet(tree: seq<Item>, fix: Item, delta: u32, name: bytes)
    requires UpdateSub(tree, fix, delta).Updated?
    ensures GetItem(UpdateSub(tree, fix, delta).items, name) == GetItem(tree, name)
  {
    hide UpdateNode;
    if fix.Sub? {
      FindItemIsSub(tree, fix.node.name);
      var q := FindItem(tree, fix.node.name).value;
      var inner := UpdateNode(tree[q].node.items, fix.node.items, delta).items;
      UpdateKeepsGet(tree, q, Node(tree[q].node.name, inner), name);
    }
  }

  lemma UpdateSubTop(tree: seq<Item>, fix: Item, delta: u32)
    requires UpdateSub(tree, fix, delta).Updated?
    ensures Top(UpdateSub(tree, fix, delta).items) == Top(tree)
  {
    hide UpdateNode;
    if fix.Sub? {
      FindItemIsSub(tree, fix.node.name);
      var q := FindItem(tree, fix.node.name).value;
      UpdateTop(tree, q, UpdateNode(tree[q].node.items, fix.node.items, delta).items);
    }
  }

  lemma UpdateSubAt(tree: seq<Item>, n: Node, delta: u32, names: set<bytes>, s: bytes)
    requires UpdateSub(tree, Sub(n), delta).Updated? && Top(tree) <= names && n.name in names && s in names &&
      Exact(names)
    ensures var r := UpdateSub(tree, Sub(n), delta).items;
      if s == n.name then
        At(tree, s).Some? && UpdateNode(At(tree, s).value, n.items, delta).Updated?
        && At(r, s) == Some(UpdateNode(At(tree, s).value, n.items, delta).items)
      else At(r, s) == At(tree, s)
  {
    hide UpdateNode, Exact, NameEq, FindItem;
    FindItemIsSub(tree, n.name);
    var q := FindItem(tree, n.name).value;
    TopAt(tree, q);
    ExactPair(names, tree[q].node.name, n.name);
    UpdateAt(tree, n.name, UpdateNode(tree[q].node.items, n.items, delta).items, s);
    SelfEq(s);
    if NameEq(n.name, s) { ExactPair(names, n.name, s); }
  }

  lemma {:induction false} UpdateSubsAt(tree: seq<Item>, fix: seq<Item>, delta: u32, names: set<bytes>, s: bytes)
    requires UpdateSubs(tree, fix, delta).Updated? && Top(tree) + Top(fix) <= names
    requires s in names && Exact(names) && Distinct(fix)
    ensures var r := UpdateSubs(tree, fix, delta).items;
      match At(fix, s)
      case None => At(r, s) == At(tree, s)
      case Some(f) =>
        && At(tree, s).Some? && UpdateNode(At(tree, s).value, f, delta).Updated?
        && At(r, s) == Some(UpdateNode(At(tree, s).value, f, delta).items)
    decreases |fix|
  {
    hide At, NameEq, Exact, UpdateNode;
    if fix == [] {
      NothingAt(s);
    } else {
      AtFirst(fix, s);
      UpdateSubTop(tree, fix[0], delta);
      UpdateSubsAt(UpdateSub(tree, fix[0], delta).items, fix[1..], delta, names, s);
      if fix[0].Sub? {
        UpdateSubAt(tree, fix[0].node, delta, names, s);
        SelfEq(s);
        if NameEq(fix[0].node.name, s) { ExactPair(names, fix[0].node.name, s); }
        if fix[0].node.name == s { NoSubAt(fix[1..], names, s); }
      }
    }
  }

  /** The update changes exactly the properties that the fixups list, each in the words listed for it. */
  lemma {:induction false} UpdateLookUp(tree: seq<Item>, fix: seq<Item>, delta: u32, path: seq<bytes>, name: bytes)
    requires UpdateNode(tree, fix, delta).Updated? && PathExact(tree, fix, path) && Distinct(fix)
    ensures var r := UpdateNode(tree, fix, delta).items;
      match LookUp(fix, path, name)
      case None => LookUp(r, path, name) == LookUp(tree, path, name)
      case Some(offs) =>
        && LookUp(tree, path, name).Some? && LookUp(r, path, name).Some?
        && LookUp(r, path, name) == FixFrom(LookUp(tree, path, name).value, offs, 0, delta)
    decreases |path|
  {
    hide Exact, At, Top, Distinct, FixFrom, UpdateProps, UpdateSubs;
    var t := UpdateProps(tree, fix, delta).items;
    if path == [] {
      UpdatePropsGet(tree, fix, delta, name);
      UpdateSubsGet(t, fix, delta, name);
    } else {
      var s := path[0];
      UpdatePropsAt(tree, fix, delta, s);
      UpdateSubsAt(t, fix, delta, Top(tree) + Top(fix) + {s}, s);
      if At(fix, s).Some? {
        DistinctAt(fix, s);
        UpdateLookUp(At(tree, s).value, At(fix, s).value, delta, path[1..], name);
      }
    }
  }

  // ---------- lookups after the shift ----------

  lemma {:induction false} ShiftSubsAt(items: seq<Item>, delta: u32, s: bytes)
    ensures At(ShiftSubs(items, delta), s) ==
      match At(items, s) case None => None case Some(x) => Some(ShiftNode(x, delta))
  {
    hide At, NameEq, ShiftNode;
    if items == [] {
      NothingAt(s);
    } else {
      var r := ShiftSubs(items, delta);
      assert r[1..] == ShiftSubs(items[1..], delta);
      AtFirst(items, s);
      AtFirst(r, s);
      ShiftSubsAt(items[1..], delta, s);
    }
  }

  lemma ShiftPropKeepsAt(items: seq<Item>, name: bytes, delta: u32, s: bytes)
    ensures At(ShiftProp(items, name, delta), s) == At(items, s)
  {
    hide At;
    var v := GetItem(items, name);
    if v.Some? { ReplaceKeepsAt(items, name, Shifted(v.value, delta), s); }
  }

  lemma ShiftNodeAt(items: seq<Item>, delta: u32, s: bytes)
    ensures At(ShiftNode(items, delta), s) ==
      match At(items, s) case None => None case Some(x) => Some(ShiftNode(x, delta))
  {
    hide At, ShiftProp, ShiftSubs;
    var r := ShiftSubs(items, delta);
    ShiftSubsAt(items, delta, s);
    ShiftPropKeepsAt(r, PHANDLE, delta, s);
    ShiftPropKeepsAt(ShiftProp(r, PHANDLE, delta), LINUX_PHANDLE, delta, s);
  }

  lemma {:induction false} ShiftLookUp(items: seq<Item>, delta: u32, path: seq<bytes>, name: bytes)
    ensures LookUp(ShiftNode(items, delta), path, name) ==
      match LookUp(items, path, name)
      case None => None
      case Some(v) => Some(if IsPhandleName(name) then Shifted(v, delta) else v)
    decreases |path|
  {
    hide At, ShiftNode, Shifted;
    if path == [] {
      ShiftNodeGet(items, delta, name);
    } else {
      ShiftNodeAt(items, delta, path[0]);
      if At(items, path[0]).Some? { ShiftLookUp(At(items, path[0]).value, delta, path[1..], name); }
    }
  }

  lemma {:induction false} CanShiftAt(items: seq<Item>, delta: u32, s: bytes)
    requires CanShiftSubs(items, delta) && At(items, s).Some?
    ensures CanShift(At(items, s).value, delta)
  {
    hide At, NameEq, CanShift;
    if items == [] {
      NothingAt(s);
    } else {
      AtFirst(items, s);
      if !(items[0].Sub? && NameEq(items[0].node.name, s)) { CanShiftAt(items[1..], delta, s); }
    }
  }

  lemma {:induction false} CanShiftLookUp(items: seq<Item>, delta: u32, path: seq<bytes>, name: bytes)
    requires CanShift(items, delta) && IsPhandleName(name) && LookUp(items, path, name).Some?
    ensures var v := LookUp(items, path, name).value; |v| == 4 && Load32(v, 0) + delta < TWO32 - 1
    decreases |path|
  {
    hide At, CanShiftSubs, Load32;
    if path != [] {
      CanShiftAt(items, delta, path[0]);
      CanShiftLookUp(At(items, path[0]).value, delta, path[1..], name);
    }
  }

  lemma {:induction false} ShiftSubsTop(items: seq<Item>, delta: u32)
    ensures Top(ShiftSubs(items, delta)) == Top(items)
  {
    hide ShiftNode;
    if items != [] {
      ShiftSubsTop(items[1..], delta);
      assert ShiftSubs(items, delta)[1..] == ShiftSubs(items[1..], delta);
    }
  }

  lemma ShiftPropTop(items: seq<Item>, name: bytes, delta: u32)
    ensures Top(ShiftProp(items, name, delta)) == Top(items)
  {
    var v := GetItem(items, name);
    if v.Some? { ReplaceTop(items, name, Shifted(v.value, delta)); }
  }

  /** A shift changes no name, so a path is as exact afterwards as it was. */
  lemma {:induction false} ShiftKeepsExact(items: seq<Item>, fix: seq<Item>, delta: u32, path: seq<bytes>)
    requires PathExact(items, fix, path)
    ensures PathExact(ShiftNode(items, delta), fix, path)
    decreases |path|
  {
    hide At, Top, Exact, ShiftNode;
    if path != [] {
      ShiftNodeTop(items, delta);
      ShiftNodeAt(items, delta, path[0]);
      if At(fix, path[0]).Some? {
        ShiftNone(delta);
        ShiftKeepsExact(Or(At(items, path[0])), At(fix, path[0]).value, delta, path[1..]);
      }
    }
  }

  lemma ShiftNodeTop(items: seq<Item>, delta: u32)
    ensures Top(ShiftNode(items, delta)) == Top(items)
  {
    hide ShiftProp, ShiftSubs;
    var r := ShiftSubs(items, delta);
    ShiftSubsTop(items, delta);
    ShiftPropTop(r, PHANDLE, delta);
    ShiftPropTop(ShiftProp(r, PHANDLE, delta), LINUX_PHANDLE, delta);
  }

  lemma ShiftNone(delta: u32)
    ensures ShiftNode([], delta) == []
  {
  }

  // ---------- both passes ----------

  /** `fdt_get_phandle` of the node that a path leads to. */
  function PhandleAt(items: seq<Item>, path: seq<bytes>): u32 {
    PhandleFrom(LookUp(items, path, PHANDLE), LookUp(items, path, LINUX_PHANDLE))
  }

  lemma PhandleAtShifted(items: seq<Item>, delta: u32, path: seq<bytes>)
    requires CanShift(items, delta) && PhandleAt(items, path) != 0
    ensures PhandleAt(ShiftNode(items, delta), path) == PhandleAt(items, path) + delta < TWO32 - 1
  {
    hide CanShift, ShiftNode, LookUp, Load32, Shifted;
    ShiftLookUp(items, delta, path, PHANDLE);
    ShiftLookUp(items, delta, path, LINUX_PHANDLE);
    var a, c := LookUp(items, path, PHANDLE), LookUp(items, path, LINUX_PHANDLE);
    if a.Some? { CanShiftLookUp(items, delta, path, PHANDLE); ShiftedWord(a.value, delta); }
    if c.Some? { CanShiftLookUp(items, delta, path, LINUX_PHANDLE); ShiftedWord(c.value, delta); }
  }

  /** Entry `m` of the fixups for property `name` of the node at `path` lists a word that holds the phandle of the node
      at `target`. The names on the two ways can be told apart, the words listed do not overlap, and the fixups are for
      no phandle of the target. */
  ghost predicate Refers(tree: seq<Item>, fix: seq<Item>, path: seq<bytes>, name: bytes, m: nat, target: seq<bytes>) {
    && PathExact(tree, fix, path) && PathExact(tree, fix, target)
    && !IsPhandleName(name) && LookUp(fix, path, name).Some? && LookUp(tree, path, name).Some?
    && LookUp(fix, target, PHANDLE).None? && LookUp(fix, target, LINUX_PHANDLE).None?
    && var offs, v := LookUp(fix, path, name).value, LookUp(tree, path, name).value;
    && 4 * m + 4 <= |offs| && Spread(offs)
    && (Entry(offs, m) + 4 <= |v| ==> Load32(v, Entry(offs, m)) == PhandleAt(tree, target) != 0)
  }

  /** The word listed there holds the number `x`. */
  ghost predicate HoldsAt(after: seq<Item>, fix: seq<Item>, path: seq<bytes>, name: bytes, m: nat, x: int) {
    && LookUp(fix, path, name).Some? && 4 * m + 4 <= |LookUp(fix, path, name).value| && LookUp(after, path, name).Some?
    && var o, v := Entry(LookUp(fix, path, name).value, m), LookUp(after, path, name).value;
    o + 4 <= |v| && Load32(v, o) == x
  }

  /** After both passes a listed reference holds the new phandle of the node whose old phandle it held. */
  lemma ReferencesFollow(tree: seq<Item>, fix: seq<Item>, delta: u32, path: seq<bytes>, name: bytes, m: nat,
      target: seq<bytes>)
    requires CanShift(tree, delta) && UpdateNode(ShiftNode(tree, delta), fix, delta).Updated? && Distinct(fix)
    requires Refers(tree, fix, path, name, m, target)
    ensures var after := UpdateNode(ShiftNode(tree, delta), fix, delta).items;
      && HoldsAt(after, fix, path, name, m, PhandleAt(after, target))
      && PhandleAt(after, target) == PhandleAt(tree, target) + delta
  {
    hide CanShift, ShiftNode, UpdateNode, PathExact, Distinct, LookUp, FixFrom, Spread, Load32, IsPhandleName;
    var shifted := ShiftNode(tree, delta);
    ShiftKeepsExact(tree, fix, delta, path);
    ShiftKeepsExact(tree, fix, delta, target);
    ShiftLookUp(tree, delta, path, name);
    UpdateLookUp(shifted, fix, delta, path, name);
    FixedWord(LookUp(tree, path, name).value, LookUp(fix, path, name).value, 0, delta, m);
    UpdateLookUp(shifted, fix, delta, target, PHANDLE);
    UpdateLookUp(shifted, fix, delta, target, LINUX_PHANDLE);
    PhandleAtShifted(tree, delta, target);
  }
}
