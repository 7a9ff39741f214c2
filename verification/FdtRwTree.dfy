/** The edits of a blob are edits of its tree. */
module FdtRwTree {
  import opened Words
  import opened FdtTokens
  import opened FdtStrings
  import opened FdtEvents
  import opened FdtTree
  import opened FdtLookup
  import opened FdtEdit
  import opened FdtItems
  import opened FdtPlaces
  import opened FdtRead
  import opened FdtSplice
  import opened FdtRw

  /** The node at token `i` had the items `items`, `n` tokens, and now has the items `items'`. The tokens in front of
      and behind its items, and all strings, are as before. */
  predicate Rewritten(ts: seq<Token>, z: bytes, i: nat, n: nat, ts': seq<Token>, z': bytes, items': seq<Item>) {
    var n' := n + |ts'| - |ts|;
    && z <= z' && n' >= 1 && i < |ts| && i + 1 + n <= |ts| && i + 1 + n' <= |ts'|
    && ts'[..i + 1] == ts[..i + 1] && ts'[i + 1 + n'..] == ts[i + 1 + n..]
    && ItemsAt(ts', z', i + 1, items', n')
  }

  /** An edit between the start and the end of the items keeps what is around them. */
  lemma AroundEdit(ts: seq<Token>, i: nat, n: nat, k: nat, e: nat, us: seq<Token>)
    requires i < k <= e < i + 1 + n <= |ts|
    ensures var ts' := ts[..k] + us + ts[e..];
      var n' := n + |ts'| - |ts|;
      n' >= 1 && i + 1 + n' <= |ts'| && ts'[..i + 1] == ts[..i + 1] && ts'[i + 1 + n'..] == ts[i + 1 + n..]
  {
    TailAfter(ts, k, e, us, i + 1 + n);
    var ts' := ts[..k] + us + ts[e..];
    assert i + 1 + (n + |ts'| - |ts|) == i + 1 + n - e + k + |us|;
  }

  // ---------- properties ----------

  /** `fdt_setprop` sets the property in the tree. */
  lemma SetPropRefines(ts: seq<Token>, z: bytes, i: nat, items: seq<Item>, n: nat, name: bytes, value: bytes,
      ts': seq<Token>, z': bytes)
    requires i < |ts| && ItemsAt(ts, z, i + 1, items, n) && NoNul(name) && PropSet(ts, z, i, name, value, ts', z')
    ensures Rewritten(ts, z, i, n, ts', z', SetItem(items, name, value))
  {
    hide Items, ItemsAt, StringAt, FindProp, Shared;
    ItemsAtStep(ts, z, i + 1, items, n);
    FindPropItem(ts, z, i + 1, items, n, name);
    match FindProp(ts, z, i + 1, name)
    case Some(k) => ResizeRefines(ts, z, i, items, n, name, value, k);
    case None => AddRefines(ts, z, i, items, n, name, value, ts', z');
  }

  /** `fdt_appendprop` sets the property to its old value with the new bytes behind it. */
  lemma AppendPropRefines(ts: seq<Token>, z: bytes, i: nat, items: seq<Item>, n: nat, name: bytes, more: bytes,
      ts': seq<Token>, z': bytes)
    requires i < |ts| && ItemsAt(ts, z, i + 1, items, n) && NoNul(name)
    requires PropSet(ts, z, i, name, Appended(ts, z, i, name, more), ts', z')
    ensures var value := match GetItem(items, name) case None => more case Some(v) => v + more;
      Rewritten(ts, z, i, n, ts', z', SetItem(items, name, value))
  {
    hide Items, ItemsAt, StringAt, FindProp, Rewritten, SetItem, PropSet;
    FindPropItem(ts, z, i + 1, items, n, name);
    SetPropRefines(ts, z, i, items, n, name, Appended(ts, z, i, name, more), ts', z');
  }

  lemma ResizeRefines(ts: seq<Token>, z: bytes, i: nat, items: seq<Item>, n: nat, name: bytes, value: bytes, k: nat)
    requires i < |ts| && ItemsAt(ts, z, i + 1, items, n) && FindProp(ts, z, i + 1, name) == Some(k)
    ensures k < |ts| && ts[k].Prop? &&
      Rewritten(ts, z, i, n, ts[k := Prop(ts[k].nameoff, value)], z, SetItem(items, name, value))
  {
    hide Items, ItemsAt, StringAt, FindProp;
    ItemsAtStep(ts, z, i + 1, items, n);
    FindPropItem(ts, z, i + 1, items, n, name);
    var us := [Prop(ts[k].nameoff, value)];
    EditProp(ts, z, i + 1, items, n, name, us);
    AroundEdit(ts, i, n, k, k + 1, us);
    assert ts[k := us[0]] == ts[..k] + us + ts[k + 1..];
  }

  lemma AddRefines(ts: seq<Token>, z: bytes, i: nat, items: seq<Item>, n: nat, name: bytes, value: bytes,
      ts': seq<Token>, z': bytes)
    requires i < |ts| && ItemsAt(ts, z, i + 1, items, n) && GetItem(items, name).None?
    requires PropAdded(ts, i, name, value, ts', z') && z <= z'
    ensures Rewritten(ts, z, i, n, ts', z', SetItem(items, name, value))
  {
    hide Items, ItemsAt, StringAt;
    ItemsAtStep(ts, z, i + 1, items, n);
    ItemsAtAppend(ts, z, z'[|z|..], i + 1, items, n);
    assert z + z'[|z|..] == z';
    PropInFront(ts, z', i + 1, items, n, ts'[i + 1]);
    AroundEdit(ts, i, n, i + 1, i + 1, [ts'[i + 1]]);
  }

  /** Names stay what they are when the strings block grows. */
  lemma ItemsAtAppend(ts: seq<Token>, z: bytes, more: bytes, j: nat, items: seq<Item>, n: nat)
    requires ItemsAt(ts, z, j, items, n)
    ensures ItemsAt(ts, z + more, j, items, n)
  {
    hide Items;
    ItemsAppend(ts[j..], z, more);
  }

  /** `fdt_delprop` and `fdt_nop_property` remove the property from the tree; both give the same items. */
  lemma DelPropRefines(ts: seq<Token>, z: bytes, i: nat, items: seq<Item>, n: nat, name: bytes, us: seq<Token>)
    requires i < |ts| && ItemsAt(ts, z, i + 1, items, n) && FindProp(ts, z, i + 1, name).Some?
    requires forall m :: 0 <= m < |us| ==> us[m].Nop?
    ensures var k := FindProp(ts, z, i + 1, name).value;
      k < |ts| && Rewritten(ts, z, i, n, ts[..k] + us + ts[k + 1..], z, RemoveItem(items, name))
  {
    hide Items, ItemsAt, StringAt, FindProp;
    ItemsAtStep(ts, z, i + 1, items, n);
    FindPropItem(ts, z, i + 1, items, n, name);
    var k := FindProp(ts, z, i + 1, name).value;
    EditProp(ts, z, i + 1, items, n, name, us);
    AroundEdit(ts, i, n, k, k + 1, us);
  }

  // ---------- subnodes ----------

  /** `fdt_add_subnode` adds an empty subnode to the tree. */
  lemma AddSubnodeRefines(ts: seq<Token>, z: bytes, i: nat, items: seq<Item>, n: nat, name: bytes)
    requires i < |ts| && ItemsAt(ts, z, i + 1, items, n)
    ensures var k := LeadEnd(ts, i + 1);
      k <= |ts| && Rewritten(ts, z, i, n, ts[..k] + [BeginNode(name), EndNode] + ts[k..], z, AddItem(items, name))
  {
    hide Items, ItemsAt, StringAt;
    ItemsAtStep(ts, z, i + 1, items, n);
    FindPropItem(ts, z, i + 1, items, n, []);
    AddSub(ts, z, i + 1, items, n, name);
    var k := LeadEnd(ts, i + 1);
    AroundEdit(ts, i, n, k, k, [BeginNode(name), EndNode]);
  }

  /** Looking the new subnode up again gives its offset, it has no items, and its end is where the edit ended. */
  lemma AddThenLookUp(ts: seq<Token>, z: bytes, i: nat, items: seq<Item>, n: nat, name: bytes)
    requires i < |ts| && ItemsAt(ts, z, i + 1, items, n) && FindSub(ts, i + 1, 0, name).None?
    ensures var k := LeadEnd(ts, i + 1);
      && k <= |ts|
      && var ts' := ts[..k] + [BeginNode(name), EndNode] + ts[k..];
      && FindSub(ts', i + 1, 0, name) == Some(k) && NodeEnd(ts', k + 1, 0) == Some(k + 2)
      && ts'[..k] + ts'[k + 2..] == ts
  {
    hide Items, ItemsAt, StringAt, NameEq;
    ItemsAtStep(ts, z, i + 1, items, n);
    FindPropItem(ts, z, i + 1, items, n, []);
    var k := LeadEnd(ts, i + 1);
    var ts' := ts[..k] + [BeginNode(name), EndNode] + ts[k..];
    SkipLead(ts, ts', i + 1, name);
    assert ts'[k] == BeginNode(name) && ts'[k + 1] == EndNode;
    SelfEq(name);
  }

  /** The lookup passes over the leading properties. */
  lemma {:induction false} SkipLead(ts: seq<Token>, ts': seq<Token>, j: nat, name: bytes)
    requires j <= LeadEnd(ts, j) <= |ts| && LeadEnd(ts, j) <= |ts'| && ts'[..LeadEnd(ts, j)] == ts[..LeadEnd(ts, j)]
    ensures FindSub(ts', j, 0, name) == FindSub(ts', LeadEnd(ts, j), 0, name)
    decreases |ts| - j
  {
    hide NameEq;
    if j < LeadEnd(ts, j) {
      SamePrefix(ts, ts', LeadEnd(ts, j), j);
      SkipLead(ts, ts', j + 1, name);
    }
  }

  /** `fdt_del_node` and `fdt_nop_node` take the node, wherever it is, out of the tree that encloses it: the node at
      some path, and nothing else. Both give the same items. */
  lemma DelNodeRefines(ts: seq<Token>, z: bytes, j: nat, items: seq<Item>, n: nat, i: nat, us: seq<Token>)
    returns (path: seq<nat>)
    requires ItemsAt(ts, z, j, items, n) && j <= i < j + n && i < |ts| && ts[i].BeginNode?
    requires forall m :: 0 <= m < |us| ==> us[m].Nop?
    ensures AtPath(items, path).Some? && AtPath(items, path).value.name == ts[i].name
    ensures NodeEnd(ts, i + 1, 0).Some?
    ensures var e := NodeEnd(ts, i + 1, 0).value;
      && i < e < j + n <= |ts|
      && ItemsAt(ts, z, i + 1, AtPath(items, path).value.items, e - i - 1)
      && ItemsAt(ts[..i] + us + ts[e..], z, j, SpliceAt(items, path, []), n - (e - i) + |us|)
  {
    hide Items, ItemsAt, StringAt, Run, SpliceAt, AtPath, NodeEnd;
    RunNops(us, z);
    path := SpliceNode(ts, z, j, items, n, i, us, []);
    EndOfItems(ts, z, i + 1, AtPath(items, path).value.items, InnerLen(ts, z, i));
  }

  lemma EndOfItems(ts: seq<Token>, z: bytes, j: nat, items: seq<Item>, n: nat)
    requires ItemsAt(ts, z, j, items, n)
    ensures NodeEnd(ts, j, 0) == Some(j + n)
  {
    hide Items, NodeEnd;
    ItemsEnd(ts, z, j, 0);
  }

  /** NOPs say nothing: overwriting and cutting out give streams that say the same. */
  lemma NopsSayNothing(ts: seq<Token>, z: bytes, i: nat, e: nat, k: nat)
    requires i <= e <= |ts|
    ensures FdtEdit.Says(ts[..i] + Nops(k) + ts[e..], z) == FdtEdit.Says(ts[..i] + ts[e..], z)
  {
    SaysConcat(ts[..i] + Nops(k), ts[e..], z);
    SaysConcat(ts[..i], Nops(k), z);
    SaysConcat(ts[..i], ts[e..], z);
    Silent(z, k);
  }

  lemma {:induction false} Silent(z: bytes, k: nat)
    ensures FdtEdit.Says(Nops(k), z) == []
  {
    if k > 0 {
      assert Nops(k)[1..] == Nops(k - 1);
      Silent(z, k - 1);
    }
  }

  /** Two runs of tokens that say the same are the same items. */
  lemma SayingTheSame(a: seq<Token>, c: seq<Token>, z: bytes, xs: seq<Item>, ys: seq<Item>)
    requires IsItems(a, z, xs) && IsItems(c, z, ys) && FdtEdit.Says(a, z) == FdtEdit.Says(c, z)
    ensures xs == ys
  {
    hide FdtEdit.Says, IsItems, FlattenItems, ParseItems;
    ItemsSay(a, z, xs);
    ItemsSay(c, z, ys);
    ParseFlattenItems(xs, []);
    ParseFlattenItems(ys, []);
    assert FlattenItems(xs) + [EndE] + [] == FlattenItems(xs) + [EndE] == FlattenItems(ys) + [EndE]
      == FlattenItems(ys) + [EndE] + [];
  }

  /** The two deletions agree: cutting the node out and overwriting it leave the same tree. */
  lemma DeletionsAgree(ts: seq<Token>, z: bytes, j: nat, items: seq<Item>, n: nat, i: nat, k: nat)
    returns (path: seq<nat>)
    requires ItemsAt(ts, z, j, items, n) && j <= i < j + n && i < |ts| && ts[i].BeginNode?
    ensures AtPath(items, path).Some? && AtPath(items, path).value.name == ts[i].name
    ensures NodeEnd(ts, i + 1, 0).Some?
    ensures var e := NodeEnd(ts, i + 1, 0).value;
      && i < e < j + n <= |ts|
      && ItemsAt(ts[..i] + ts[e..], z, j, SpliceAt(items, path, []), n - (e - i))
      && ItemsAt(ts[..i] + Nops(k) + ts[e..], z, j, SpliceAt(items, path, []), n - (e - i) + k)
  {
    hide Items, ItemsAt, StringAt, SpliceAt, AtPath, NodeEnd, FdtEdit.Says;
    path := DelNodeRefines(ts, z, j, items, n, i, []);
    var other := DelNodeRefines(ts, z, j, items, n, i, Nops(k));
    var e := NodeEnd(ts, i + 1, 0).value;
    var m := n - (e - i);
    assert ts[..i] + [] + ts[e..] == ts[..i] + ts[e..];
    var a, c := ts[..i] + ts[e..], ts[..i] + Nops(k) + ts[e..];
    CutAt(a, z, j, SpliceAt(items, path, []), m);
    CutAt(c, z, j, SpliceAt(items, other, []), m + k);
    var x, y := ts[j..i], ts[e..j + n];
    EditedSlice(ts, j, i, e, [], j + n - e);
    EditedSlice(ts, j, i, e, Nops(k), j + n - e);
    assert x + [] + y == x + y;
    SaysConcat(x, y, z);
    SaysConcat(x + Nops(k), y, z);
    SaysConcat(x, Nops(k), z);
    Silent(z, k);
    SayingTheSame(x + y, x + Nops(k) + y, z, SpliceAt(items, path, []), SpliceAt(items, other, []));
  }

  lemma EditedSlice(ts: seq<Token>, j: nat, i: nat, e: nat, us: seq<Token>, m: nat)
    requires j <= i <= e && e + m <= |ts|
    ensures (ts[..i] + us + ts[e..])[j..i + |us| + m] == ts[j..i] + us + ts[e..e + m]
  {
    var all := ts[..i] + us + ts[e..];
    assert all[j..i] == ts[j..i] && all[i..i + |us|] == us && all[i + |us|..i + |us| + m] == ts[e..e + m];
    assert all[j..i + |us| + m] == all[j..i] + all[i..i + |us|] + all[i + |us|..i + |us| + m];
  }

  lemma CutAt(ts: seq<Token>, z: bytes, j: nat, items: seq<Item>, n: nat)
    requires ItemsAt(ts, z, j, items, n) && j + n <= |ts|
    ensures IsItems(ts[j..j + n], z, items)
  {
    hide Items;
    ItemsCut(ts[j..], z);
    assert ts[j..][..n] == ts[j..j + n];
  }

  // ---------- the tree around the node ----------

  /** Rewriting a node rewrites the whole tree at the path of that node, and nowhere else. */
  lemma RewrittenInTree(ts: seq<Token>, z: bytes, j: nat, items: seq<Item>, n: nat, i: nat, m: nat, ts': seq<Token>,
      z': bytes, items': seq<Item>)
    returns (path: seq<nat>)
    requires ItemsAt(ts, z, j, items, n) && j <= i < j + n && i < |ts| && ts[i].BeginNode?
    requires m == InnerLen(ts, z, i) && Rewritten(ts, z, i, m, ts', z', items')
    ensures AtPath(items, path).Some?
    ensures AtPath(items, path).value.name == ts[i].name && ItemsAt(ts, z, i + 1, AtPath(items, path).value.items, m)
    ensures n + |ts'| >= |ts| &&
      ItemsAt(ts', z', j, SpliceAt(items, path, [Sub(Node(ts[i].name, items'))]), n + |ts'| - |ts|)
  {
    hide Items, ItemsAt, StringAt, Run, SpliceAt, AtPath;
    var m' := m + |ts'| - |ts|;
    var more := z'[|z|..];
    assert z + more == z';
    ItemsAtAppend(ts, z, more, j, items, n);
    NodeIsRun(ts', z', i, items', m');
    var us := ts'[i..i + 1 + m'];
    SamePrefix(ts, ts', i + 1, i);
    RunNops([], z);
    var p0 := SpliceNode(ts, z, j, items, n, i, [], []);
    ItemsAtAppend(ts, z, more, i + 1, AtPath(items, p0).value.items, m);
    SameInner(ts, z', i, AtPath(items, p0).value.items, m);
    path := SpliceNode(ts, z', j, items, n, i, us, [Sub(Node(ts[i].name, items'))]);
    Reassembled(ts, ts', i, m, m');
    SameItems(ts, z', i + 1, AtPath(items, p0).value.items, AtPath(items, path).value.items, m);
  }

  lemma SameInner(ts: seq<Token>, z: bytes, i: nat, inner: seq<Item>, m: nat)
    requires i < |ts| && ItemsAt(ts, z, i + 1, inner, m)
    ensures InnerLen(ts, z, i) == m
  {
    hide Items;
  }

  lemma SameItems(ts: seq<Token>, z: bytes, j: nat, a: seq<Item>, b: seq<Item>, m: nat)
    requires ItemsAt(ts, z, j, a, m) && ItemsAt(ts, z, j, b, m)
    ensures a == b
  {
    hide Items;
  }

  lemma Reassembled(ts: seq<Token>, ts': seq<Token>, i: nat, m: nat, m': nat)
    requires i + 1 + m <= |ts| && i + 1 + m' <= |ts'|
    requires ts'[..i + 1] == ts[..i + 1] && ts'[i + 1 + m'..] == ts[i + 1 + m..]
    ensures ts[..i] + ts'[i..i + 1 + m'] + ts[i + 1 + m..] == ts'
  {
    assert ts'[..i] == ts'[..i + 1][..i] == ts[..i + 1][..i] == ts[..i];
    assert ts' == ts'[..i] + ts'[i..i + 1 + m'] + ts'[i + 1 + m'..];
  }

  // ---------- adding and deleting ----------

  lemma FilledThenRemoved(s: bytes, s1: bytes, s2: bytes, p: nat, d: nat, n: nat)
    requires HoleFilled(s, s1, p, d, n) && Spliced(s1, s2, p, p + n, d + n, [])
    ensures d <= |s2| && s2[..d] == s[..d]
  {
    hide Spliced;
    SplicedBounds(s, s1, p, p, d, s1[p..p + n]);
    SplicedSlices(s, s1, p, p, d, s1[p..p + n], 0, p);
    SplicedBounds(s1, s2, p, p + n, d + n, []);
    SplicedSlices(s1, s2, p, p + n, d + n, [], 0, p + n);
    assert s2[..d] == s2[..p] + s2[p..d] && s[..d] == s[..p] + s[p..d];
  }

  lemma SplicedBounds(s: bytes, s': bytes, p: nat, q: nat, d: nat, c: bytes)
    requires Spliced(s, s', p, q, d, c)
    ensures p <= q <= d <= |s| && p + |c| + (d - q) <= |s'|
  {
  }

  /** Deleting the node that was just added restores the header, the tokens and every used byte. */
  method AddThenDelete(d: RwBlob, parent: int, name: bytes, ghost i: nat, ghost items: seq<Item>, ghost n: nat)
    returns (offset: int, err: int)
    requires d.Valid() && NoNul(name) && IntSized(|name|)
    requires i < |d.tokens| && d.tokens[i].BeginNode? && parent == Off(d.tokens, i)
    requires ItemsAt(d.tokens, d.Strings(), i + 1, items, n)
    modifies d, d.buf
    ensures d.Valid() && (offset >= 0 ==> err == 0)
    ensures offset >= 0 ==>
      && d.tokens == old(d.tokens) && d.Strings() == old(d.Strings())
      && d.View() == old(d.View()).(data := d.buf[..], version := 17)
      && DataSize(d.View()) <= d.buf.Length && d.buf[..DataSize(d.View())] == old(d.buf[..])[..DataSize(d.View())]
  {
    hide Items, ItemsAt, Streams, Good, FindSub, LeadEnd, NodeEnd, Spliced, HoleFilled, Ordered, FdtCheck.StringsOf,
      Off, TagAlign;
    ghost var b, ts, z := d.View(), d.tokens, d.Strings();
    DataFits(b, ts);
    err := 0;
    offset := d.AddSubnode(parent, name, i);
    if offset < 0 {
      return;
    }
    ghost var k, size := LeadEnd(ts, i + 1), 8 + TagAlign(|name| + 1);
    AddThenLookUp(ts, z, i, items, n, name);
    ghost var s1 := d.buf[..];
    NodeSize(ts, k, name);
    err := d.DelNode(offset, k);
    FilledThenRemoved(b.data, s1, d.buf[..], b.offStruct + offset, DataSize(b), size);
  }

  lemma NodeSize(ts: seq<Token>, k: nat, name: bytes)
    requires k <= |ts|
    ensures var ts' := ts[..k] + [BeginNode(name), EndNode] + ts[k..];
      Off(ts', k) == Off(ts, k) && Off(ts', k + 2) == Off(ts, k) + 8 + TagAlign(|name| + 1) && ts'[k] == BeginNode(name)
  {
    var ts' := ts[..k] + [BeginNode(name), EndNode] + ts[k..];
    assert ts'[..k] == ts[..k] && ts'[..k + 2] == ts[..k] + [BeginNode(name), EndNode];
    LenOfConcat(ts[..k], [BeginNode(name), EndNode]);
    assert [BeginNode(name), EndNode] == [BeginNode(name)] + [EndNode];
    LenOfConcat([BeginNode(name)], [EndNode]);
  }
}
