/** What edits of the token stream do to the tree that the stream describes. */
module FdtEdit {
  import opened Words
  import opened FdtTokens
  import opened FdtStrings
  import opened FdtEvents
  import opened FdtTree
  import opened FdtLookup

  // ---------- the tree at a place of the stream ----------

  type Found = Option<(seq<Item>, nat)>

  /** The items that start with token `t`, when `next` is what follows it and `after` what follows its node. */
  function ItemsWith(t: Token, z: bytes, next: Found, after: Found): Found {
    match t
    case EndNode => Some(([], 1))
    case End => None
    case Nop => if next.None? then None else Some((next.value.0, next.value.1 + 1))
    case Prop(off, value) =>
      if next.None? || StringAt(z, off).None? then None
      else Some(([PropI(StringAt(z, off).value, value)] + next.value.0, next.value.1 + 1))
    case BeginNode(name) =>
      if next.None? || after.None? then None
      else Some(([Sub(Node(name, next.value.0))] + after.value.0, 1 + next.value.1 + after.value.1))
  }

  /** The items of a node whose tokens start `ts`, and how many tokens they take up to its end tag. */
  function Items(ts: seq<Token>, z: bytes): (r: Found)
    ensures r.Some? ==> 1 <= r.value.1 <= |ts|
    decreases |ts|
  {
    if ts == [] then None else
    var next := Items(ts[1..], z);
    var after := if ts[0].BeginNode? && next.Some? then Items(ts[1 + next.value.1..], z) else None;
    ItemsWith(ts[0], z, next, after)
  }

  /** One step of the definition. */
  lemma ItemsUnfold(ts: seq<Token>, z: bytes)
    ensures ts == [] ==> Items(ts, z) == None
    ensures ts != [] ==>
      Items(ts, z) == ItemsWith(ts[0], z, Items(ts[1..], z),
        if ts[0].BeginNode? && Items(ts[1..], z).Some? then Items(ts[1 + Items(ts[1..], z).value.1..], z) else None)
  {
  }

  /** `c` is exactly the tokens of the items `items` and the end tag after them. */
  predicate IsItems(c: seq<Token>, z: bytes, items: seq<Item>) {
    Items(c, z) == Some((items, |c|))
  }

  lemma SamePrefix(ts: seq<Token>, us: seq<Token>, n: nat, k: nat)
    requires k <= n <= |ts| && n <= |us| && ts[..n] == us[..n]
    ensures ts[k..][..n - k] == us[k..][..n - k]
    ensures forall m :: 0 <= m <= n - k ==> ts[k..][..m] == us[k..][..m]
    ensures k < n ==> ts[k] == us[k]
  {
    forall m | 0 <= m <= n - k ensures ts[k..][..m] == us[k..][..m] {
      forall i | 0 <= i < m ensures ts[k..][..m][i] == us[k..][..m][i] {
        assert ts[k + i] == ts[..n][k + i] == us[..n][k + i];
      }
    }
    if k < n { assert ts[k] == ts[..n][k] == us[..n][k]; }
  }

  /** The items found depend on the tokens they take alone. */
  lemma {:induction false} ItemsPrefix(ts: seq<Token>, us: seq<Token>, z: bytes)
    requires Items(ts, z).Some?
    requires Items(ts, z).value.1 <= |us| && ts[..Items(ts, z).value.1] == us[..Items(ts, z).value.1]
    ensures Items(us, z) == Items(ts, z)
    decreases |ts|
  {
    hide Items;
    ItemsUnfold(ts, z);
    ItemsUnfold(us, z);
    var m := Items(ts, z).value.1;
    SamePrefix(ts, us, m, 0);
    SamePrefix(ts, us, m, 1);
    if ts[0].BeginNode? {
      var n := Items(ts[1..], z).value.1;
      ItemsPrefix(ts[1..], us[1..], z);
      SamePrefix(ts, us, m, 1 + n);
      ItemsPrefix(ts[1 + n..], us[1 + n..], z);
    } else if ts[0].Nop? || ts[0].Prop? {
      ItemsPrefix(ts[1..], us[1..], z);
    }
  }

  lemma ItemsCut(ts: seq<Token>, z: bytes)
    requires Items(ts, z).Some?
    ensures IsItems(ts[..Items(ts, z).value.1], z, Items(ts, z).value.0)
  {
    var m := Items(ts, z).value.1;
    assert ts[..m][..m] == ts[..m];
    ItemsPrefix(ts, ts[..m], z);
  }

  /** A stream of items that starts with a node, taken apart and put together. */
  lemma NodeFirst(c: seq<Token>, z: bytes, items: seq<Item>)
    requires IsItems(c, z, items) && c[0].BeginNode?
    ensures var n := Items(c[1..], z).value.1;
      && Items(c[1..], z).Some? && 1 + n <= |c| && items != []
      && items[0] == Sub(Node(c[0].name, Items(c[1..], z).value.0))
      && IsItems(c[1..1 + n], z, Items(c[1..], z).value.0) && IsItems(c[1 + n..], z, items[1..])
  {
    hide Items;
    ItemsUnfold(c, z);
    var n := Items(c[1..], z).value.1;
    ItemsCut(c[1..], z);
    assert c[1..][..n] == c[1..1 + n];
  }

  // ---------- events of a stream ----------

  function EventOf(t: Token, z: bytes): seq<Event> {
    match t
    case BeginNode(name) => [BeginE(name)]
    case EndNode => [EndE]
    case Prop(off, value) => (match StringAt(z, off) case Some(name) => [PropE(name, value)] case None => [])
    case _ => []
  }

  /** What a stream says; NOPs and the end tag say nothing. */
  function Says(ts: seq<Token>, z: bytes): seq<Event> {
    if ts == [] then [] else EventOf(ts[0], z) + Says(ts[1..], z)
  }

  lemma {:induction false} SaysConcat(a: seq<Token>, b: seq<Token>, z: bytes)
    ensures Says(a + b, z) == Says(a, z) + Says(b, z)
    decreases |a|
  {
    if a == [] {
      assert a + b == b;
    } else {
      assert (a + b)[0] == a[0] && (a + b)[1..] == a[1..] + b;
      SaysConcat(a[1..], b, z);
    }
  }

  lemma {:induction false} ItemsAppend(ts: seq<Token>, z: bytes, more: bytes)
    requires Items(ts, z).Some?
    ensures Items(ts, z + more) == Items(ts, z)
    decreases |ts|
  {
    hide Items, StringAt;
    ItemsUnfold(ts, z);
    ItemsUnfold(ts, z + more);
    if !ts[0].EndNode? { ItemsAppend(ts[1..], z, more); }
    if ts[0].BeginNode? { ItemsAppend(ts[1 + Items(ts[1..], z).value.1..], z, more); }
    if ts[0].Prop? { StringAtAppend(z, more, ts[0].nameoff); }
  }

  lemma FlattenFirst(items: seq<Item>)
    requires items != []
    ensures FlattenItems(items) == FlattenItem(items[0]) + FlattenItems(items[1..])
  {
  }

  lemma FlattenSub(n: Node)
    ensures FlattenItem(Sub(n)) == [BeginE(n.name)] + FlattenItems(n.items) + [EndE]
  {
  }

  lemma SaysFirst(ts: seq<Token>, z: bytes)
    requires ts != []
    ensures Says(ts, z) == EventOf(ts[0], z) + Says(ts[1..], z)
  {
  }

  /** The tokens of a node say its items and its end. */
  lemma {:induction false} ItemsSay(c: seq<Token>, z: bytes, items: seq<Item>)
    requires IsItems(c, z, items)
    ensures Says(c, z) == FlattenItems(items) + [EndE]
    decreases |c|
  {
    hide Items, StringAt, Flatten, FlattenItems, FlattenItem, Says;
    ItemsUnfold(c, z);
    SaysFirst(c, z);
    if c[0].EndNode? {
      NothingSaid(c[1..], z);
    } else if c[0].BeginNode? {
      NodeFirst(c, z, items);
      var n := Items(c[1..], z).value.1;
      ItemsSay(c[1..1 + n], z, items[0].node.items);
      ItemsSay(c[1 + n..], z, items[1..]);
      SaysConcat(c[1..1 + n], c[1 + n..], z);
      assert c[1..] == c[1..1 + n] + c[1 + n..];
      FlattenFirst(items);
      FlattenSub(items[0].node);
    } else if c[0].Prop? {
      ItemsSay(c[1..], z, items[1..]);
      FlattenFirst(items);
      FlattenProp(items[0]);
    } else {
      ItemsSay(c[1..], z, items);
    }
  }

  lemma FlattenProp(i: Item)
    requires i.PropI?
    ensures FlattenItem(i) == [PropE(i.name, i.value)]
  {
  }

  lemma NothingSaid(ts: seq<Token>, z: bytes)
    requires ts == []
    ensures Says(ts, z) == [] && FlattenItems([]) == []
  {
  }

  /** The end of the node is where `fdt_node_end_offset_` finds it. */
  lemma {:induction false} ItemsEnd(ts: seq<Token>, z: bytes, j: nat, d: nat)
    requires j <= |ts| && Items(ts[j..], z).Some?
    ensures var n := Items(ts[j..], z).value.1;
      && j + n <= |ts|
      && NodeEnd(ts, j, d) == if d == 0 then Some(j + n) else NodeEnd(ts, j + n, d - 1)
    decreases |ts| - j
  {
    hide Items, StringAt, NodeEnd;
    var c := ts[j..];
    ItemsUnfold(c, z);
    assert c[0] == ts[j];
    SuffixOfSuffix(ts, j, 1);
    NodeEndUnfold(ts, j, d);
    if ts[j].BeginNode? {
      var n := Items(ts[j + 1..], z).value.1;
      ItemsEnd(ts, z, j + 1, d + 1);
      SuffixOfSuffix(ts, j, 1 + n);
      ItemsEnd(ts, z, j + 1 + n, d);
    } else if !ts[j].EndNode? {
      ItemsEnd(ts, z, j + 1, d);
    }
  }

  lemma SuffixOfSuffix(ts: seq<Token>, j: nat, k: nat)
    requires j + k <= |ts|
    ensures ts[j..][k..] == ts[j + k..]
  {
  }

  lemma NodeEndUnfold(ts: seq<Token>, j: nat, d: nat)
    requires j < |ts|
    ensures NodeEnd(ts, j, d) ==
      match ts[j]
      case BeginNode(_) => NodeEnd(ts, j + 1, d + 1)
      case EndNode => if d == 0 then Some(j + 1) else NodeEnd(ts, j + 1, d - 1)
      case End => None
      case _ => NodeEnd(ts, j + 1, d)
  {
  }
}
