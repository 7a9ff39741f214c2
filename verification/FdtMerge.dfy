/** Merging an overlay into a tree: what the merged tree contains. */
module FdtMerge {
  import opened Words
  import opened FdtTokens
  import opened FdtTree
  import opened FdtLookup
  import opened FdtItems

  // ---------- the merge that `overlay_apply_node` performs ----------

  /** The leading properties of the overlay node are set one after the other. */
  function SetProps(base: seq<Item>, over: seq<Item>): seq<Item>
    decreases |over|
  {
    if over == [] || over[0].Sub? then base else SetProps(SetItem(base, over[0].name, over[0].value), over[1..])
  }

  /** The subnodes of the overlay node are merged one after the other. */
  function MergeSubs(base: seq<Item>, over: seq<Item>): seq<Item>
    decreases over, 0
  {
    if over == [] then base else MergeSubs(MergeItem(base, over[0]), over[1..])
  }

  function MergeItem(base: seq<Item>, over: Item): seq<Item>
    decreases over, 2
  {
    match over
    case PropI(_, _) => base
    case Sub(n) => MergeSub(base, n)
  }

  /** A subnode that no name matches is added first. */
  function WithSub(base: seq<Item>, name: bytes): (r: seq<Item>)
    ensures FindItem(r, name).Some? && FindItem(r, name).value < |r| && r[FindItem(r, name).value].Sub?
  {
    FindItemIsSub(base, name);
    if FindItem(base, name).Some? then base
    else
      AddThenFind(base, name);
      AddItem(base, name)
  }

  function MergeSub(base: seq<Item>, over: Node): seq<Item>
    decreases over, 1
  {
    var b := WithSub(base, over.name);
    var q := FindItem(b, over.name).value;
    b[q := Sub(Node(b[q].node.name, Merge(b[q].node.items, over.items)))]
  }

  function Merge(base: seq<Item>, over: seq<Item>): seq<Item>
    decreases over, 1
  {
    MergeSubs(SetProps(base, over), over)
  }

  lemma {:induction false} FindItemIsSub(items: seq<Item>, s: bytes)
    ensures FindItem(items, s).Some? ==>
      FindItem(items, s).value < |items| && items[FindItem(items, s).value].Sub?
      && NameEq(items[FindItem(items, s).value].node.name, s)
  {
    if items != [] { FindItemIsSub(items[1..], s); }
  }

  // ---------- an independent view: looking things up by path ----------

  /** The items of the subnode that is found by name. */
  function At(items: seq<Item>, s: bytes): Option<seq<Item>> {
    FindItemIsSub(items, s);
    match FindItem(items, s) case None => None case Some(q) => Some(items[q].node.items)
  }

  /** The value of a property of the node that is found by a path of names. */
  function LookUp(items: seq<Item>, path: seq<bytes>, name: bytes): Option<bytes>
    decreases |path|
  {
    if path == [] then GetItem(items, name)
    else match At(items, path[0]) case None => None case Some(inner) => LookUp(inner, path[1..], name)
  }

  /** The names of the subnodes of a node. */
  function Top(items: seq<Item>): set<bytes> {
    if items == [] then {} else (if items[0].Sub? then {items[0].node.name} else {}) + Top(items[1..])
  }

  /** No name of the set is another one with its unit address left out. */
  predicate Exact(names: set<bytes>) {
    forall a, b :: a in names && b in names && NameEq(a, b) ==> a == b
  }

  /** On the way along `path`, as long as the overlay goes along, no name met at a level (of a subnode in either tree,
      or the one looked up) can be taken for another one of the same level. */
  predicate PathExact(base: seq<Item>, over: seq<Item>, path: seq<bytes>)
    decreases |path|
  {
    path == [] || (
      && Exact(Top(base) + Top(over) + {path[0]})
      && (At(over, path[0]).Some? ==> PathExact(Or(At(base, path[0])), At(over, path[0]).value, path[1..])))
  }

  /** The items there, none if there is no such node. */
  function Or(x: Option<seq<Item>>): seq<Item> {
    if x.Some? then x.value else []
  }

  /** At every depth, no two leading properties and no two subnodes have the same name. */
  predicate Distinct(items: seq<Item>)
    decreases items, 0
  {
    items == [] || (
      && Distinct(items[1..]) && DistinctInside(items[0])
      && (items[0].PropI? ==> GetItem(items[1..], items[0].name).None?)
      && (items[0].Sub? ==> NoSub(items[1..], items[0].node.name)))
  }

  predicate DistinctInside(i: Item)
    decreases i, 1
  {
    match i
    case PropI(_, _) => true
    case Sub(n) => Distinct(n.items)
  }

  predicate NoSub(items: seq<Item>, name: bytes) {
    forall k :: 0 <= k < |items| && items[k].Sub? ==> items[k].node.name != name
  }

  // ---------- properties of one node ----------

  lemma {:induction false} SetPropsGet(base: seq<Item>, over: seq<Item>, name: bytes)
    requires Distinct(over)
    ensures GetItem(SetProps(base, over), name) == if GetItem(over, name).Some? then GetItem(over, name)
      else GetItem(base, name)
    decreases |over|
  {
    if over != [] && over[0].PropI? {
      SetPropsGet(SetItem(base, over[0].name, over[0].value), over[1..], name);
      SetThenGet(base, over[0].name, over[0].value, name);
    }
  }

  lemma {:induction false} AddKeepsGet(items: seq<Item>, s: bytes, name: bytes)
    ensures GetItem(AddItem(items, s), name) == GetItem(items, name)
  {
    if items != [] && items[0].PropI? {
      assert AddItem(items, s)[1..] == AddItem(items[1..], s);
      AddKeepsGet(items[1..], s, name);
    }
  }

  lemma {:induction false} UpdateKeepsGet(items: seq<Item>, q: nat, node: Node, name: bytes)
    requires q < |items| && items[q].Sub?
    ensures GetItem(items[q := Sub(node)], name) == GetItem(items, name)
  {
    var r := items[q := Sub(node)];
    if items[0].PropI? {
      assert r[1..] == items[1..][q - 1 := Sub(node)];
      UpdateKeepsGet(items[1..], q - 1, node, name);
    }
  }

  lemma {:induction false} MergeSubsGet(base: seq<Item>, over: seq<Item>, name: bytes)
    ensures GetItem(MergeSubs(base, over), name) == GetItem(base, name)
    decreases |over|
  {
    if over != [] {
      MergeSubsGet(MergeItem(base, over[0]), over[1..], name);
      if over[0].Sub? { MergeSubGet(base, over[0].node, name); }
    }
  }

  lemma MergeSubGet(base: seq<Item>, over: Node, name: bytes)
    ensures GetItem(MergeSub(base, over), name) == GetItem(base, name)
  {
    hide GetItem, Merge;
    AddKeepsGet(base, over.name, name);
    var b := WithSub(base, over.name);
    var q := FindItem(b, over.name).value;
    UpdateKeepsGet(b, q, Node(b[q].node.name, Merge(b[q].node.items, over.items)), name);
  }

  // ---------- subnodes of one node ----------

  lemma {:induction false} SetKeepsAt(items: seq<Item>, name: bytes, value: bytes, s: bytes)
    ensures At(SetItem(items, name, value), s) == At(items, s)
  {
    if GetItem(items, name).Some? {
      ReplaceKeepsAt(items, name, value, s);
    } else {
      AtFirst([PropI(name, value)] + items, s);
      assert ([PropI(name, value)] + items)[1..] == items;
    }
  }

  /** One step of the lookup. */
  lemma AtFirst(items: seq<Item>, s: bytes)
    requires items != []
    ensures At(items, s) ==
      if items[0].Sub? && NameEq(items[0].node.name, s) then Some(items[0].node.items) else At(items[1..], s)
  {
    FindItemIsSub(items[1..], s);
  }

  lemma {:induction false} ReplaceKeepsAt(items: seq<Item>, name: bytes, value: bytes, s: bytes)
    ensures At(ReplaceItem(items, name, value), s) == At(items, s)
  {
    hide At;
    var r := ReplaceItem(items, name, value);
    if items != [] && items[0].PropI? {
      AtFirst(items, s);
      AtFirst(r, s);
      if items[0].name == name {
        assert r[1..] == items[1..];
      } else {
        assert r[1..] == ReplaceItem(items[1..], name, value);
        ReplaceKeepsAt(items[1..], name, value, s);
      }
    }
  }

  lemma {:induction false} SetPropsAt(base: seq<Item>, over: seq<Item>, s: bytes)
    ensures At(SetProps(base, over), s) == At(base, s)
    decreases |over|
  {
    hide At;
    if over != [] && over[0].PropI? {
      SetPropsAt(SetItem(base, over[0].name, over[0].value), over[1..], s);
      SetKeepsAt(base, over[0].name, over[0].value, s);
    }
  }

  lemma {:induction false} AddKeepsAt(items: seq<Item>, name: bytes, s: bytes)
    requires !NameEq(name, s)
    ensures At(AddItem(items, name), s) == At(items, s)
  {
    hide At, NameEq;
    var r := AddItem(items, name);
    AtFirst(r, s);
    if items == [] || items[0].Sub? {
      assert r[1..] == items;
    } else {
      AtFirst(items, s);
      assert r[1..] == AddItem(items[1..], name);
      AddKeepsAt(items[1..], name, s);
    }
  }

  /** Changing the items of the node that `name` finds does not disturb any other lookup. */
  lemma {:induction false} UpdateAt(items: seq<Item>, name: bytes, inner: seq<Item>, s: bytes)
    requires FindItem(items, name).Some?
    ensures var q := FindItem(items, name).value;
      && q < |items| && items[q].Sub?
      && var r := items[q := Sub(Node(items[q].node.name, inner))];
      At(r, s) == if NameEq(items[q].node.name, s) && FindItem(items, s) == Some(q) then Some(inner) else At(items, s)
  {
    hide At, NameEq;
    FindItemIsSub(items, name);
    var q := FindItem(items, name).value;
    var r := items[q := Sub(Node(items[q].node.name, inner))];
    AtFirst(items, s);
    AtFirst(r, s);
    FindItemUnfold(items, s);
    FindItemIsSub(items, s);
    if q == 0 {
      assert r[1..] == items[1..];
    } else {
      UpdateAt(items[1..], name, inner, s);
      assert r[1..] == items[1..][q - 1 := Sub(Node(items[q].node.name, inner))];
    }
  }

  // ---------- merging one subnode ----------

  lemma {:induction false} TopAt(items: seq<Item>, q: nat)
    requires q < |items| && items[q].Sub?
    ensures items[q].node.name in Top(items)
    decreases q
  {
    if q > 0 { TopAt(items[1..], q - 1); }
  }

  lemma {:induction false} UpdateTop(items: seq<Item>, q: nat, inner: seq<Item>)
    requires q < |items| && items[q].Sub?
    ensures Top(items[q := Sub(Node(items[q].node.name, inner))]) == Top(items)
    decreases q
  {
    var r := items[q := Sub(Node(items[q].node.name, inner))];
    if q == 0 {
      assert r[1..] == items[1..];
    } else {
      UpdateTop(items[1..], q - 1, inner);
      assert r[1..] == items[1..][q - 1 := Sub(Node(items[1..][q - 1].node.name, inner))];
    }
  }

  lemma {:induction false} AddTop(items: seq<Item>, name: bytes)
    ensures Top(AddItem(items, name)) == Top(items) + {name}
  {
    var r := AddItem(items, name);
    assert Top([]) == {};
    if items == [] || items[0].Sub? {
      assert r[1..] == items;
    } else {
      assert r[1..] == AddItem(items[1..], name);
      AddTop(items[1..], name);
    }
  }

  lemma {:induction false} ReplaceTop(items: seq<Item>, name: bytes, value: bytes)
    ensures Top(ReplaceItem(items, name, value)) == Top(items)
  {
    var r := ReplaceItem(items, name, value);
    if items != [] && items[0].PropI? {
      if items[0].name == name {
        assert r[1..] == items[1..];
      } else {
        assert r[1..] == ReplaceItem(items[1..], name, value);
        ReplaceTop(items[1..], name, value);
      }
    }
  }

  lemma {:induction false} SetPropsTop(base: seq<Item>, over: seq<Item>)
    ensures Top(SetProps(base, over)) == Top(base)
    decreases |over|
  {
    if over != [] && over[0].PropI? {
      var b := SetItem(base, over[0].name, over[0].value);
      if GetItem(base, over[0].name).Some? {
        ReplaceTop(base, over[0].name, over[0].value);
      } else {
        assert b[1..] == base;
      }
      SetPropsTop(b, over[1..]);
    }
  }

  /** What the merge of two nodes is to contain under the name `s`. */
  function Both(base: Option<seq<Item>>, over: seq<Item>): seq<Item> {
    Merge(Or(base), over)
  }

  lemma MergeItemTop(base: seq<Item>, over: Item)
    ensures Top(MergeItem(base, over)) <= Top(base) + (if over.Sub? then {over.node.name} else {})
  {
    hide Merge;
    if over.Sub? {
      var name := over.node.name;
      AddTop(base, name);
      var b := WithSub(base, name);
      var q := FindItem(b, name).value;
      UpdateTop(b, q, Merge(b[q].node.items, over.node.items));
    }
  }

  /** Under its own name the merged subnode is found, under every other name what was found before. */
  lemma MergeSubAt(base: seq<Item>, over: Node, names: set<bytes>, s: bytes)
    requires Top(base) <= names && over.name in names && s in names && Exact(names)
    ensures At(MergeSub(base, over), s) == if s == over.name then Some(Both(At(base, s), over.items)) else At(base, s)
  {
    hide Merge, Exact, NameEq, FindItem;
    var b := WithSub(base, over.name);
    AddTop(base, over.name);
    FindItemIsSub(b, over.name);
    var q := FindItem(b, over.name).value;
    TopAt(b, q);
    ExactPair(names, b[q].node.name, over.name);
    UpdateAt(b, over.name, Merge(b[q].node.items, over.items), s);
    if s == over.name {
      SelfEq(s);
      if FindItem(base, s).None? { AddThenFind(base, s); }
    } else {
      if NameEq(over.name, s) { ExactPair(names, over.name, s); }
      if FindItem(base, over.name).None? { AddKeepsAt(base, over.name, s); }
    }
  }

  lemma ExactPair(names: set<bytes>, a: bytes, b: bytes)
    requires Exact(names) && a in names && b in names && NameEq(a, b)
    ensures a == b
  {
  }

  lemma {:induction false} NoSubAt(items: seq<Item>, names: set<bytes>, s: bytes)
    requires Top(items) <= names && s in names && Exact(names) && NoSub(items, s)
    ensures At(items, s).None?
    decreases |items|
  {
    hide At, NameEq, Exact;
    if items != [] {
      AtFirst(items, s);
      assert forall k :: 0 <= k < |items[1..]| ==> items[1..][k] == items[k + 1];
      NoSubAt(items[1..], names, s);
      if items[0].Sub? && NameEq(items[0].node.name, s) { ExactPair(names, items[0].node.name, s); }
    } else {
      NothingAt(s);
    }
  }

  /** After all subnodes have been merged, a name finds the merge of what it found in the two trees. */
  lemma {:induction false} MergeSubsAt(base: seq<Item>, over: seq<Item>, names: set<bytes>, s: bytes)
    requires Top(base) + Top(over) <= names && s in names && Exact(names) && Distinct(over)
    ensures At(MergeSubs(base, over), s) == if At(over, s).Some? then Some(Both(At(base, s), At(over, s).value))
      else At(base, s)
    decreases |over|
  {
    hide At, NameEq, Exact, MergeSub, Both;
    if over == [] {
      NoSubAt([], names, s);
    } else {
      AtFirst(over, s);
      MergeItemTop(base, over[0]);
      MergeSubsAt(MergeItem(base, over[0]), over[1..], names, s);
      if over[0].Sub? {
        MergeSubAt(base, over[0].node, names, s);
        SelfEq(s);
        if NameEq(over[0].node.name, s) { ExactPair(names, over[0].node.name, s); }
        if over[0].node.name == s { NoSubAt(over[1..], names, s); }
      }
    }
  }

  // ---------- the merged tree ----------

  lemma {:induction false} DistinctAt(items: seq<Item>, s: bytes)
    requires Distinct(items) && At(items, s).Some?
    ensures Distinct(At(items, s).value)
  {
    hide At;
    if items == [] {
      NothingAt(s);
    } else {
      AtFirst(items, s);
      if !(items[0].Sub? && NameEq(items[0].node.name, s)) { DistinctAt(items[1..], s); }
    }
  }

  lemma NothingAt(s: bytes)
    ensures At([], s).None?
  {
  }

  /** The merge is right-biased and recursive: under every path of names, every property has the value that the
      overlay gives it there, and otherwise the value that it has in the base tree. This holds when no name can be
      taken for another one without its unit address at the levels that the path leads through, and the overlay has no
      duplicates. */
  lemma {:induction false} MergeLookUp(base: seq<Item>, over: seq<Item>, path: seq<bytes>, name: bytes)
    requires PathExact(base, over, path) && Distinct(over)
    ensures LookUp(Merge(base, over), path, name) ==
      if LookUp(over, path, name).Some? then LookUp(over, path, name) else LookUp(base, path, name)
    decreases |path|
  {
    hide Exact, At, Distinct, Top;
    if path == [] {
      SetPropsGet(base, over, name);
      MergeSubsGet(SetProps(base, over), over, name);
    } else {
      var s := path[0];
      SetPropsTop(base, over);
      MergeSubsAt(SetProps(base, over), over, Top(base) + Top(over) + {s}, s);
      SetPropsAt(base, over, s);
      if At(over, s).Some? {
        DistinctAt(over, s);
        NothingNamed(path[1..], name);
        MergeLookUp(Or(At(base, s)), At(over, s).value, path[1..], name);
      }
    }
  }

  lemma NothingNamed(path: seq<bytes>, name: bytes)
    ensures LookUp([], path, name) == None
  {
  }
}
