/** Properties and subnodes of one node: what the lookups find and what the edits change. */
module FdtItems {
  import opened Words
  import opened FdtTokens
  import opened FdtStrings
  import opened FdtTree
  import opened FdtLookup
  import opened FdtEdit

  // ---------- operations on the items of a node ----------

  /** The value of the first property of that name before the first subnode: what `fdt_getprop` answers. */
  function GetItem(items: seq<Item>, name: bytes): Option<bytes> {
    if items == [] || items[0].Sub? then None
    else if items[0].name == name then Some(items[0].value)
    else GetItem(items[1..], name)
  }

  /** Gives the property `GetItem` finds a new value. */
  function ReplaceItem(items: seq<Item>, name: bytes, value: bytes): seq<Item> {
    if items == [] || items[0].Sub? then items
    else if items[0].name == name then [PropI(name, value)] + items[1..]
    else [items[0]] + ReplaceItem(items[1..], name, value)
  }

  function RemoveItem(items: seq<Item>, name: bytes): seq<Item> {
    if items == [] || items[0].Sub? then items
    else if items[0].name == name then items[1..]
    else [items[0]] + RemoveItem(items[1..], name)
  }

  /** `fdt_setprop` on items: an existing property keeps its place, a new one goes to the front. */
  function SetItem(items: seq<Item>, name: bytes, value: bytes): seq<Item> {
    if GetItem(items, name).Some? then ReplaceItem(items, name, value) else [PropI(name, value)] + items
  }

  /** The first subnode whose name matches. */
  function FindItem(items: seq<Item>, s: bytes): Option<nat> {
    if items == [] then None
    else if items[0].Sub? && NameEq(items[0].node.name, s) then Some(0)
    else
      match FindItem(items[1..], s)
      case None => None
      case Some(q) => Some(q + 1)
  }

  /** Puts an empty subnode after the leading properties. */
  function AddItem(items: seq<Item>, name: bytes): seq<Item> {
    if items == [] || items[0].Sub? then [Sub(Node(name, []))] + items
    else [items[0]] + AddItem(items[1..], name)
  }

  /** Item `q` is a subnode that may be looked up by `s`. */
  ghost predicate SubCalled(items: seq<Item>, q: nat, s: bytes) {
    q < |items| && items[q].Sub? && CalledBy(items[q].node.name, s)
  }

  /** The lookup finds the first subnode of that name, the unit address being optional, exactly when there is one. */
  lemma {:induction false} FindItemFirst(items: seq<Item>, s: bytes)
    ensures match FindItem(items, s)
      case Some(q) => SubCalled(items, q, s) && forall p: nat :: p < q ==> !SubCalled(items, p, s)
      case None => forall p: nat :: !SubCalled(items, p, s)
  {
    hide NameEq, CalledBy;
    if items != [] {
      FindItemFirst(items[1..], s);
      if items[0].Sub? { NameEqMeans(items[0].node.name, s); }
      assert forall p: nat :: p > 0 ==> SubCalled(items, p, s) == SubCalled(items[1..], p - 1, s);
    }
  }

  /** Item `q` is a property of that name in front of the first subnode. */
  ghost predicate LeadingProp(items: seq<Item>, q: nat, name: bytes) {
    q < |items| && (forall p :: 0 <= p <= q ==> items[p].PropI?) && items[q].name == name
  }

  /** A property is read from the first one of its name in front of the first subnode, exactly when there is one. */
  lemma {:induction false} GetItemFirst(items: seq<Item>, name: bytes) returns (q: nat)
    ensures GetItem(items, name).Some? ==>
      && LeadingProp(items, q, name) && items[q].value == GetItem(items, name).value
      && forall p: nat :: p < q ==> !LeadingProp(items, p, name)
    ensures GetItem(items, name).None? ==> forall p: nat :: !LeadingProp(items, p, name)
  {
    q := 0;
    if items != [] && items[0].PropI? && items[0].name != name {
      q := GetItemFirst(items[1..], name);
      forall p: nat | p > 0 ensures LeadingProp(items, p, name) == LeadingProp(items[1..], p - 1, name) {
        if LeadingProp(items[1..], p - 1, name) {
          forall r | 0 <= r <= p ensures items[r].PropI? { if r > 0 { assert items[1..][r - 1].PropI?; } }
        }
      }
      q := q + 1;
    }
  }

  /** After setting, the property reads back and every other name reads as before. */
  lemma {:induction false} SetThenGet(items: seq<Item>, name: bytes, value: bytes, other: bytes)
    ensures GetItem(SetItem(items, name, value), other) == if other == name then Some(value) else GetItem(items, other)
  {
    if GetItem(items, name).Some? {
      ReplaceThenGet(items, name, value, other);
    } else {
      assert ([PropI(name, value)] + items)[1..] == items;
    }
  }

  lemma {:induction false} ReplaceThenGet(items: seq<Item>, name: bytes, value: bytes, other: bytes)
    requires GetItem(items, name).Some?
    ensures GetItem(ReplaceItem(items, name, value), other) == if other == name then Some(value)
      else GetItem(items, other)
  {
    var r := ReplaceItem(items, name, value);
    if items[0].name == name {
      assert r[1..] == items[1..];
    } else {
      assert r[1..] == ReplaceItem(items[1..], name, value);
      ReplaceThenGet(items[1..], name, value, other);
    }
  }

  /** Setting a property changes no subnode. */
  lemma {:induction false} SetKeepsSubnodes(items: seq<Item>, name: bytes, value: bytes)
    ensures Subnodes(SetItem(items, name, value)) == Subnodes(items)
  {
    if GetItem(items, name).Some? {
      ReplaceKeepsSubnodes(items, name, value);
    } else {
      assert ([PropI(name, value)] + items)[1..] == items;
    }
  }

  function Subnodes(items: seq<Item>): seq<Node> {
    if items == [] then [] else (if items[0].Sub? then [items[0].node] else []) + Subnodes(items[1..])
  }

  lemma {:induction false} ReplaceKeepsSubnodes(items: seq<Item>, name: bytes, value: bytes)
    ensures Subnodes(ReplaceItem(items, name, value)) == Subnodes(items)
  {
    var r := ReplaceItem(items, name, value);
    if items != [] && items[0].PropI? {
      if items[0].name == name {
        assert r[1..] == items[1..];
      } else {
        assert r[1..] == ReplaceItem(items[1..], name, value);
        ReplaceKeepsSubnodes(items[1..], name, value);
      }
    }
  }

  /** A subnode that was added because none matched is found, empty, at the place where it was put. */
  lemma {:induction false} AddThenFind(items: seq<Item>, name: bytes)
    requires FindItem(items, name).None?
    ensures FindItem(AddItem(items, name), name).Some?
    ensures var q := FindItem(AddItem(items, name), name).value;
      q < |AddItem(items, name)| && AddItem(items, name)[q] == Sub(Node(name, []))
      && AddItem(items, name)[..q] + AddItem(items, name)[q + 1..] == items
  {
    var r := AddItem(items, name);
    if items == [] || items[0].Sub? {
      assert NameEq(name, name);
      assert r[1..] == items;
    } else {
      assert r[1..] == AddItem(items[1..], name);
      AddThenFind(items[1..], name);
      var q := FindItem(r[1..], name).value;
      RestWithout(r, q);
    }
  }

  lemma RestWithout(r: seq<Item>, q: nat)
    requires q + 1 < |r|
    ensures r[..q + 1] + r[q + 2..] == [r[0]] + (r[1..][..q] + r[1..][q + 1..])
  {
  }

  // ---------- tokens and items ----------

  /** The tokens from `j` on are the items `items`, `n` tokens with the end tag. */
  predicate ItemsAt(ts: seq<Token>, z: bytes, j: nat, items: seq<Item>, n: nat) {
    j <= |ts| && Items(ts[j..], z) == Some((items, n))
  }

  /** The first token decides what kind of item comes first. */
  lemma ItemsAtStep(ts: seq<Token>, z: bytes, j: nat, items: seq<Item>, n: nat)
    requires ItemsAt(ts, z, j, items, n)
    ensures j < |ts| && 1 <= n && j + n <= |ts| && !ts[j].End?
    ensures ts[j].EndNode? ==> items == [] && n == 1
    ensures ts[j].Nop? ==> n >= 2 && ItemsAt(ts, z, j + 1, items, n - 1)
    ensures ts[j].Prop? ==>
      && n >= 2 && items != [] && items[0].PropI? && items[0].value == ts[j].value
      && StringAt(z, ts[j].nameoff) == Some(items[0].name)
      && ItemsAt(ts, z, j + 1, items[1..], n - 1)
    ensures ts[j].BeginNode? ==>
      && items != [] && items[0].Sub? && items[0].node.name == ts[j].name
      && Items(ts[j + 1..], z).Some?
      && var m := Items(ts[j + 1..], z).value.1;
      && m + 1 < n && ItemsAt(ts, z, j + 1, items[0].node.items, m) && ItemsAt(ts, z, j + 1 + m, items[1..], n - 1 - m)
  {
    hide Items, StringAt;
    var c := ts[j..];
    ItemsUnfold(c, z);
    SuffixOfSuffix(ts, j, 1);
    if ts[j].BeginNode? { SuffixOfSuffix(ts, j, 1 + Items(ts[j + 1..], z).value.1); }
  }

  /** Putting one more token, or one more node, in front. */
  lemma ItemsAtPut(ts: seq<Token>, z: bytes, j: nat, items: seq<Item>, n: nat)
    requires j < |ts| && ItemsAt(ts, z, j + 1, items, n)
    ensures ts[j].Nop? ==> ItemsAt(ts, z, j, items, n + 1)
    ensures ts[j].Prop? && StringAt(z, ts[j].nameoff).Some? ==>
      ItemsAt(ts, z, j, [PropI(StringAt(z, ts[j].nameoff).value, ts[j].value)] + items, n + 1)
  {
    hide Items, StringAt;
    ItemsUnfold(ts[j..], z);
    SuffixOfSuffix(ts, j, 1);
  }

  lemma ItemsAtPutNode(ts: seq<Token>, z: bytes, j: nat, inner: seq<Item>, m: nat, items: seq<Item>, n: nat)
    requires j < |ts| && ts[j].BeginNode? && ItemsAt(ts, z, j + 1, inner, m) && ItemsAt(ts, z, j + 1 + m, items, n)
    ensures ItemsAt(ts, z, j, [Sub(Node(ts[j].name, inner))] + items, 1 + m + n)
  {
    hide Items, StringAt;
    ItemsUnfold(ts[j..], z);
    SuffixOfSuffix(ts, j, 1);
    SuffixOfSuffix(ts, j, 1 + m);
  }

  /** The items depend on the tokens they take alone, wherever these stand. */
  lemma ItemsAtMove(ts: seq<Token>, z: bytes, j: nat, items: seq<Item>, n: nat, us: seq<Token>, k: nat)
    requires ItemsAt(ts, z, j, items, n) && j + n <= |ts| && k + n <= |us| && us[k..k + n] == ts[j..j + n]
    ensures ItemsAt(us, z, k, items, n)
  {
    hide Items;
    assert ts[j..][..n] == ts[j..j + n] && us[k..][..n] == us[k..k + n];
    ItemsPrefix(ts[j..], us[k..], z);
  }

  // ---------- properties ----------

  /** The property lookup on tokens is the lookup on items. */
  lemma {:induction false} FindPropItem(ts: seq<Token>, z: bytes, j: nat, items: seq<Item>, n: nat, name: bytes)
    requires ItemsAt(ts, z, j, items, n)
    ensures match FindProp(ts, z, j, name)
      case None => GetItem(items, name) == None
      case Some(k) =>
        && j <= k < j + n - 1 && k < |ts| && ts[k].Prop?
        && GetItem(items, name) == Some(ts[k].value) && StringAt(z, ts[k].nameoff) == Some(name)
    ensures j <= LeadEnd(ts, j) < j + n
    decreases n
  {
    hide Items, ItemsAt, StringAt;
    ItemsAtStep(ts, z, j, items, n);
    if ts[j].Nop? {
      FindPropItem(ts, z, j + 1, items, n - 1, name);
    } else if ts[j].Prop? {
      FindPropItem(ts, z, j + 1, items[1..], n - 1, name);
    }
  }

  /** Replacing the token of the property that is found by others that are NOPs or a property of that name. */
  lemma {:induction false} EditProp(ts: seq<Token>, z: bytes, j: nat, items: seq<Item>, n: nat, name: bytes,
      us: seq<Token>)
    requires ItemsAt(ts, z, j, items, n) && FindProp(ts, z, j, name).Some?
    requires us == [] || (forall i :: 0 <= i < |us| ==> us[i].Nop?)
      || (|us| == 1 && us[0].Prop? && StringAt(z, us[0].nameoff) == Some(name))
    ensures var k := FindProp(ts, z, j, name).value;
      && j <= k < |ts|
      && ItemsAt(ts[..k] + us + ts[k + 1..], z, j, Edited(items, name, us), n - 1 + |us|)
    decreases n
  {
    hide Items, ItemsAt, StringAt, FindProp, Edited;
    ItemsAtStep(ts, z, j, items, n);
    FindPropItem(ts, z, j, items, n, name);
    FindPropFrom(ts, z, j, name);
    var k := FindProp(ts, z, j, name).value;
    var ts' := ts[..k] + us + ts[k + 1..];
    if k == j {
      EditPropHere(ts, z, j, items, n, name, us);
    } else {
      assert ts'[j] == ts[j];
      if ts[j].Nop? {
        EditProp(ts, z, j + 1, items, n - 1, name, us);
        ItemsAtPut(ts', z, j, Edited(items, name, us), n - 2 + |us|);
      } else {
        EditedLater(items, name, us);
        EditProp(ts, z, j + 1, items[1..], n - 1, name, us);
        ItemsAtPut(ts', z, j, Edited(items[1..], name, us), n - 2 + |us|);
      }
    }
  }

  /** The items after the tokens of the property have been replaced by `us`: it has a new value, or is gone. */
  function Edited(items: seq<Item>, name: bytes, us: seq<Token>): seq<Item> {
    if us != [] && us[0].Prop? then ReplaceItem(items, name, us[0].value) else RemoveItem(items, name)
  }

  lemma EditedLater(items: seq<Item>, name: bytes, us: seq<Token>)
    requires items != [] && items[0].PropI?
    ensures items[0].name != name ==> Edited(items, name, us) == [items[0]] + Edited(items[1..], name, us)
  {
  }

  lemma FindPropFrom(ts: seq<Token>, z: bytes, j: nat, name: bytes)
    requires j < |ts|
    ensures FindProp(ts, z, j, name) ==
      match ts[j]
      case Prop(off, _) => if StringAt(z, off) == Some(name) then Some(j) else FindProp(ts, z, j + 1, name)
      case Nop => FindProp(ts, z, j + 1, name)
      case _ => None
  {
    hide StringAt;
  }

  lemma EditPropHere(ts: seq<Token>, z: bytes, j: nat, items: seq<Item>, n: nat, name: bytes, us: seq<Token>)
    requires ItemsAt(ts, z, j, items, n) && j < |ts| && ts[j].Prop? && StringAt(z, ts[j].nameoff) == Some(name)
    requires us == [] || (forall i :: 0 <= i < |us| ==> us[i].Nop?)
      || (|us| == 1 && us[0].Prop? && StringAt(z, us[0].nameoff) == Some(name))
    ensures ItemsAt(ts[..j] + us + ts[j + 1..], z, j, Edited(items, name, us), n - 1 + |us|)
  {
    hide Items, ItemsAt, StringAt;
    ItemsAtStep(ts, z, j, items, n);
    var ts' := ts[..j] + us + ts[j + 1..];
    SameTail(ts, ts', j + 1, j + |us|, n - 1);
    ItemsAtMove(ts, z, j + 1, items[1..], n - 1, ts', j + |us|);
    if us != [] && us[0].Prop? {
      assert ts'[j] == us[0];
      ItemsAtPut(ts', z, j, items[1..], n - 1);
    } else {
      NopsInFront(ts', z, j, items[1..], n - 1, |us|);
    }
  }

  /** The tokens after an edit are the tokens from before it. */
  lemma SameTail(ts: seq<Token>, us: seq<Token>, j: nat, k: nat, n: nat)
    requires j <= |ts| && k <= |us| && us[k..] == ts[j..] && j + n <= |ts|
    ensures k + n <= |us| && us[k..k + n] == ts[j..j + n]
  {
    assert |us| - k == |us[k..]| == |ts[j..]| == |ts| - j;
    assert us[k..k + n] == us[k..][..n] && ts[j..j + n] == ts[j..][..n];
  }

  lemma {:induction false} NopsInFront(ts: seq<Token>, z: bytes, j: nat, items: seq<Item>, n: nat, m: nat)
    requires j + m <= |ts| && (forall i :: j <= i < j + m ==> ts[i].Nop?) && ItemsAt(ts, z, j + m, items, n)
    ensures ItemsAt(ts, z, j, items, n + m)
    decreases m
  {
    hide Items, ItemsAt;
    if m > 0 {
      NopsInFront(ts, z, j + 1, items, n, m - 1);
      ItemsAtPut(ts, z, j, items, n + m - 1);
    }
  }

  /** A property in front of the items. */
  lemma PropInFront(ts: seq<Token>, z: bytes, j: nat, items: seq<Item>, n: nat, t: Token)
    requires ItemsAt(ts, z, j, items, n) && t.Prop? && StringAt(z, t.nameoff).Some?
    ensures ItemsAt(ts[..j] + [t] + ts[j..], z, j, [PropI(StringAt(z, t.nameoff).value, t.value)] + items, n + 1)
  {
    hide Items, ItemsAt, StringAt;
    ItemsAtStep(ts, z, j, items, n);
    var ts' := ts[..j] + [t] + ts[j..];
    SameTail(ts, ts', j, j + 1, n);
    ItemsAtMove(ts, z, j, items, n, ts', j + 1);
    assert ts'[j] == t;
    ItemsAtPut(ts', z, j, items, n);
  }

  // ---------- subnodes ----------

  /** `us` is exactly the tokens of some complete items. */
  predicate Run(us: seq<Token>, z: bytes, xs: seq<Item>) {
    ItemsAt(us + [EndNode], z, 0, xs, |us| + 1)
  }

  /** A run followed by the items of a node. */
  lemma {:induction false} RunThen(us: seq<Token>, z: bytes, xs: seq<Item>, ts: seq<Token>, k: nat, items: seq<Item>,
      n: nat)
    requires Run(us, z, xs) && k + |us| <= |ts| && ts[k..k + |us|] == us && ItemsAt(ts, z, k + |us|, items, n)
    ensures ItemsAt(ts, z, k, xs + items, |us| + n)
    decreases |us|
  {
    hide Items, ItemsAt, StringAt;
    var c := us + [EndNode];
    ItemsAtStep(c, z, 0, xs, |us| + 1);
    if us == [] {
      assert xs + items == items;
    } else {
      assert ts[k] == ts[k..k + |us|][0] == us[0] == c[0];
      if us[0].BeginNode? {
        var m := Items(c[1..], z).value.1;
        RunRest(us, z, xs[1..], 1 + m);
        assert ts[k + 1 + m..k + |us|] == ts[k..k + |us|][1 + m..];
        RunThen(us[1 + m..], z, xs[1..], ts, k + 1 + m, items, n);
        SliceWithin(ts, us, k, m);
        ItemsAtMove(c, z, 1, xs[0].node.items, m, ts, k + 1);
        ItemsAtPutNode(ts, z, k, xs[0].node.items, m, xs[1..] + items, |us| - 1 - m + n);
      } else {
        var rest := if us[0].Nop? then xs else xs[1..];
        RunRest(us, z, rest, 1);
        assert ts[k + 1..k + |us|] == ts[k..k + |us|][1..];
        RunThen(us[1..], z, rest, ts, k + 1, items, n);
        ItemsAtPut(ts, z, k, rest + items, |us| - 1 + n);
      }
      if !us[0].Nop? { assert xs + items == [xs[0]] + (xs[1..] + items); }
    }
  }

  lemma SliceWithin(ts: seq<Token>, us: seq<Token>, k: nat, m: nat)
    requires k + |us| <= |ts| && ts[k..k + |us|] == us && 1 + m <= |us|
    ensures ts[k + 1..k + 1 + m] == (us + [EndNode])[1..1 + m]
  {
    forall i | k + 1 <= i < k + 1 + m ensures ts[i] == us[i - k] { assert ts[i] == ts[k..k + |us|][i - k]; }
  }

  lemma RunRest(us: seq<Token>, z: bytes, xs: seq<Item>, m: nat)
    requires m <= |us| && ItemsAt(us + [EndNode], z, m, xs, |us| + 1 - m)
    ensures Run(us[m..], z, xs)
  {
    hide Items;
    assert (us + [EndNode])[m..] == us[m..] + [EndNode] == (us[m..] + [EndNode])[0..];
  }

  lemma RunNops(us: seq<Token>, z: bytes)
    requires forall i :: 0 <= i < |us| ==> us[i].Nop?
    ensures Run(us, z, [])
  {
    hide Items, ItemsAt;
    var c := us + [EndNode];
    EndAlone(c, z, |us|);
    NopsInFront(c, z, 0, [], 1, |us|);
  }

  lemma EndAlone(c: seq<Token>, z: bytes, k: nat)
    requires k < |c| && c[k].EndNode?
    ensures ItemsAt(c, z, k, [], 1)
  {
    hide Items;
    ItemsUnfold(c[k..], z);
  }

  /** A node at token `k` with its `m` further tokens is a run. */
  lemma NodeIsRun(ts: seq<Token>, z: bytes, k: nat, inner: seq<Item>, m: nat)
    requires k < |ts| && ts[k].BeginNode? && ItemsAt(ts, z, k + 1, inner, m) && k + 1 + m <= |ts|
    ensures Run(ts[k..k + 1 + m], z, [Sub(Node(ts[k].name, inner))])
  {
    hide Items, ItemsAt;
    var us := ts[k..k + 1 + m];
    var c := us + [EndNode];
    assert c[0] == ts[k] && c[1..1 + m] == ts[k + 1..k + 1 + m];
    ItemsAtMove(ts, z, k + 1, inner, m, c, 1);
    EndAlone(c, z, 1 + m);
    ItemsAtPutNode(c, z, 0, inner, m, [], 1);
    assert [Sub(Node(ts[k].name, inner))] + [] == [Sub(Node(ts[k].name, inner))];
  }

  /** The lookup of subnodes skips the inside of a node. */
  lemma {:induction false} SkipInside(ts: seq<Token>, z: bytes, j: nat, items: seq<Item>, n: nat, d: nat, s: bytes)
    requires ItemsAt(ts, z, j, items, n)
    ensures FindSub(ts, j, d + 1, s) == FindSub(ts, j + n, d, s)
    decreases n
  {
    hide Items, ItemsAt, StringAt, FindSub, NameEq;
    ItemsAtStep(ts, z, j, items, n);
    FindSubUnfold(ts, j, d + 1, s);
    if ts[j].BeginNode? {
      var m := Items(ts[j + 1..], z).value.1;
      SkipInside(ts, z, j + 1, items[0].node.items, m, d + 1, s);
      SkipInside(ts, z, j + 1 + m, items[1..], n - 1 - m, d, s);
    } else if ts[j].Nop? {
      SkipInside(ts, z, j + 1, items, n - 1, d, s);
    } else if ts[j].Prop? {
      SkipInside(ts, z, j + 1, items[1..], n - 1, d, s);
    }
  }

  lemma FindSubUnfold(ts: seq<Token>, j: nat, d: nat, s: bytes)
    requires j < |ts|
    ensures FindSub(ts, j, d, s) ==
      match ts[j]
      case BeginNode(name) => if d == 0 && NameEq(name, s) then Some(j) else FindSub(ts, j + 1, d + 1, s)
      case EndNode => if d == 0 then None else FindSub(ts, j + 1, d - 1, s)
      case End => None
      case _ => FindSub(ts, j + 1, d, s)
  {
  }

  lemma FindItemUnfold(items: seq<Item>, s: bytes)
    requires items != []
    ensures FindItem(items, s) ==
      if items[0].Sub? && NameEq(items[0].node.name, s) then Some(0)
      else match FindItem(items[1..], s) case None => None case Some(q) => Some(q + 1)
  {
  }

  /** The number of tokens of the node that begins at token `k`, its first not counted. */
  function InnerLen(ts: seq<Token>, z: bytes, k: nat): nat {
    if k < |ts| && Items(ts[k + 1..], z).Some? then Items(ts[k + 1..], z).value.1 else 0
  }

  /** The subnode lookup on tokens is the lookup on items. */
  lemma {:induction false} FindSubItem(ts: seq<Token>, z: bytes, j: nat, items: seq<Item>, n: nat, s: bytes)
    requires ItemsAt(ts, z, j, items, n)
    ensures match FindSub(ts, j, 0, s)
      case None => FindItem(items, s) == None
      case Some(k) =>
        && j <= k < j + n && k < |ts| && ts[k].BeginNode? && FindItem(items, s).Some?
        && var q := FindItem(items, s).value;
        && q < |items| && items[q].Sub? && items[q].node.name == ts[k].name
        && ItemsAt(ts, z, k + 1, items[q].node.items, InnerLen(ts, z, k))
        && k + 1 + InnerLen(ts, z, k) < j + n
    decreases n
  {
    hide Items, ItemsAt, StringAt, FindSub, FindItem, NameEq;
    ItemsAtStep(ts, z, j, items, n);
    FindSubUnfold(ts, j, 0, s);
    if items != [] { FindItemUnfold(items, s); } else { NothingFound(s); }
    if ts[j].BeginNode? {
      var m := Items(ts[j + 1..], z).value.1;
      if !NameEq(ts[j].name, s) {
        SkipInside(ts, z, j + 1, items[0].node.items, m, 0, s);
        FindSubItem(ts, z, j + 1 + m, items[1..], n - 1 - m, s);
      }
    } else if ts[j].Nop? {
      FindSubItem(ts, z, j + 1, items, n - 1, s);
    } else if ts[j].Prop? {
      FindSubItem(ts, z, j + 1, items[1..], n - 1, s);
    }
  }

  /** The subnode lookup of a blob finds the first direct subnode that may be called `s`, exactly when there is one. */
  lemma FindSubFirst(ts: seq<Token>, z: bytes, i: nat, items: seq<Item>, n: nat, s: bytes)
    requires ItemsAt(ts, z, i + 1, items, n)
    ensures match FindSub(ts, i + 1, 0, s)
      case None => forall p: nat :: !SubCalled(items, p, s)
      case Some(k) =>
        && k < |ts| && ts[k].BeginNode? && FindItem(items, s).Some?
        && var q := FindItem(items, s).value;
        && SubCalled(items, q, s) && (forall p: nat :: p < q ==> !SubCalled(items, p, s))
        && ts[k].name == items[q].node.name && ItemsAt(ts, z, k + 1, items[q].node.items, InnerLen(ts, z, k))
  {
    hide FindSub, FindItem, ItemsAt, NameEq, CalledBy, InnerLen;
    FindSubItem(ts, z, i + 1, items, n, s);
    FindItemFirst(items, s);
  }

  lemma NothingFound(s: bytes)
    ensures FindItem([], s) == None
  {
  }

  /** Replacing the tokens of the subnode that is found. */
  lemma {:induction false} EditSub(ts: seq<Token>, z: bytes, j: nat, items: seq<Item>, n: nat, s: bytes, us: seq<Token>,
      xs: seq<Item>)
    requires ItemsAt(ts, z, j, items, n) && FindSub(ts, j, 0, s).Some? && Run(us, z, xs)
    ensures var k := FindSub(ts, j, 0, s).value;
      var m := InnerLen(ts, z, k);
      && FindItem(items, s).Some? && FindItem(items, s).value < |items|
      && j <= k && k + 1 + m < j + n && k + 1 + m <= |ts|
      && var q := FindItem(items, s).value;
      && ItemsAt(ts[..k] + us + ts[k + 1 + m..], z, j, items[..q] + xs + items[q + 1..], n - 1 - m + |us|)
    decreases n
  {
    hide Items, ItemsAt, StringAt, FindSub, FindItem, NameEq, Run;
    ItemsAtStep(ts, z, j, items, n);
    FindSubUnfold(ts, j, 0, s);
    FindSubItem(ts, z, j, items, n, s);
    var k, q := FindSub(ts, j, 0, s).value, FindItem(items, s).value;
    FindItemUnfold(items, s);
    ItemsAtStep(ts, z, k + 1, items[q].node.items, InnerLen(ts, z, k));
    var ts' := ts[..k] + us + ts[k + 1 + InnerLen(ts, z, k)..];
    if ts[j].BeginNode? {
      var m := Items(ts[j + 1..], z).value.1;
      if NameEq(ts[j].name, s) {
        EditNodeHere(ts, z, j, items, n, us, xs);
      } else {
        SkipInside(ts, z, j + 1, items[0].node.items, m, 0, s);
        EditSub(ts, z, j + 1 + m, items[1..], n - 1 - m, s, us, xs);
        KeepNode(ts, ts', z, j, items[0].node.items, m, items[1..][..q - 1] + xs + items[1..][q..],
          n - 1 - m - 1 - InnerLen(ts, z, k) + |us|);
        EditRest(items, q, xs);
      }
    } else {
      var rest := if ts[j].Nop? then items else items[1..];
      EditSub(ts, z, j + 1, rest, n - 1, s, us, xs);
      assert ts'[j] == ts[j];
      if ts[j].Prop? { EditRest(items, q, xs); }
      var q' := if ts[j].Nop? then q else q - 1;
      ItemsAtPut(ts', z, j, rest[..q'] + xs + rest[q' + 1..], n - 1 - 1 - InnerLen(ts, z, k) + |us|);
    }
  }

  /** The node at the front replaced. */
  lemma EditNodeHere(ts: seq<Token>, z: bytes, j: nat, items: seq<Item>, n: nat, us: seq<Token>, xs: seq<Item>)
    requires ItemsAt(ts, z, j, items, n) && j < |ts| && ts[j].BeginNode? && Run(us, z, xs)
    ensures var m := InnerLen(ts, z, j);
      && items != [] && j + 1 + m < j + n <= |ts|
      && ItemsAt(ts[..j] + us + ts[j + 1 + m..], z, j, items[..0] + xs + items[1..], n - 1 - m + |us|)
  {
    hide Items, ItemsAt, StringAt, Run;
    ItemsAtStep(ts, z, j, items, n);
    var m := InnerLen(ts, z, j);
    var ts' := ts[..j] + us + ts[j + 1 + m..];
    SameTail(ts, ts', j + 1 + m, j + |us|, n - 1 - m);
    ItemsAtMove(ts, z, j + 1 + m, items[1..], n - 1 - m, ts', j + |us|);
    assert ts'[j..j + |us|] == us;
    RunThen(us, z, xs, ts', j, items[1..], n - 1 - m);
    assert items[..0] + xs + items[1..] == xs + items[1..];
  }

  /** The node at the front kept, with other items after it. */
  lemma KeepNode(ts: seq<Token>, ts': seq<Token>, z: bytes, j: nat, inner: seq<Item>, m: nat, items: seq<Item>, n: nat)
    requires j + 1 + m <= |ts| && j + 1 + m <= |ts'| && ts'[..j + 1 + m] == ts[..j + 1 + m]
    requires ts[j].BeginNode? && ItemsAt(ts, z, j + 1, inner, m) && ItemsAt(ts', z, j + 1 + m, items, n)
    ensures ItemsAt(ts', z, j, [Sub(Node(ts[j].name, inner))] + items, 1 + m + n)
  {
    hide Items, ItemsAt;
    SamePrefix(ts, ts', j + 1 + m, j);
    SamePrefix(ts, ts', j + 1 + m, j + 1);
    assert ts'[j + 1..j + 1 + m] == ts'[j + 1..][..m] && ts[j + 1..j + 1 + m] == ts[j + 1..][..m];
    ItemsAtMove(ts, z, j + 1, inner, m, ts', j + 1);
    ItemsAtPutNode(ts', z, j, inner, m, items, n);
  }

  lemma EditRest(items: seq<Item>, q: nat, xs: seq<Item>)
    requires 0 < q < |items|
    ensures items[..q] + xs + items[q + 1..] == [items[0]] + (items[1..][..q - 1] + xs + items[1..][q..])
  {
  }

  /** An empty node put in after the leading properties. */
  lemma {:induction false} AddSub(ts: seq<Token>, z: bytes, j: nat, items: seq<Item>, n: nat, name: bytes)
    requires ItemsAt(ts, z, j, items, n)
    ensures var k := LeadEnd(ts, j);
      && j <= k < j + n && k <= |ts|
      && ItemsAt(ts[..k] + [BeginNode(name), EndNode] + ts[k..], z, j, AddItem(items, name), n + 2)
    decreases n
  {
    hide Items, ItemsAt, StringAt;
    ItemsAtStep(ts, z, j, items, n);
    FindPropItem(ts, z, j, items, n, []);
    var k := LeadEnd(ts, j);
    var us := [BeginNode(name), EndNode];
    var ts' := ts[..k] + us + ts[k..];
    if !ts[j].Nop? && !ts[j].Prop? {
      NodeInFront(ts, z, j, items, n, name);
    } else {
      var rest := if ts[j].Nop? then items else items[1..];
      AddSub(ts, z, j + 1, rest, n - 1, name);
      assert ts'[j] == ts[j];
      ItemsAtPut(ts', z, j, AddItem(rest, name), n + 1);
    }
  }

  lemma NodeInFront(ts: seq<Token>, z: bytes, j: nat, items: seq<Item>, n: nat, name: bytes)
    requires ItemsAt(ts, z, j, items, n) && j <= |ts|
    ensures ItemsAt(ts[..j] + [BeginNode(name), EndNode] + ts[j..], z, j, [Sub(Node(name, []))] + items, n + 2)
  {
    hide Items, ItemsAt, StringAt;
    ItemsAtStep(ts, z, j, items, n);
    var ts' := ts[..j] + [BeginNode(name), EndNode] + ts[j..];
    SameTail(ts, ts', j, j + 2, n);
    ItemsAtMove(ts, z, j, items, n, ts', j + 2);
    assert ts'[j] == BeginNode(name) && ts'[j + 1] == EndNode;
    EndAlone(ts', z, j + 1);
    ItemsAtPutNode(ts', z, j, [], 1, items, n);
  }
}
