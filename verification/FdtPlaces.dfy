/** Edits deep inside a tree: replacing the tokens of one node replaces that node, and nothing else. */
module FdtPlaces {
  import opened Words
  import opened FdtTokens
  import opened FdtStrings
  import opened FdtTree
  import opened FdtEdit
  import opened FdtItems

  /** The node reached by choosing an item at each level. */
  function AtPath(items: seq<Item>, path: seq<nat>): Option<Node>
    decreases |path|
  {
    if path == [] || path[0] >= |items| || items[path[0]].PropI? then None
    else if |path| == 1 then Some(items[path[0]].node)
    else AtPath(items[path[0]].node.items, path[1..])
  }

  /** The tree with `xs` in place of the node at `path`. */
  function SpliceAt(items: seq<Item>, path: seq<nat>, xs: seq<Item>): seq<Item>
    requires AtPath(items, path).Some?
    decreases |path|
  {
    var q := path[0];
    if |path| == 1 then items[..q] + xs + items[q + 1..]
    else
      var n := items[q].node;
      items[q := Sub(Node(n.name, SpliceAt(n.items, path[1..], xs)))]
  }

  function Shift(path: seq<nat>): seq<nat>
    requires path != []
  {
    [path[0] + 1] + path[1..]
  }

  lemma ShiftedPath(x: Item, items: seq<Item>, path: seq<nat>, xs: seq<Item>)
    requires AtPath(items, path).Some?
    ensures path != []
    ensures AtPath([x] + items, Shift(path)) == AtPath(items, path)
    ensures SpliceAt([x] + items, Shift(path), xs) == [x] + SpliceAt(items, path, xs)
  {
    assert Shift(path)[1..] == path[1..] && ([x] + items)[path[0] + 1] == items[path[0]];
    if |path| == 1 {
      var q := path[0];
      assert ([x] + items)[..q + 1] == [x] + items[..q] && ([x] + items)[q + 2..] == items[q + 1..];
    }
  }

  lemma DeeperPath(name: bytes, inner: seq<Item>, items: seq<Item>, path: seq<nat>, xs: seq<Item>)
    requires AtPath(inner, path).Some?
    ensures AtPath([Sub(Node(name, inner))] + items, [0] + path) == AtPath(inner, path)
    ensures SpliceAt([Sub(Node(name, inner))] + items, [0] + path, xs)
      == [Sub(Node(name, SpliceAt(inner, path, xs)))] + items
  {
    var p := [0 as nat] + path;
    assert p[1..] == path;
  }

  lemma HerePath(items: seq<Item>, xs: seq<Item>)
    requires items != [] && items[0].Sub?
    ensures AtPath(items, [0]) == Some(items[0].node)
    ensures SpliceAt(items, [0], xs) == items[..0] + xs + items[1..]
  {
  }

  /** The node whose tokens start at `i`, anywhere below a node whose items start at `j`: it is the node at some
      path of the tree, and putting a run of other items in place of its tokens puts these in its place. */
  lemma {:induction false} SpliceNode(ts: seq<Token>, z: bytes, j: nat, items: seq<Item>, n: nat, i: nat,
      us: seq<Token>, xs: seq<Item>)
    returns (path: seq<nat>)
    requires ItemsAt(ts, z, j, items, n) && j <= i < j + n && i < |ts| && ts[i].BeginNode? && Run(us, z, xs)
    ensures var m := InnerLen(ts, z, i);
      && i + 1 + m < j + n <= |ts| && AtPath(items, path).Some?
      && AtPath(items, path).value.name == ts[i].name && ItemsAt(ts, z, i + 1, AtPath(items, path).value.items, m)
      && ItemsAt(ts[..i] + us + ts[i + 1 + m..], z, j, SpliceAt(items, path, xs), n - 1 - m + |us|)
    decreases n
  {
    hide Items, ItemsAt, StringAt, Run, AtPath, SpliceAt, Shift;
    ItemsAtStep(ts, z, j, items, n);
    if i == j {
      EditNodeHere(ts, z, j, items, n, us, xs);
      HerePath(items, xs);
      return [0];
    }
    if ts[j].BeginNode? {
      var m := Items(ts[j + 1..], z).value.1;
      var inner := items[0].node.items;
      assert items == [Sub(Node(ts[j].name, inner))] + items[1..];
      if i < j + 1 + m {
        var p := SpliceNode(ts, z, j + 1, inner, m, i, us, xs);
        DeeperPath(ts[j].name, inner, items[1..], p, xs);
        InsideNode(ts, z, j, i, InnerLen(ts, z, i), us, SpliceAt(inner, p, xs), m, items[1..], n - 1 - m);
        return [0] + p;
      }
      var p := SpliceNode(ts, z, j + 1 + m, items[1..], n - 1 - m, i, us, xs);
      ShiftedPath(items[0], items[1..], p, xs);
      var ts' := ts[..i] + us + ts[i + 1 + InnerLen(ts, z, i)..];
      KeepNode(ts, ts', z, j, inner, m, SpliceAt(items[1..], p, xs), n - 1 - m - 1 - InnerLen(ts, z, i) + |us|);
      return Shift(p);
    }
    var rest := if ts[j].Nop? then items else items[1..];
    path := SpliceNode(ts, z, j + 1, rest, n - 1, i, us, xs);
    KeepToken(ts, z, j, i, InnerLen(ts, z, i), us, SpliceAt(rest, path, xs), n - 2 - InnerLen(ts, z, i) + |us|);
    if ts[j].Prop? {
      ShiftedPath(items[0], rest, path, xs);
      assert items == [items[0]] + rest;
      path := Shift(path);
    }
  }

  lemma KeepToken(ts: seq<Token>, z: bytes, j: nat, i: nat, m: nat, us: seq<Token>, items: seq<Item>, n: nat)
    requires j < i && i + 1 + m <= |ts| && ItemsAt(ts[..i] + us + ts[i + 1 + m..], z, j + 1, items, n)
    ensures var ts' := ts[..i] + us + ts[i + 1 + m..];
      && (ts[j].Nop? ==> ItemsAt(ts', z, j, items, n + 1))
      && (ts[j].Prop? && StringAt(z, ts[j].nameoff).Some? ==>
          ItemsAt(ts', z, j, [PropI(StringAt(z, ts[j].nameoff).value, ts[j].value)] + items, n + 1))
  {
    hide Items, ItemsAt, StringAt;
    var ts' := ts[..i] + us + ts[i + 1 + m..];
    assert ts'[j] == ts[j];
    ItemsAtPut(ts', z, j, items, n);
  }

  lemma InsideNode(ts: seq<Token>, z: bytes, j: nat, i: nat, k: nat, us: seq<Token>, inner: seq<Item>, m: nat,
      items: seq<Item>, n: nat)
    requires j < i && i + 1 + k <= j + 1 + m && j + 1 + m + n <= |ts| && ts[j].BeginNode?
    requires ItemsAt(ts[..i] + us + ts[i + 1 + k..], z, j + 1, inner, m - 1 - k + |us|) &&
      ItemsAt(ts, z, j + 1 + m, items, n)
    ensures ItemsAt(ts[..i] + us + ts[i + 1 + k..], z, j, [Sub(Node(ts[j].name, inner))] + items, m - k + |us| + n)
  {
    hide Items, ItemsAt;
    var ts' := ts[..i] + us + ts[i + 1 + k..];
    var m' := m - 1 - k + |us|;
    assert ts'[j] == ts[j];
    TailAfter(ts, i, i + 1 + k, us, j + 1 + m);
    SameTail(ts, ts', j + 1 + m, j + 1 + m', n);
    ItemsAtMove(ts, z, j + 1 + m, items, n, ts', j + 1 + m');
    ItemsAtPutNode(ts', z, j, inner, m', items, n);
  }

  lemma TailAfter(ts: seq<Token>, i: nat, e: nat, us: seq<Token>, k: nat)
    requires i <= e <= k <= |ts|
    ensures (ts[..i] + us + ts[e..])[k - e + i + |us|..] == ts[k..]
  {
  }
}
