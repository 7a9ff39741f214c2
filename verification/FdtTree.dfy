/** Device trees, and the calls that describe them. */
module FdtTree {
  import opened Words
  import opened FdtTokens
  import opened FdtStrings
  import opened FdtEvents
  import opened FdtCheck

  /** A node: its properties and subnodes in the order in which they are written. */
  datatype Node = Node(name: bytes, items: seq<Item>)
  datatype Item = PropI(name: bytes, value: bytes) | Sub(node: Node)

  function Flatten(n: Node): seq<Event>
    decreases n, 1
  {
    [BeginE(n.name)] + FlattenItems(n.items) + [EndE]
  }

  function FlattenItems(items: seq<Item>): seq<Event>
    decreases items, 0
  {
    if items == [] then [] else FlattenItem(items[0]) + FlattenItems(items[1..])
  }

  function FlattenItem(i: Item): seq<Event>
    decreases i, 2
  {
    match i
    case PropI(name, value) => [PropE(name, value)]
    case Sub(n) => Flatten(n)
  }

  /** Reads the items of a node up to its end; also returns what follows. */
  function ParseItems(es: seq<Event>): (r: Option<(seq<Item>, seq<Event>)>)
    ensures r.Some? ==> |r.value.1| < |es|
    decreases |es|
  {
    if es == [] then None else
    match es[0]
    case EndE => Some(([], es[1..]))
    case PropE(name, value) =>
      (match ParseItems(es[1..])
       case None => None
       case Some((items, rest)) => Some(([PropI(name, value)] + items, rest)))
    case BeginE(name) =>
      match ParseItems(es[1..])
      case None => None
      case Some((inner, after)) =>
        match ParseItems(after)
        case None => None
        case Some((items, rest)) => Some(([Sub(Node(name, inner))] + items, rest))
  }

  function ParseTree(es: seq<Event>): Option<Node> {
    if es == [] || !es[0].BeginE? then None else
    match ParseItems(es[1..])
    case None => None
    case Some((items, rest)) => if rest == [] then Some(Node(es[0].name, items)) else None
  }

  /** Reading back what was written, whatever follows. */
  lemma {:induction false} ParseFlattenItems(items: seq<Item>, rest: seq<Event>)
    ensures ParseItems(FlattenItems(items) + [EndE] + rest) == Some((items, rest))
    decreases items, 0
  {
    if items == [] {
      assert (FlattenItems(items) + [EndE] + rest)[1..] == rest;
    } else {
      ParseFlattenItems(items[1..], rest);
      ParseFlattenItem(items[0], FlattenItems(items[1..]) + [EndE] + rest);
      assert items == [items[0]] + items[1..];
      assert FlattenItems(items) + [EndE] + rest == FlattenItem(items[0]) + (FlattenItems(items[1..]) + [EndE] + rest);
    }
  }

  lemma {:induction false} ParseFlattenItem(i: Item, tail: seq<Event>)
    requires ParseItems(tail).Some?
    ensures ParseItems(FlattenItem(i) + tail) == Some(([i] + ParseItems(tail).value.0, ParseItems(tail).value.1))
    decreases i, 2
  {
    match i
    case PropI(name, value) =>
      assert (FlattenItem(i) + tail)[1..] == tail;
    case Sub(n) =>
      ParseFlattenNode(n, tail);
      assert (FlattenItem(i) + tail)[1..] == FlattenItems(n.items) + [EndE] + tail;
  }

  lemma {:induction false} ParseFlattenNode(n: Node, tail: seq<Event>)
    ensures ParseItems(FlattenItems(n.items) + [EndE] + tail) == Some((n.items, tail))
    decreases n, 1
  {
    ParseFlattenItems(n.items, tail);
  }

  lemma ParseFlatten(n: Node)
    ensures ParseTree(Flatten(n)) == Some(n)
  {
    ParseFlattenItems(n.items, []);
    assert Flatten(n)[1..] == FlattenItems(n.items) + [EndE] + [];
  }

  // ---------- nesting of calls ----------

  /** Depth and "outermost node closed" after a sequence of calls, `None` once a call is misplaced. */
  function RunCalls(es: seq<Event>, depth: nat, closed: bool): Option<(nat, bool)>
    decreases |es|
  {
    if es == [] then Some((depth, closed))
    else if closed then None else
    match es[0]
    case BeginE(name) => if depth == 0 && name != [] then None else RunCalls(es[1..], depth + 1, false)
    case EndE => if depth == 0 then None else RunCalls(es[1..], depth - 1, depth == 1)
    case PropE(_, _) => RunCalls(es[1..], depth, false)
  }

  /** Every node that is begun is ended, nothing follows the outermost node, and that node has no name. */
  predicate NestedCalls(es: seq<Event>) {
    RunCalls(es, 0, false).Some? && RunCalls(es, 0, false).value.0 == 0
  }

  lemma {:induction false} RunCallsConcat(a: seq<Event>, b: seq<Event>, depth: nat, closed: bool)
    ensures RunCalls(a + b, depth, closed) ==
      match RunCalls(a, depth, closed) case None => None case Some((d, c)) => RunCalls(b, d, c)
    decreases |a|
  {
    if a == [] {
      assert a + b == b;
    } else {
      assert (a + b)[1..] == a[1..] + b;
      if !closed {
        match a[0]
        case BeginE(name) => RunCallsConcat(a[1..], b, depth + 1, false);
        case EndE => if depth > 0 { RunCallsConcat(a[1..], b, depth - 1, depth == 1); }
        case PropE(_, _) => RunCallsConcat(a[1..], b, depth, false);
      }
    }
  }

  lemma {:induction false} RunItems(items: seq<Item>, depth: nat)
    requires depth > 0
    ensures RunCalls(FlattenItems(items), depth, false) == Some((depth, false))
    decreases items, 0
  {
    if items != [] {
      var a, b := FlattenItem(items[0]), FlattenItems(items[1..]);
      RunCallsConcat(a, b, depth, false);
      RunItems(items[1..], depth);
      RunItem(items[0], depth);
    }
  }

  lemma {:induction false} RunItem(i: Item, depth: nat)
    requires depth > 0
    ensures RunCalls(FlattenItem(i), depth, false) == Some((depth, false))
    decreases i, 2
  {
    match i
    case PropI(_, _) => assert FlattenItem(i)[1..] == [];
    case Sub(n) => RunNode(n, depth);
  }

  lemma {:induction false} RunNode(n: Node, depth: nat)
    requires depth > 0 || n.name == []
    ensures RunCalls(Flatten(n), depth, false) == Some((depth, depth == 0))
    decreases n, 1
  {
    var es := Flatten(n);
    assert es[1..] == FlattenItems(n.items) + [EndE];
    RunItems(n.items, depth + 1);
    RunCallsConcat(FlattenItems(n.items), [EndE], depth + 1, false);
    assert [EndE][1..] == [];
  }

  /** The calls that describe a tree are nested exactly when its root has no name. */
  lemma TreeIsNested(n: Node)
    ensures NestedCalls(Flatten(n)) <==> n.name == []
  {
    if n.name == [] { RunNode(n, 0); }
  }

  /** A token stream that says the calls is well nested exactly when the calls are nested. */
  lemma NestedIff(z: bytes, ts: seq<Token>, es: seq<Event>)
    requires SayAll(z, ts, es, false)
    ensures WellNested(ts, z) <==> NestedCalls(es)
  {
    NestedFrom(z, ts, es, 0);
    assert es[0..] == es;
  }

  lemma {:induction false} NestedFrom(z: bytes, ts: seq<Token>, es: seq<Event>, i: nat)
    requires SayAll(z, ts, es, false) && i <= |ts| && DepthAt(ts, i) >= 0
    ensures (forall j :: i <= j < |ts| ==> Fits(ts, z, j)) && DepthAt(ts, |ts|) == 0 <==>
      RunCalls(es[i..], DepthAt(ts, i), Closed(ts, i)).Some? &&
        RunCalls(es[i..], DepthAt(ts, i), Closed(ts, i)).value.0 == 0
    decreases |ts| - i
  {
    hide Closed, DepthAt, StringAt;
    if i < |ts| {
      assert Says(z, ts[i], es[i], false);
      assert es[i..][0] == es[i] && es[i..][1..] == es[i + 1..];
      if Fits(ts, z, i) {
        ClosedStep(ts, z, i);
        NestedFrom(z, ts, es, i + 1);
      }
    } else {
      assert es[i..] == [];
    }
  }
}
