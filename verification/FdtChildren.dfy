/** Going over the properties and the subnodes of a node in order. */
module FdtChildren {
  import opened Words
  import opened FdtTokens
  import opened FdtStrings
  import opened FdtBlob
  import opened FdtRead
  import opened FdtTree
  import opened FdtLookup
  import opened FdtEdit
  import opened FdtItems

  /** The first node at depth 0 from token `j` on, which lies at depth `d`. */
  function NextSub(ts: seq<Token>, j: nat, d: nat): Option<nat>
    decreases |ts| - j
  {
    if j >= |ts| then None else
    match ts[j]
    case BeginNode(_) => if d == 0 then Some(j) else NextSub(ts, j + 1, d + 1)
    case EndNode => if d == 0 then None else NextSub(ts, j + 1, d - 1)
    case End => None
    case _ => NextSub(ts, j + 1, d)
  }

  lemma {:induction false} NextSubByWalk(ts: seq<Token>, j: nat, d: nat)
    ensures match ScanNode(ts, j, d, true)
      case NodeAt(k, e) =>
        && j <= k < |ts| && ts[k].BeginNode? && 1 <= e <= d + 1
        && NextSub(ts, j, d) == if e == 1 then Some(k) else NextSub(ts, k + 1, e)
      case Left(k, e) => e < 0 && k <= |ts| && NextSub(ts, j, d) == None
      case NoMore(e) => e >= 0 && NextSub(ts, j, d) == None
    decreases |ts| - j
  {
    if j < |ts| {
      if ts[j].EndNode? { if d > 0 { NextSubByWalk(ts, j + 1, d - 1); } }
      else if !ts[j].BeginNode? && !ts[j].End? { NextSubByWalk(ts, j + 1, d); }
    }
  }

  /** `fdt_first_subnode` of the node at token `i`. Every error reads as "not found". */
  method FirstSubnode(b: Blob, parent: int, ghost ts: seq<Token>, ghost i: nat) returns (result: int)
    requires Streams(b, ts) && (NodeGiven(ts, i, parent) || (0 <= parent <= INT_MAX && !IsNode(b, parent)))
    ensures !NodeGiven(ts, i, parent) ==> result == -FDT_ERR_NOTFOUND
    ensures NodeGiven(ts, i, parent) ==>
      match NextSub(ts, i + 1, 0)
      case Some(k) => i < k < |ts| && ts[k].BeginNode? && result == Off(ts, k)
      case None => result == -FDT_ERR_NOTFOUND
  {
    hide Streams, LenOf, Off, IsNode;
    NextSubByWalk(ts, i + 1, 0);
    var offset, depth := NextNode(b, parent, 0, true, ts, i);
    if offset < 0 || depth != 1 {
      return -FDT_ERR_NOTFOUND;
    }
    return offset;
  }

  /** `fdt_next_subnode` after the node at token `i`. */
  method NextSubnode(b: Blob, node: int, ghost ts: seq<Token>, ghost i: nat) returns (result: int)
    requires Streams(b, ts) && (NodeGiven(ts, i, node) || (0 <= node <= INT_MAX && !IsNode(b, node)))
    ensures !NodeGiven(ts, i, node) ==> result == -FDT_ERR_NOTFOUND
    ensures NodeGiven(ts, i, node) ==>
      match NextSub(ts, i + 1, 1)
      case Some(k) => i < k < |ts| && ts[k].BeginNode? && result == Off(ts, k)
      case None => result == -FDT_ERR_NOTFOUND
  {
    hide Streams, LenOf, Off, NextSub, IsNode;
    var offset, depth := node, 1;
    ghost var k := i;
    while true
      invariant !NodeGiven(ts, i, node) ==> offset == node && k == i && depth == 1
      invariant NodeGiven(ts, i, node) ==>
        && i <= k && NodeGiven(ts, k, offset) && depth >= 1
        && NextSub(ts, i + 1, 1) == NextSub(ts, k + 1, depth)
      decreases |ts| - k
    {
      NextSubByWalk(ts, k + 1, depth);
      ghost var w := ScanNode(ts, k + 1, depth, true);
      offset, depth := NextNode(b, offset, depth, true, ts, k);
      if offset < 0 || depth < 1 {
        return -FDT_ERR_NOTFOUND;
      }
      k := w.k;
      if depth <= 1 {
        return offset;
      }
    }
  }

  // ---------- the same walk over items ----------

  function DropProps(items: seq<Item>): seq<Item> {
    if items == [] || items[0].Sub? then items else DropProps(items[1..])
  }

  lemma {:induction false} NextSubSkips(ts: seq<Token>, z: bytes, j: nat, items: seq<Item>, n: nat, d: nat)
    requires ItemsAt(ts, z, j, items, n)
    ensures NextSub(ts, j, d + 1) == NextSub(ts, j + n, d)
    decreases n
  {
    hide Items, ItemsAt, StringAt, NextSub;
    ItemsAtStep(ts, z, j, items, n);
    NextSubUnfold(ts, j, d + 1);
    if ts[j].BeginNode? {
      var m := Items(ts[j + 1..], z).value.1;
      NextSubSkips(ts, z, j + 1, items[0].node.items, m, d + 1);
      NextSubSkips(ts, z, j + 1 + m, items[1..], n - 1 - m, d);
    } else if ts[j].Nop? {
      NextSubSkips(ts, z, j + 1, items, n - 1, d);
    } else if ts[j].Prop? {
      NextSubSkips(ts, z, j + 1, items[1..], n - 1, d);
    }
  }

  lemma NextSubUnfold(ts: seq<Token>, j: nat, d: nat)
    requires j < |ts|
    ensures NextSub(ts, j, d) ==
      match ts[j]
      case BeginNode(_) => if d == 0 then Some(j) else NextSub(ts, j + 1, d + 1)
      case EndNode => if d == 0 then None else NextSub(ts, j + 1, d - 1)
      case End => None
      case _ => NextSub(ts, j + 1, d)
  {
  }

  /** The next subnode is the first item that is not a property. */
  lemma {:induction false} NextSubItem(ts: seq<Token>, z: bytes, j: nat, items: seq<Item>, n: nat)
    requires ItemsAt(ts, z, j, items, n)
    ensures match NextSub(ts, j, 0)
      case None => DropProps(items) == []
      case Some(k) =>
        && j <= k < j + n && k < |ts| && ts[k].BeginNode?
        && DropProps(items) != [] && DropProps(items)[0].Sub? && ItemsAt(ts, z, k, DropProps(items), n - (k - j))
    decreases n
  {
    hide Items, ItemsAt, StringAt, NextSub;
    ItemsAtStep(ts, z, j, items, n);
    NextSubUnfold(ts, j, 0);
    if ts[j].Nop? {
      NextSubItem(ts, z, j + 1, items, n - 1);
    } else if ts[j].Prop? {
      NextSubItem(ts, z, j + 1, items[1..], n - 1);
    }
  }

  /** The next property, from inside the leading properties, is the first item, if that is a property. */
  lemma {:induction false} NextPropItem(ts: seq<Token>, z: bytes, j: nat, items: seq<Item>, n: nat)
    requires ItemsAt(ts, z, j, items, n)
    ensures match NextProp(ts, j)
      case None => items == [] || items[0].Sub?
      case Some(k) =>
        && j <= k < j + n && k < |ts| && ts[k].Prop? && items != [] && items[0].PropI?
        && StringAt(z, ts[k].nameoff) == Some(items[0].name) && ts[k].value == items[0].value
        && ItemsAt(ts, z, k + 1, items[1..], n - (k - j) - 1)
    decreases n
  {
    hide Items, ItemsAt, StringAt;
    ItemsAtStep(ts, z, j, items, n);
    if ts[j].Nop? { NextPropItem(ts, z, j + 1, items, n - 1); }
  }
}
