/** Renumbering the phandles of an overlay, and the local references to them: what it does to the tree. */
module FdtPhandles {
  import opened Words
  import opened FdtTokens
  import opened FdtBlob
  import opened FdtTree
  import opened FdtItems

  const PHANDLE: bytes := Ascii("phandle")
  const LINUX_PHANDLE: bytes := Ascii("linux,phandle")

  lemma PhandleNames()
    ensures PHANDLE != LINUX_PHANDLE
  {
    assert |PHANDLE| != |LINUX_PHANDLE|;
  }

  // ---------- phandles ----------

  /** A phandle property read as a number, 0 if there is none of four bytes. */
  function WordOf(v: Option<bytes>): u32 {
    if v.Some? && |v.value| == 4 then Load32(v.value, 0) else 0
  }

  function HasWord(v: Option<bytes>): bool {
    v.Some? && |v.value| == 4
  }

  /** `fdt_get_phandle` from the two properties that may hold it. */
  function PhandleFrom(first: Option<bytes>, second: Option<bytes>): u32 {
    if HasWord(first) then WordOf(first) else WordOf(second)
  }

  function PhandleOf(items: seq<Item>): u32 {
    PhandleFrom(GetItem(items, PHANDLE), GetItem(items, LINUX_PHANDLE))
  }

  /** The phandles of a node and everything below it, in order, 0 where there is none. */
  function Phandles(items: seq<Item>): seq<u32>
    decreases items, 1
  {
    [PhandleOf(items)] + PhandlesBelow(items)
  }

  function PhandlesBelow(items: seq<Item>): seq<u32>
    decreases items, 0
  {
    if items == [] then [] else PhandlesIn(items[0]) + PhandlesBelow(items[1..])
  }

  function PhandlesIn(i: Item): seq<u32>
    decreases i, 2
  {
    match i
    case PropI(_, _) => []
    case Sub(n) => Phandles(n.items)
  }

  // ---------- shifting ----------

  /** `overlay_phandle_add_offset` succeeds: there is no such property, or it is one word, and the sum neither wraps
      around nor is the reserved number. */
  predicate CanShiftProp(items: seq<Item>, name: bytes, delta: u32) {
    var v := GetItem(items, name);
    v.None? || (|v.value| == 4 && Load32(v.value, 0) + delta < TWO32 - 1)
  }

  function Shifted(v: bytes, delta: u32): bytes {
    if |v| == 4 then Enc32(U32(Load32(v, 0) + delta)) else v
  }

  function ShiftProp(items: seq<Item>, name: bytes, delta: u32): seq<Item> {
    match GetItem(items, name)
    case None => items
    case Some(v) => ReplaceItem(items, name, Shifted(v, delta))
  }

  function ShiftProps(items: seq<Item>, delta: u32): seq<Item> {
    ShiftProp(ShiftProp(items, PHANDLE, delta), LINUX_PHANDLE, delta)
  }

  /** `overlay_adjust_node_phandles`. */
  function ShiftNode(items: seq<Item>, delta: u32): seq<Item>
    decreases items, 1
  {
    ShiftProps(ShiftSubs(items, delta), delta)
  }

  function ShiftSubs(items: seq<Item>, delta: u32): seq<Item>
    decreases items, 0
  {
    if items == [] then [] else [ShiftItem(items[0], delta)] + ShiftSubs(items[1..], delta)
  }

  function ShiftItem(i: Item, delta: u32): Item
    decreases i, 2
  {
    match i
    case PropI(_, _) => i
    case Sub(n) => Sub(Node(n.name, ShiftNode(n.items, delta)))
  }

  /** It succeeds when it can shift every phandle property of every node. */
  predicate CanShift(items: seq<Item>, delta: u32)
    decreases items, 1
  {
    CanShiftProp(items, PHANDLE, delta) && CanShiftProp(items, LINUX_PHANDLE, delta) && CanShiftSubs(items, delta)
  }

  predicate CanShiftSubs(items: seq<Item>, delta: u32)
    decreases items, 0
  {
    items == [] || (CanShiftItem(items[0], delta) && CanShiftSubs(items[1..], delta))
  }

  predicate CanShiftItem(i: Item, delta: u32)
    decreases i, 2
  {
    match i
    case PropI(_, _) => true
    case Sub(n) => CanShift(n.items, delta)
  }

  // ---------- when a shift succeeds ----------

  /** The items of a node and of every node below it. */
  function AllNodes(items: seq<Item>): seq<seq<Item>>
    decreases items, 1
  {
    [items] + NodesBelow(items)
  }

  function NodesBelow(items: seq<Item>): seq<seq<Item>>
    decreases items, 0
  {
    if items == [] then [] else NodesIn(items[0]) + NodesBelow(items[1..])
  }

  function NodesIn(i: Item): seq<seq<Item>>
    decreases i, 2
  {
    match i
    case PropI(_, _) => []
    case Sub(n) => AllNodes(n.items)
  }

  /** The property is one word that can grow by `delta` without wrapping around or becoming the reserved number. */
  predicate Grows(v: bytes, delta: u32) {
    |v| == 4 && Load32(v, 0) + delta < 0xffff_ffff
  }

  /** Every phandle property of each of these nodes can grow. */
  ghost predicate EachGrows(nodes: seq<seq<Item>>, delta: u32) {
    forall x :: x in nodes ==>
      && (GetItem(x, PHANDLE).Some? ==> Grows(GetItem(x, PHANDLE).value, delta))
      && (GetItem(x, LINUX_PHANDLE).Some? ==> Grows(GetItem(x, LINUX_PHANDLE).value, delta))
  }

  /** Every phandle property of every node can grow. */
  ghost predicate AllGrow(items: seq<Item>, delta: u32) {
    EachGrows(AllNodes(items), delta)
  }

  /** A shift succeeds exactly then. */
  lemma {:induction false} CanShiftIff(items: seq<Item>, delta: u32)
    ensures CanShift(items, delta) <==> AllGrow(items, delta)
    decreases items, 1
  {
    hide Load32, GetItem, NodesBelow, CanShiftSubs;
    CanShiftSubsIff(items, delta);
    assert forall x :: x in AllNodes(items) <==> x == items || x in NodesBelow(items);
  }

  lemma {:induction false} CanShiftSubsIff(items: seq<Item>, delta: u32)
    ensures CanShiftSubs(items, delta) <==> EachGrows(NodesBelow(items), delta)
    decreases items, 0
  {
    hide CanShiftItem, Load32, GetItem, NodesIn;
    if items != [] {
      CanShiftSubsIff(items[1..], delta);
      CanShiftItemIff(items[0], delta);
      assert forall x :: x in NodesBelow(items) <==> x in NodesIn(items[0]) || x in NodesBelow(items[1..]);
    }
  }

  lemma {:induction false} CanShiftItemIff(i: Item, delta: u32)
    ensures CanShiftItem(i, delta) <==> EachGrows(NodesIn(i), delta)
    decreases i, 2
  {
    hide CanShift, Load32, GetItem, AllNodes;
    if i.Sub? { CanShiftIff(i.node.items, delta); }
  }

  /** For one property alone. */
  lemma OnePhandleShifts(v: u32, delta: u32)
    ensures CanShift([PropI(PHANDLE, Enc32(v))], delta) <==> v + delta < 0xffff_ffff
  {
    hide Enc32, Load32, CanShift;
    var over := [PropI(PHANDLE, Enc32(v))];
    PhandleNames();
    assert over[1..] == [];
    assert GetItem(over, PHANDLE) == Some(Enc32(v)) &&
      GetItem(over, LINUX_PHANDLE) == GetItem(over[1..], LINUX_PHANDLE) == None;
    assert NodesBelow(over) == NodesIn(over[0]) + NodesBelow(over[1..]) == [];
    assert AllNodes(over) == [over];
    CanShiftIff(over, delta);
  }

  // ---------- the parts of a shift do not disturb each other ----------

  lemma {:induction false} ShiftSubsGet(items: seq<Item>, delta: u32, name: bytes)
    ensures GetItem(ShiftSubs(items, delta), name) == GetItem(items, name)
  {
    if items != [] { ShiftSubsGet(items[1..], delta, name); }
  }

  lemma {:induction false} ShiftSubsReplace(items: seq<Item>, delta: u32, name: bytes, v: bytes)
    ensures ShiftSubs(ReplaceItem(items, name, v), delta) == ReplaceItem(ShiftSubs(items, delta), name, v)
  {
    if items != [] && items[0].PropI? {
      var r := ReplaceItem(items, name, v);
      if items[0].name == name {
        assert r[1..] == items[1..];
      } else {
        assert r[1..] == ReplaceItem(items[1..], name, v);
        ShiftSubsReplace(items[1..], delta, name, v);
      }
    }
  }

  /** The code shifts the properties of a node before it turns to the subnodes. */
  lemma PropsBeforeSubs(items: seq<Item>, delta: u32)
    ensures ShiftSubs(ShiftProps(items, delta), delta) == ShiftNode(items, delta)
  {
    PropBeforeSubs(items, PHANDLE, delta);
    PropBeforeSubs(ShiftProp(items, PHANDLE, delta), LINUX_PHANDLE, delta);
  }

  lemma PropBeforeSubs(items: seq<Item>, name: bytes, delta: u32)
    ensures ShiftSubs(ShiftProp(items, name, delta), delta) == ShiftProp(ShiftSubs(items, delta), name, delta)
  {
    hide ShiftSubs;
    ShiftSubsGet(items, delta, name);
    var v := GetItem(items, name);
    if v.Some? { ShiftSubsReplace(items, delta, name, Shifted(v.value, delta)); }
  }

  lemma {:induction false} ReplaceCanShift(items: seq<Item>, delta: u32, name: bytes, v: bytes)
    ensures CanShiftSubs(ReplaceItem(items, name, v), delta) == CanShiftSubs(items, delta)
  {
    if items != [] && items[0].PropI? {
      var r := ReplaceItem(items, name, v);
      if items[0].name == name {
        assert r[1..] == items[1..];
      } else {
        assert r[1..] == ReplaceItem(items[1..], name, v);
        ReplaceCanShift(items[1..], delta, name, v);
      }
    }
  }

  /** A shifted property reads as shifted, and every other property as before. */
  lemma ShiftPropGet(items: seq<Item>, name: bytes, delta: u32, other: bytes)
    ensures GetItem(ShiftProp(items, name, delta), other) ==
      match GetItem(items, other)
      case None => None
      case Some(v) => Some(if other == name then Shifted(v, delta) else v)
  {
    var v := GetItem(items, name);
    if v.Some? { ReplaceThenGet(items, name, Shifted(v.value, delta), other); }
  }

  function IsPhandleName(name: bytes): bool {
    name == PHANDLE || name == LINUX_PHANDLE
  }

  lemma ShiftNodeGet(items: seq<Item>, delta: u32, name: bytes)
    ensures GetItem(ShiftNode(items, delta), name) ==
      match GetItem(items, name)
      case None => None
      case Some(v) => Some(if IsPhandleName(name) then Shifted(v, delta) else v)
  {
    hide ShiftSubs, Shifted, ShiftProp;
    PhandleNames();
    var s := ShiftSubs(items, delta);
    ShiftSubsGet(items, delta, name);
    ShiftPropGet(s, PHANDLE, delta, name);
    ShiftPropGet(ShiftProp(s, PHANDLE, delta), LINUX_PHANDLE, delta, name);
  }

  lemma ShiftedWord(v: bytes, delta: u32)
    requires |v| == 4 && Load32(v, 0) + delta < TWO32 - 1
    ensures |Shifted(v, delta)| == 4 && Load32(Shifted(v, delta), 0) == Load32(v, 0) + delta
  {
    hide Load32;
  }

  // ---------- the new phandles ----------

  /** The phandle after the shift: none stays none, and every other one grows by `delta` without wrapping. */
  predicate Renumbered(before: u32, after: u32, present: bool, delta: u32) {
    if present then after == before + delta < TWO32 - 1 else after == before == 0
  }

  /** The node has a phandle property of one word. */
  predicate HasPhandle(items: seq<Item>) {
    HasWord(GetItem(items, PHANDLE)) || HasWord(GetItem(items, LINUX_PHANDLE))
  }

  function Presence(items: seq<Item>): seq<bool>
    decreases items, 1
  {
    [HasPhandle(items)] + PresenceBelow(items)
  }

  function PresenceBelow(items: seq<Item>): seq<bool>
    decreases items, 0
  {
    if items == [] then [] else PresenceIn(items[0]) + PresenceBelow(items[1..])
  }

  function PresenceIn(i: Item): seq<bool>
    decreases i, 2
  {
    match i
    case PropI(_, _) => []
    case Sub(n) => Presence(n.items)
  }

  predicate AllRenumbered(before: seq<u32>, after: seq<u32>, present: seq<bool>, delta: u32) {
    && |before| == |after| == |present|
    && forall k :: 0 <= k < |before| ==> Renumbered(before[k], after[k], present[k], delta)
  }

  lemma AllConcat(b1: seq<u32>, a1: seq<u32>, p1: seq<bool>, b2: seq<u32>, a2: seq<u32>, p2: seq<bool>, delta: u32)
    requires AllRenumbered(b1, a1, p1, delta) && AllRenumbered(b2, a2, p2, delta)
    ensures AllRenumbered(b1 + b2, a1 + a2, p1 + p2, delta)
  {
  }

  lemma OwnPhandle(items: seq<Item>, delta: u32)
    requires CanShift(items, delta)
    ensures Renumbered(PhandleOf(items), PhandleOf(ShiftNode(items, delta)), HasPhandle(items), delta)
  {
    hide ShiftNode, Load32, Shifted, CanShiftSubs;
    ShiftNodeGet(items, delta, PHANDLE);
    ShiftNodeGet(items, delta, LINUX_PHANDLE);
    var a, c := GetItem(items, PHANDLE), GetItem(items, LINUX_PHANDLE);
    if a.Some? { ShiftedWord(a.value, delta); }
    if c.Some? { ShiftedWord(c.value, delta); }
  }

  lemma {:induction false} ShiftPropsBelow(items: seq<Item>, name: bytes, v: bytes)
    ensures PhandlesBelow(ReplaceItem(items, name, v)) == PhandlesBelow(items)
  {
    if items != [] && items[0].PropI? {
      var r := ReplaceItem(items, name, v);
      if items[0].name == name {
        assert r[1..] == items[1..];
      } else {
        assert r[1..] == ReplaceItem(items[1..], name, v);
        ShiftPropsBelow(items[1..], name, v);
      }
    }
  }

  /** After a shift that succeeds, every node of the tree has its old phandle plus `delta`; nodes without one
      have none. */
  lemma {:induction false} ShiftRenumbers(items: seq<Item>, delta: u32)
    requires CanShift(items, delta)
    ensures AllRenumbered(Phandles(items), Phandles(ShiftNode(items, delta)), Presence(items), delta)
    decreases items, 1
  {
    hide ShiftProp, PhandleOf, HasPhandle, Renumbered, CanShiftProp, AllRenumbered;
    OwnPhandle(items, delta);
    RenumbersBelow(items, delta);
    var s := ShiftSubs(items, delta);
    ShiftPropBelow(s, PHANDLE, delta);
    ShiftPropBelow(ShiftProp(s, PHANDLE, delta), LINUX_PHANDLE, delta);
    OneRenumbered(PhandleOf(items), PhandleOf(ShiftNode(items, delta)), HasPhandle(items), delta);
    AllConcat([PhandleOf(items)], [PhandleOf(ShiftNode(items, delta))], [HasPhandle(items)],
      PhandlesBelow(items), PhandlesBelow(s), PresenceBelow(items), delta);
  }

  lemma OneRenumbered(b: u32, a: u32, p: bool, delta: u32)
    requires Renumbered(b, a, p, delta)
    ensures AllRenumbered([b], [a], [p], delta)
  {
  }

  lemma ShiftPropBelow(items: seq<Item>, name: bytes, delta: u32)
    ensures PhandlesBelow(ShiftProp(items, name, delta)) == PhandlesBelow(items)
  {
    hide PhandlesBelow;
    var v := GetItem(items, name);
    if v.Some? { ShiftPropsBelow(items, name, Shifted(v.value, delta)); }
  }

  lemma {:induction false} RenumbersBelow(items: seq<Item>, delta: u32)
    requires CanShiftSubs(items, delta)
    ensures AllRenumbered(PhandlesBelow(items), PhandlesBelow(ShiftSubs(items, delta)), PresenceBelow(items), delta)
    decreases items, 0
  {
    hide Renumbered, AllRenumbered;
    if items == [] {
      NoneRenumbered(delta);
    } else {
      RenumbersIn(items[0], delta);
      RenumbersBelow(items[1..], delta);
      var r := ShiftSubs(items, delta);
      assert r[1..] == ShiftSubs(items[1..], delta);
      AllConcat(PhandlesIn(items[0]), PhandlesIn(r[0]), PresenceIn(items[0]),
        PhandlesBelow(items[1..]), PhandlesBelow(r[1..]), PresenceBelow(items[1..]), delta);
    }
  }

  lemma NoneRenumbered(delta: u32)
    ensures AllRenumbered([], [], [], delta)
  {
  }

  lemma {:induction false} RenumbersIn(i: Item, delta: u32)
    requires CanShiftItem(i, delta)
    ensures AllRenumbered(PhandlesIn(i), PhandlesIn(ShiftItem(i, delta)), PresenceIn(i), delta)
    decreases i, 2
  {
    hide Renumbered, AllRenumbered;
    if i.Sub? { ShiftRenumbers(i.node.items, delta); } else { NoneRenumbered(delta); }
  }

  /** The point of the renumbering. With `delta` the largest phandle of the base tree, no phandle of the overlay that
      was not 0 equals one of the base, different ones stay different, and none becomes the reserved number. */
  lemma NoCollision(base: seq<Item>, over: seq<Item>, delta: u32, k: nat, m: nat)
    requires CanShift(over, delta) && forall x :: 0 <= x < |Phandles(base)| ==> Phandles(base)[x] <= delta
    requires k < |Phandles(over)| && m < |Phandles(over)| && Phandles(over)[k] != 0
    ensures |Phandles(ShiftNode(over, delta))| == |Phandles(over)|
    ensures var after := Phandles(ShiftNode(over, delta));
      && after[k] !in Phandles(base) && after[k] != 0 && after[k] != 0xffff_ffff
      && (Phandles(over)[m] != Phandles(over)[k] ==> after[m] != after[k])
  {
    hide Phandles, ShiftNode, CanShift, Presence;
    ShiftRenumbers(over, delta);
    assert Renumbered(Phandles(over)[k], Phandles(ShiftNode(over, delta))[k], Presence(over)[k], delta);
    assert Renumbered(Phandles(over)[m], Phandles(ShiftNode(over, delta))[m], Presence(over)[m], delta);
  }

  /** No renumbered phandle is one of the base, different ones stay different, and none becomes the reserved number,
      where a phandle of value 0 counts as the exception that it is: it lands on `delta`. */
  ghost predicate KeptApart(base: seq<u32>, before: seq<u32>, after: seq<u32>, present: seq<bool>, delta: u32) {
    && |before| == |after| == |present|
    && (forall k :: 0 <= k < |after| && !present[k] ==> after[k] == before[k] == 0)
    && (forall k :: 0 <= k < |after| && present[k] ==>
          && after[k] != 0xffff_ffff
          && (after[k] in base <==> before[k] == 0 && delta in base)
          && (after[k] == 0 <==> before[k] == 0 && delta == 0))
    && (forall k, m :: 0 <= k < |after| && 0 <= m < |after| && present[k] && present[m] ==>
          (after[m] == after[k] <==> before[m] == before[k]))
  }

  lemma RenumberedApart(base: seq<u32>, before: seq<u32>, after: seq<u32>, present: seq<bool>, delta: u32)
    requires AllRenumbered(before, after, present, delta) && forall x :: 0 <= x < |base| ==> base[x] <= delta
    ensures KeptApart(base, before, after, present, delta)
  {
    forall k | 0 <= k < |before| ensures Renumbered(before[k], after[k], present[k], delta) {
    }
  }

  /** With `delta` the largest phandle of the base, the phandle of a node that has one collides with one of the base
      exactly when it was 0. */
  lemma CollidesExactly(base: seq<Item>, over: seq<Item>, delta: u32, k: nat)
    requires CanShift(over, delta) && forall x :: 0 <= x < |Phandles(base)| ==> Phandles(base)[x] <= delta
    requires delta in Phandles(base) && k < |Presence(over)| && Presence(over)[k]
    ensures |Phandles(ShiftNode(over, delta))| == |Phandles(over)| == |Presence(over)|
    ensures Phandles(ShiftNode(over, delta))[k] in Phandles(base) <==> Phandles(over)[k] == 0
  {
    hide Phandles, ShiftNode, CanShift, Presence;
    ShiftRenumbers(over, delta);
    RenumberedApart(Phandles(base), Phandles(over), Phandles(ShiftNode(over, delta)), Presence(over), delta);
  }

  /** A phandle property of value 0 is the exception: it is shifted onto the largest phandle of the base. */
  lemma ZeroCollides(delta: u32)
    requires delta < TWO32 - 1
    ensures var over := [PropI(PHANDLE, Enc32(0))];
      && CanShift(over, delta) && Phandles(over) == [0] && Phandles(ShiftNode(over, delta)) == [delta]
  {
    hide ShiftProp, Enc32, Load32, CanShift;
    var over := [PropI(PHANDLE, Enc32(0))];
    ZeroCanShift(delta);
    OwnPhandle(over, delta);
    ShiftPropBelow(ShiftSubs(over, delta), PHANDLE, delta);
    ShiftPropBelow(ShiftProp(ShiftSubs(over, delta), PHANDLE, delta), LINUX_PHANDLE, delta);
  }

  lemma ZeroCanShift(delta: u32)
    requires delta < TWO32 - 1
    ensures var over := [PropI(PHANDLE, Enc32(0))];
      && CanShift(over, delta) && GetItem(over, PHANDLE) == Some(Enc32(0)) && GetItem(over, LINUX_PHANDLE) == None
      && PhandlesBelow(over) == [] && ShiftSubs(over, delta) == over
  {
    hide Enc32, Load32;
    var over := [PropI(PHANDLE, Enc32(0))];
    PhandleNames();
    assert over[1..] == [];
    assert GetItem(over, PHANDLE) == Some(Enc32(0)) &&
      GetItem(over, LINUX_PHANDLE) == GetItem(over[1..], LINUX_PHANDLE) == None;
    assert CanShiftItem(over[0], delta) && CanShiftSubs(over[1..], delta);
    assert CanShiftProp(over, PHANDLE, delta) && CanShiftProp(over, LINUX_PHANDLE, delta);
  }
}
