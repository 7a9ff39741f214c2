/** Looking up subnodes and properties of a node, and finding its end. */
module FdtLookup {
  import opened Words
  import opened FdtTokens
  import opened FdtStrings
  import opened FdtBlob
  import opened FdtCheck
  import opened FdtRead

  const AT: byte := '@' as int

  // ---------- subnodes ----------

  /** `fdt_nodename_eq_`: the unit address may be left out of the name looked for. */
  predicate NameEq(name: bytes, s: bytes) {
    && |name| >= |s| && name[..|s|] == s
    && (|name| == |s| || (AT !in s && name[|s|] == AT))
  }

  /** What a name may be looked up by: itself, or without its unit address, the part from the '@' on. */
  ghost predicate CalledBy(name: bytes, s: bytes) {
    name == s || ('@' as int !in s && s + ['@' as int] <= name)
  }

  /** The comparison of the lookups accepts exactly these names. */
  lemma NameEqMeans(name: bytes, s: bytes)
    ensures NameEq(name, s) <==> CalledBy(name, s)
  {
    if NameEq(name, s) && |name| > |s| {
      assert name == s + [AT] + name[|s| + 1..];
    }
    if CalledBy(name, s) && name != s {
      assert name[..|s| + 1] == s + [AT];
      assert name[..|s|] == name[..|s| + 1][..|s|] == s && name[|s|] == name[..|s| + 1][|s|] == AT;
    }
  }

  /** So a node is found without its unit address. */
  lemma UnitAddressOptional(s: bytes, address: bytes)
    requires '@' as int !in s
    ensures NameEq(s + ['@' as int] + address, s)
  {
    NameEqMeans(s + [AT] + address, s);
  }

  lemma SelfEq(s: bytes)
    ensures NameEq(s, s)
  {
  }

  /** The first subnode of that name, from token `j` on, at depth `d` below the node. */
  function FindSub(ts: seq<Token>, j: nat, d: nat, s: bytes): Option<nat>
    decreases |ts| - j
  {
    if j >= |ts| then None else
    match ts[j]
    case BeginNode(name) => if d == 0 && NameEq(name, s) then Some(j) else FindSub(ts, j + 1, d + 1, s)
    case EndNode => if d == 0 then None else FindSub(ts, j + 1, d - 1, s)
    case End => None
    case _ => FindSub(ts, j + 1, d, s)
  }

  /** The next node that the loop of `fdt_subnode_offset_namelen` looks at decides, or is skipped. */
  lemma {:induction false} FindSubByWalk(ts: seq<Token>, j: nat, d: nat, s: bytes)
    ensures match ScanNode(ts, j, d, true)
      case NodeAt(k, e) =>
        && j <= k < |ts| && ts[k].BeginNode? && 1 <= e
        && FindSub(ts, j, d, s) == if e == 1 && NameEq(ts[k].name, s) then Some(k) else FindSub(ts, k + 1, e, s)
      case Left(k, e) => e < 0 && k <= |ts| && FindSub(ts, j, d, s) == None
      case NoMore(e) => e >= 0 && FindSub(ts, j, d, s) == None
    decreases |ts| - j
  {
    if j < |ts| {
      if ts[j].EndNode? { if d > 0 { FindSubByWalk(ts, j + 1, d - 1, s); } }
      else if !ts[j].BeginNode? && !ts[j].End? { FindSubByWalk(ts, j + 1, d, s); }
    }
  }

  /** `fdt_subnode_offset_namelen` of the node at token `i`, or of an offset where no node begins, in a blob that passes
      the probe; otherwise the error of the probe. */
  method SubnodeOffset(b: Blob, parent: int, s: bytes, ghost ts: seq<Token>, ghost i: nat) returns (result: int)
    requires Streams(b, ts) && (NodeGiven(ts, i, parent) || (parent <= INT_MAX && !IsNode(b, parent)))
    ensures RoProbe(b) < 0 ==> result == RoProbe(b)
    ensures RoProbe(b) >= 0 && NodeGiven(ts, i, parent) ==>
      match FindSub(ts, i + 1, 0, s)
      case Some(k) => k < |ts| && ts[k].BeginNode? && CalledBy(ts[k].name, s) && result == Off(ts, k)
      case None => result == -FDT_ERR_NOTFOUND
    ensures RoProbe(b) >= 0 && !NodeGiven(ts, i, parent) ==> result == if parent < 0 then parent else -FDT_ERR_BADOFFSET
  {
    hide ReadTag, Decodes, LenOf, NameEq, CalledBy, IsNode, RoProbe;
    result := RoProbe(b);
    if result < 0 {
      return;
    }
    var offset, depth := parent, 0;
    ghost var given := NodeGiven(ts, i, parent);
    ghost var k := i;
    ghost var w := NodeAt(i, 0);
    while offset >= 0 && depth >= 0
      invariant !given ==> k == i && depth == 0 && (offset == parent || (0 <= parent && offset == -FDT_ERR_BADOFFSET))
      invariant given ==> offset == WalkResult(ts, w)
      invariant given ==> match w
        case NodeAt(n, e) => k == n && k < |ts| && ts[k].BeginNode? && depth == e >= 0 && (k == i || depth >= 1)
          && FindSub(ts, i + 1, 0, s) == if depth == 1 && NameEq(ts[k].name, s) then Some(k)
            else FindSub(ts, k + 1, depth, s)
        case Left(n, e) => depth == e < 0 && FindSub(ts, i + 1, 0, s) == None
        case NoMore(e) => depth == e && FindSub(ts, i + 1, 0, s) == None
      decreases if !given then (if offset >= 0 then 1 else 0) else match w case NodeAt(n, _) => |ts| - n case _ => -1
    {
      if depth == 1 {
        TokenHere(b, ts, k);
        var name := NodeName(b, offset);
        NameEqMeans(name, s);
        if NameEq(name, s) {
          return offset;
        }
      }
      FindSubByWalk(ts, k + 1, depth, s);
      ghost var next := ScanNode(ts, k + 1, depth, true);
      offset, depth := NextNode(b, offset, depth, true, ts, k);
      if given {
        w := next;
        if w.NodeAt? { k := w.k; }
      }
    }
    if depth < 0 {
      return -FDT_ERR_NOTFOUND;
    }
    return offset;
  }

  // ---------- the end of a node ----------

  /** The token after the one that closes the node whose tokens start before `j`, `d` levels further up. */
  function NodeEnd(ts: seq<Token>, j: nat, d: nat): Option<nat>
    decreases |ts| - j
  {
    if j >= |ts| then None else
    match ts[j]
    case BeginNode(_) => NodeEnd(ts, j + 1, d + 1)
    case EndNode => if d == 0 then Some(j + 1) else NodeEnd(ts, j + 1, d - 1)
    case End => None
    case _ => NodeEnd(ts, j + 1, d)
  }

  lemma {:induction false} NodeEndByWalk(ts: seq<Token>, j: nat, d: nat)
    ensures match ScanNode(ts, j, d, true)
      case NodeAt(k, e) => j <= k < |ts| && ts[k].BeginNode? && 1 <= e && NodeEnd(ts, j, d) == NodeEnd(ts, k + 1, e)
      case Left(k, e) => e < 0 && k <= |ts| && NodeEnd(ts, j, d) == Some(k)
      case NoMore(e) => e >= 0 && NodeEnd(ts, j, d) == None
    decreases |ts| - j
  {
    if j < |ts| {
      if ts[j].EndNode? { if d > 0 { NodeEndByWalk(ts, j + 1, d - 1); } }
      else if !ts[j].BeginNode? && !ts[j].End? { NodeEndByWalk(ts, j + 1, d); }
    }
  }

  /** `fdt_node_end_offset_` of the node at token `i`, or of an offset where no node begins. */
  method NodeEndOffset(b: Blob, node: int, ghost ts: seq<Token>, ghost i: nat) returns (result: int)
    requires Streams(b, ts) && (NodeGiven(ts, i, node) || (node <= INT_MAX && !IsNode(b, node)))
    ensures NodeGiven(ts, i, node) ==>
      match NodeEnd(ts, i + 1, 0)
      case Some(k) => k <= |ts| && result == Off(ts, k)
      case None => result == -FDT_ERR_NOTFOUND
    ensures !NodeGiven(ts, i, node) ==> result == if node < 0 then node else -FDT_ERR_BADOFFSET
  {
    hide ReadTag, Decodes, LenOf, IsNode;
    var offset, depth := node, 0;
    ghost var given := NodeGiven(ts, i, node);
    ghost var k := i;
    ghost var w := NodeAt(i, 0);
    while offset >= 0 && depth >= 0
      invariant !given ==> k == i && depth == 0 && (offset == node || (0 <= node && offset == -FDT_ERR_BADOFFSET))
      invariant given ==> offset == WalkResult(ts, w) && (w.NodeAt? ==> w.k == k)
      invariant given ==> match w
        case NodeAt(k, e) => k < |ts| && ts[k].BeginNode? && depth == e >= 0 &&
          NodeEnd(ts, i + 1, 0) == NodeEnd(ts, k + 1, depth)
        case Left(k, e) => depth == e < 0 && k <= |ts| && NodeEnd(ts, i + 1, 0) == Some(k)
        case NoMore(e) => depth == e && NodeEnd(ts, i + 1, 0) == None
      decreases if !given then (if offset >= 0 then 1 else 0) else match w case NodeAt(n, _) => |ts| - n case _ => -1
    {
      NodeEndByWalk(ts, k + 1, depth);
      ghost var next := ScanNode(ts, k + 1, depth, true);
      offset, depth := NextNode(b, offset, depth, true, ts, k);
      if given {
        w := next;
        if w.NodeAt? { k := w.k; }
      }
    }
    return offset;
  }

  // ---------- properties ----------

  /** The first property of that name among the properties (and NOPs) from token `j` on. */
  function FindProp(ts: seq<Token>, z: bytes, j: nat, name: bytes): Option<nat>
    decreases |ts| - j
  {
    if j >= |ts| then None else
    match ts[j]
    case Prop(off, _) => if StringAt(z, off) == Some(name) then Some(j) else FindProp(ts, z, j + 1, name)
    case Nop => FindProp(ts, z, j + 1, name)
    case _ => None
  }

  /** The first property from token `j` on (`nextprop_`). */
  function NextProp(ts: seq<Token>, j: nat): Option<nat>
    decreases |ts| - j
  {
    if j >= |ts| then None else
    match ts[j]
    case Prop(_, _) => Some(j)
    case Nop => NextProp(ts, j + 1)
    case _ => None
  }

  /** The first token from `j` on that is neither a property nor a NOP: where subnodes may start. */
  function LeadEnd(ts: seq<Token>, j: nat): nat
    decreases |ts| - j
  {
    if j < |ts| && (ts[j].Prop? || ts[j].Nop?) then LeadEnd(ts, j + 1) else j
  }

  lemma {:induction false} FindPropByNext(ts: seq<Token>, z: bytes, j: nat, name: bytes)
    ensures match NextProp(ts, j)
      case Some(k) => j <= k < |ts| && ts[k].Prop? && LeadEnd(ts, j) == LeadEnd(ts, k + 1)
        && FindProp(ts, z, j, name) == if StringAt(z, ts[k].nameoff) == Some(name) then Some(k)
          else FindProp(ts, z, k + 1, name)
      case None => FindProp(ts, z, j, name) == None
    decreases |ts| - j
  {
    if j < |ts| && ts[j].Nop? { FindPropByNext(ts, z, j + 1, name); }
  }

  /** `nextprop_` from token `j`. */
  method NextPropFrom(b: Blob, start: int, ghost ts: seq<Token>, ghost j: nat) returns (result: int)
    requires Streams(b, ts) && j < |ts| && start == Off(ts, j)
    ensures match NextProp(ts, j)
      case Some(k) => k < |ts| && ts[k].Prop? && result == Off(ts, k)
      case None => result == if LeadEnd(ts, j) == |ts| - 1 then -FDT_ERR_BADSTRUCTURE else -FDT_ERR_NOTFOUND
  {
    hide ReadTag, Decodes, LenOf;
    var offset := start;
    ghost var k := j;
    while true
      invariant j <= k < |ts| && offset == Off(ts, k) && NextProp(ts, k) == NextProp(ts, j)
      invariant LeadEnd(ts, k) == LeadEnd(ts, j)
      decreases |ts| - k
    {
      var tag, next := TagAt(b, offset, ts, k);
      if tag == FDT_END {
        return -FDT_ERR_BADSTRUCTURE;
      } else if tag == FDT_PROP {
        return offset;
      }
      if tag != FDT_NOP {
        return -FDT_ERR_NOTFOUND;
      }
      offset := next;
      k := k + 1;
    }
  }

  /** `fdt_get_property_namelen_` of the node at token `i`: the offset and length of the first property of that
      name, or an error code. Where no node begins it is an error. No name is read from a blob that fails the probe. */
  method GetProperty(b: Blob, node: int, name: bytes, ghost ts: seq<Token>, ghost i: nat)
    returns (found: bool, offset: int, len: int)
    requires Streams(b, ts) && StringsPlaced(b) && b.magic == FDT_MAGIC
    requires NodeGiven(ts, i, node) || (node <= INT_MAX && !IsNode(b, node))
    ensures !NodeGiven(ts, i, node) ==> !found && len == -FDT_ERR_BADOFFSET
    ensures NodeGiven(ts, i, node) ==>
      match if RoProbe(b) >= 0 then FindProp(ts, StringsOf(b), i + 1, name) else None
      case Some(k) => found && k < |ts| && ts[k].Prop? && offset == Off(ts, k) && len == |ts[k].value|
      case None => !found && len == if LeadEnd(ts, i + 1) == |ts| - 1 then -FDT_ERR_BADSTRUCTURE else -FDT_ERR_NOTFOUND
  {
    hide ReadTag, Decodes, LenOf, StringAt, TagOf, Load32, TokLen, RawLen, RestOf, FindProp, LeadEnd, IsNode, RoProbe;
    ghost var z := StringsOf(b);
    var next := CheckNodeOffset(b, node, ts, i);
    if next < 0 {
      return false, 0, next;
    }
    ghost var j := i + 1;
    offset := NextPropFrom(b, next, ts, j);
    FindPropByNext(ts, z, j, name);
    while offset >= 0
      invariant i < j < |ts| && LeadEnd(ts, j) == LeadEnd(ts, i + 1)
      invariant RoProbe(b) >= 0 ==> FindProp(ts, z, j, name) == FindProp(ts, z, i + 1, name)
      invariant match NextProp(ts, j)
        case Some(k) => k < |ts| && ts[k].Prop? && offset == Off(ts, k)
        case None => offset == if LeadEnd(ts, j) == |ts| - 1 then -FDT_ERR_BADSTRUCTURE else -FDT_ERR_NOTFOUND
      decreases |ts| - j
    {
      FindPropByNext(ts, z, j, name);
      ghost var k := NextProp(ts, j).value;
      TokenHere(b, ts, k);
      PropFields(b, offset);
      len := Load32(b.data, b.offStruct + offset + 4);
      var nameoff := Load32(b.data, b.offStruct + offset + 8);
      var got, s, _ := GetString(b, nameoff);
      if got && |s| == |name| && s == name {
        return true, offset, len;
      }
      var tag;
      tag, next := TagAt(b, offset, ts, k);
      NotLast(ts, k, b);
      j := k + 1;
      offset := NextPropFrom(b, next, ts, j);
    }
    FindPropByNext(ts, z, j, name);
    return false, 0, offset;
  }

  lemma NotLast(ts: seq<Token>, i: nat, b: Blob)
    requires Streams(b, ts) && i < |ts| && !ts[i].End?
    ensures i + 1 < |ts|
  {
  }

  lemma PropFields(b: Blob, offset: nat)
    requires Placed(b) && ReadTag(RestOf(b, offset)).Tok? && ReadTag(RestOf(b, offset)).t.Prop?
    ensures offset + 12 <= b.sizeStruct
    ensures var t := ReadTag(RestOf(b, offset)).t;
      && Load32(b.data, b.offStruct + offset + 4) == |t.value|
      && Load32(b.data, b.offStruct + offset + 8) == t.nameoff
  {
    RestLength(b, offset);
    RestLoad(b, offset, 4);
    RestLoad(b, offset, 8);
  }
}
