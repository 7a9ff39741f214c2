/** Walking over the nodes of a blob: `fdt_next_node`, proved against a search of the token stream. */
module FdtRead {
  import opened FdtTokens
  import opened FdtBlob

  // ---------- blobs with a token stream ----------

  /** The structure block starts with the tokens `ts`, up to the first end tag. */
  ghost predicate Streams(b: Blob, ts: seq<Token>) {
    && Placed(b) && b.offStruct >= FDT_V17_SIZE
    && ts != [] && ts[|ts| - 1].End? && (forall i :: 0 <= i < |ts| - 1 ==> !ts[i].End?)
    && LenOf(ts) <= b.sizeStruct && Decodes(StructOf(b)[..LenOf(ts)], ts)
  }

  /** The offset of token `i`. */
  function Off(ts: seq<Token>, i: nat): nat
    requires i <= |ts|
  {
    LenOf(ts[..i])
  }

  /** What is read at the offset of token `i`. */
  lemma TokenHere(b: Blob, ts: seq<Token>, i: nat)
    requires Streams(b, ts) && i < |ts|
    ensures ReadTag(RestOf(b, Off(ts, i))) == Tok(ts[i], TokLen(ts[i]))
    ensures TagAlign(Off(ts, i) + RawLen(ts[i])) == Off(ts, i + 1) == Off(ts, i) + TokLen(ts[i])
    ensures Off(ts, i + 1) <= b.sizeStruct <= INT_MAX && Off(ts, i) % 4 == 0
  {
    hide ReadTag, RawLen, Decodes, TagAlign;
    var n := LenOf(ts);
    var s, whole := StructOf(b)[..n], StructOf(b);
    TokenAtOffset(s, ts, i);
    var o := Off(ts, i);
    LenAligned(ts[..i]);
    TokLenIsAligned(ts[i], o);
    TokenChunk(s, ts, i);
    ReadTagLocal(s[o..o + TokLen(ts[i])], ts[i], whole[o + TokLen(ts[i])..]);
    assert s[o..o + TokLen(ts[i])] + whole[o + TokLen(ts[i])..] == whole[o..];
    DecodesLength(s, ts);
  }

  /** Offsets grow with the token index. */
  lemma OffGrows(ts: seq<Token>, i: nat, j: nat)
    requires i < j <= |ts|
    ensures Off(ts, i) < Off(ts, j)
  {
    hide TokLen;
    assert ts[..j] == ts[..i] + ts[i..j];
    LenOfConcat(ts[..i], ts[i..j]);
    assert ts[i..j] == [ts[i]] + ts[i + 1..j];
    LenOfConcat([ts[i]], ts[i + 1..j]);
    LenOfOne(ts[i]);
  }

  method TagAt(b: Blob, offset: int, ghost ts: seq<Token>, ghost i: nat) returns (tag: nat, next: int)
    requires Streams(b, ts) && i < |ts| && offset == Off(ts, i)
    ensures tag == TagOf(ts[i]) && next == Off(ts, i + 1)
  {
    hide ReadTag, RawLen, TagOf, TokLen;
    TokenHere(b, ts, i);
    tag, next := NextTag(b, offset);
  }

  /** A node begins at this offset of the structure block. */
  predicate IsNode(b: Blob, offset: int)
    requires Placed(b)
  {
    offset % 4 == 0 && ReadTag(RestOf(b, offset)).Tok? && ReadTag(RestOf(b, offset)).t.BeginNode?
  }

  /** The offset is that of the node at token `i`. */
  predicate NodeGiven(ts: seq<Token>, i: nat, offset: int) {
    i < |ts| && ts[i].BeginNode? && offset == Off(ts, i)
  }

  lemma NodeHere(b: Blob, ts: seq<Token>, i: nat)
    requires Streams(b, ts) && i < |ts| && ts[i].BeginNode?
    ensures IsNode(b, Off(ts, i)) && i + 1 < |ts|
  {
    hide ReadTag, RawLen, TokLen, RestOf;
    TokenHere(b, ts, i);
  }

  /** `fdt_check_node_offset_`: the offset behind the tag and the name of the node, or an error where no node begins. */
  method CheckNodeOffset(b: Blob, offset: int, ghost ts: seq<Token>, ghost i: nat) returns (next: int)
    requires Streams(b, ts) && (NodeGiven(ts, i, offset) || (offset <= INT_MAX && !IsNode(b, offset)))
    ensures NodeGiven(ts, i, offset) ==> i + 1 < |ts| && next == Off(ts, i + 1)
    ensures !NodeGiven(ts, i, offset) ==> next == -FDT_ERR_BADOFFSET
    ensures offset < 0 || offset % 4 != 0 ==> next == -FDT_ERR_BADOFFSET
  {
    hide ReadTag, RawLen, TokLen, Decodes, LenOf, RestOf;
    if NodeGiven(ts, i, offset) { NodeHere(b, ts, i); TokenHere(b, ts, i); }
    if offset < 0 || offset % 4 != 0 {
      return -FDT_ERR_BADOFFSET;
    }
    var tag;
    tag, next := NextTag(b, offset);
    if tag != FDT_BEGIN_NODE {
      return -FDT_ERR_BADOFFSET;
    }
    if !NodeGiven(ts, i, offset) { NoOtherTag(b, offset); }
  }

  /** Only a node reads as the tag of one. */
  lemma NoOtherTag(b: Blob, offset: int)
    requires Placed(b) && offset % 4 == 0 && !IsNode(b, offset)
    ensures ReadTag(RestOf(b, offset)).Tok? ==> TagOf(ReadTag(RestOf(b, offset)).t) != FDT_BEGIN_NODE
  {
    hide ReadTag, RestOf;
  }

  // ---------- fdt_next_node ----------

  /** The next node from token `j` on; or the end of the enclosing node, once the depth falls below 0; or neither. */
  datatype Walk = NodeAt(k: nat, depth: int) | Left(k: nat, depth: int) | NoMore(depth: int)

  function ScanNode(ts: seq<Token>, j: nat, depth: int, tracked: bool): Walk
    decreases |ts| - j
  {
    if j >= |ts| then NoMore(depth) else
    match ts[j]
    case BeginNode(_) => NodeAt(j, depth + 1)
    case EndNode => if tracked && depth - 1 < 0 then Left(j + 1, depth - 1) else ScanNode(ts, j + 1, depth - 1, tracked)
    case End => NoMore(depth)
    case _ => ScanNode(ts, j + 1, depth, tracked)
  }

  function WalkResult(ts: seq<Token>, w: Walk): int {
    match w
    case NodeAt(k, _) => if k <= |ts| then Off(ts, k) else 0
    case Left(k, _) => if k <= |ts| then Off(ts, k) else 0
    case NoMore(_) => -FDT_ERR_NOTFOUND
  }

  /** `fdt_next_node` from the node at token `i`, or from the start of the block for a negative offset. Where no node
      begins it is an error. */
  method NextNode(b: Blob, offset: int, depth: int, tracked: bool, ghost ts: seq<Token>, ghost i: nat)
    returns (result: int, depth': int)
    requires Streams(b, ts)
    requires offset < 0 || NodeGiven(ts, i, offset) || (offset <= INT_MAX && !IsNode(b, offset))
    ensures offset < 0 || NodeGiven(ts, i, offset) ==>
      var w := ScanNode(ts, if offset >= 0 then i + 1 else 0, depth, tracked);
      result == WalkResult(ts, w) && (tracked ==> depth' == w.depth)
    ensures offset >= 0 && !NodeGiven(ts, i, offset) ==> result == -FDT_ERR_BADOFFSET && depth' == depth
  {
    hide ReadTag, RawLen, TokLen, Decodes, LenOf, IsNode;
    var next := 0;
    ghost var j := 0;
    depth' := depth;
    StartsAtZero(ts);
    if offset >= 0 {
      next := CheckNodeOffset(b, offset, ts, i);
      if next < 0 {
        return next, depth;
      }
      j := i + 1;
    }
    ghost var w := ScanNode(ts, j, depth, tracked);
    while true
      invariant 0 <= j < |ts| && next == Off(ts, j)
      invariant ScanNode(ts, j, depth', tracked) == w
      decreases |ts| - j
    {
      var here := next;
      var tag;
      tag, next := TagAt(b, here, ts, j);
      if tag == FDT_BEGIN_NODE {
        if tracked { depth' := depth' + 1; }
        return here, depth';
      } else if tag == FDT_END_NODE {
        depth' := depth' - 1;
        if tracked && depth' < 0 {
          return next, depth';
        }
      } else if tag == FDT_END {
        return -FDT_ERR_NOTFOUND, depth';
      }
      j := j + 1;
    }
  }

  lemma StartsAtZero(ts: seq<Token>)
    requires ts != []
    ensures Off(ts, 0) == 0
  {
    assert ts[..0] == [];
  }

  // ---------- visiting every node ----------

  /** The nodes from token `j` on, in order. */
  function NodesFrom(ts: seq<Token>, j: nat): seq<nat>
    decreases |ts| - j
  {
    if j >= |ts| then [] else if ts[j].BeginNode? then [j] + NodesFrom(ts, j + 1) else NodesFrom(ts, j + 1)
  }

  /** A walk that ignores depth finds the first of the remaining nodes. */
  lemma {:induction false} WalkFindsFirst(ts: seq<Token>, j: nat, depth: int)
    requires ts != [] && ts[|ts| - 1].End? && (forall i :: 0 <= i < |ts| - 1 ==> !ts[i].End?)
    ensures match ScanNode(ts, j, depth, false)
      case NodeAt(k, _) => j <= k < |ts| && ts[k].BeginNode? && NodesFrom(ts, j) == [k] + NodesFrom(ts, k + 1)
      case Left(_, _) => false
      case NoMore(_) => NodesFrom(ts, j) == []
    decreases |ts| - j
  {
    if j < |ts| {
      if ts[j].EndNode? { WalkFindsFirst(ts, j + 1, depth - 1); }
      else if !ts[j].BeginNode? && !ts[j].End? { WalkFindsFirst(ts, j + 1, depth); }
    }
  }

  /** The enumeration loop over `fdt_next_node` that starts at a negative offset: it visits every node of the
      blob exactly once, in the order of the structure block. */
  method EnumerateNodes(b: Blob, ghost ts: seq<Token>) returns (offsets: seq<int>)
    requires Streams(b, ts)
    ensures |offsets| == |NodesFrom(ts, 0)|
    ensures forall n :: 0 <= n < |offsets| ==> NodesFrom(ts, 0)[n] < |ts| && offsets[n] == Off(ts, NodesFrom(ts, 0)[n])
  {
    hide ReadTag, Decodes, LenOf;
    ghost var nodes: seq<nat> := [];
    offsets := [];
    var offset := -1;
    ghost var j := 0;
    while true
      invariant 0 <= j <= |ts|
      invariant offset >= 0 ==> 1 <= j && ts[j - 1].BeginNode? && offset == Off(ts, j - 1)
      invariant offset < 0 ==> j == 0
      invariant nodes + NodesFrom(ts, j) == NodesFrom(ts, 0)
      invariant |offsets| == |nodes|
      invariant forall n :: 0 <= n < |nodes| ==> nodes[n] < |ts| && offsets[n] == Off(ts, nodes[n])
      decreases |ts| - j
    {
      WalkFindsFirst(ts, j, 0);
      ghost var w := ScanNode(ts, j, 0, false);
      var depth;
      offset, depth := NextNode(b, offset, 0, false, ts, if j > 0 then j - 1 else 0);
      if offset < 0 {
        return;
      }
      offsets, nodes := offsets + [offset], nodes + [w.k];
      j := w.k + 1;
    }
  }
}
