/** Ancestors and paths: `fdt_supernode_atdepth_offset`, `fdt_parent_offset` and `fdt_get_path`. */
module FdtPaths {
  import opened Words
  import opened FdtTokens
  import opened FdtMemory
  import opened FdtBlob
  import opened FdtCheck
  import opened FdtRead
  import opened FdtLookup
  import opened FdtSplice

  const SLASH: byte := '/' as int

  // ---------- the nodes around a place ----------

  /** The nodes that are open after the first `i` tokens, outermost first. */
  function Stack(ts: seq<Token>, i: nat): seq<nat>
    requires i <= |ts|
  {
    if i == 0 then [] else
    var s := Stack(ts, i - 1);
    match ts[i - 1]
    case BeginNode(_) => s + [i - 1]
    case EndNode => if s == [] then [] else s[..|s| - 1]
    case _ => s
  }

  lemma {:induction false} StackIsNodes(ts: seq<Token>, i: nat)
    requires i <= |ts|
    ensures forall m :: 0 <= m < |Stack(ts, i)| ==> Stack(ts, i)[m] < i && ts[Stack(ts, i)[m]].BeginNode?
  {
    if i > 0 { StackIsNodes(ts, i - 1); }
  }

  lemma StackStep(ts: seq<Token>, i: nat)
    requires i < |ts|
    ensures Stack(ts, i + 1) ==
      match ts[i]
      case BeginNode(_) => Stack(ts, i) + [i]
      case EndNode => if Stack(ts, i) == [] then [] else Stack(ts, i)[..|Stack(ts, i)| - 1]
      case _ => Stack(ts, i)
  {
  }

  /** The node at token `i` lies inside the node at token 0. */
  ghost predicate InRoot(ts: seq<Token>, i: nat) {
    i < |ts| && ts[0].BeginNode? && ts[i].BeginNode? && forall j :: 1 <= j <= i ==> Stack(ts, j) != []
  }

  /** A walk towards the node at token `i` comes to a node on the way, or to that node; up to there nodes are only
      left. */
  lemma {:induction false} WalkTowards(ts: seq<Token>, j: nat, d: nat, i: nat)
    requires InRoot(ts, i) && 1 <= j <= i && |Stack(ts, j)| == d + 1 && forall m :: j <= m < i ==> !ts[m].End?
    ensures match ScanNode(ts, j, d, true)
      case NodeAt(k, e) => j <= k <= i && ts[k].BeginNode? && 1 <= e && e == |Stack(ts, k)| &&
        Stack(ts, k) <= Stack(ts, j)
      case _ => false
    decreases i - j
  {
    hide Stack;
    StackStep(ts, j);
    if j < i && !ts[j].BeginNode? {
      assert Stack(ts, j + 1) != [];
      WalkTowards(ts, j + 1, if ts[j].EndNode? then d - 1 else d, i);
    }
  }

  /** The nodes around an open node are the nodes that were open when it began. */
  lemma {:induction false} ChainPrefix(ts: seq<Token>, j: nat, m: nat)
    requires j <= |ts| && m < |Stack(ts, j)|
    ensures Stack(ts, j)[m] < j && Stack(ts, Stack(ts, j)[m] + 1) == Stack(ts, j)[..m + 1]
    decreases j
  {
    hide Stack;
    RootFirst(ts);
    StackStep(ts, j - 1);
    if m < |Stack(ts, j - 1)| { ChainPrefix(ts, j - 1, m); }
  }

  /** Which nodes these are: node `m` from the outside ends where, from token `i` on, as many nodes as lie inside it and
      around `i` have ended before. */
  lemma {:induction false} OpenNodeEnds(ts: seq<Token>, i: nat, m: nat)
    requires i <= |ts| && m < |Stack(ts, i)| && forall j :: 0 <= j < i ==> !ts[j].End?
    ensures Stack(ts, i)[m] < i && ts[Stack(ts, i)[m]].BeginNode?
    ensures NodeEnd(ts, Stack(ts, i)[m] + 1, 0) == NodeEnd(ts, i, |Stack(ts, i)| - 1 - m)
    decreases i
  {
    hide NodeEnd, Stack;
    RootFirst(ts);
    StackStep(ts, i - 1);
    EndStep(ts, i - 1, |Stack(ts, i - 1)| - 1 - m);
    if m < |Stack(ts, i - 1)| { OpenNodeEnds(ts, i - 1, m); }
  }

  lemma EndStep(ts: seq<Token>, j: nat, d: int)
    requires j < |ts| && !ts[j].End?
    ensures d >= 0 ==>
      NodeEnd(ts, j, d) == match ts[j]
      case BeginNode(_) => NodeEnd(ts, j + 1, d + 1)
      case EndNode => if d == 0 then Some(j + 1) else NodeEnd(ts, j + 1, d - 1)
      case _ => NodeEnd(ts, j + 1, d)
  {
  }

  // ---------- ancestors ----------

  /** The walk of `fdt_get_path` and `fdt_supernode_atdepth_offset` from one node to the next. */
  method StepTowards(b: Blob, offset: int, depth: int, ghost ts: seq<Token>, ghost k: nat, ghost i: nat)
    returns (offset': int, depth': int, ghost k': nat)
    requires Streams(b, ts) && InRoot(ts, i) && k < i && ts[k].BeginNode? && offset == Off(ts, k) &&
      depth == |Stack(ts, k)|
    ensures k < k' <= i && ts[k'].BeginNode? && offset' == Off(ts, k') && depth' == |Stack(ts, k')| >= 1
    ensures Stack(ts, k') <= Stack(ts, k + 1)
  {
    hide Streams, Stack, LenOf, Off;
    StreamsParts(b, ts);
    StackStep(ts, k);
    WalkTowards(ts, k + 1, depth, i);
    ghost var w := ScanNode(ts, k + 1, depth, true);
    k' := w.k;
    offset', depth' := NextNode(b, offset, depth, true, ts, k);
  }

  /** `fdt_supernode_atdepth_offset` of a node inside the root, in a blob that passes the probe: the ancestor, or the
      node itself, at that depth. */
  method SupernodeAtDepth(b: Blob, node: int, supernodedepth: int, ghost ts: seq<Token>, ghost i: nat)
    returns (result: int, nodedepth: int)
    requires Streams(b, ts) && InRoot(ts, i) && node == Off(ts, i)
    ensures RoProbe(b) < 0 ==> result == RoProbe(b)
    ensures RoProbe(b) >= 0 && supernodedepth >= 0 ==> nodedepth == |Stack(ts, i)|
    ensures RoProbe(b) >= 0 ==>
      result == if 0 <= supernodedepth <= |Stack(ts, i)| && Stack(ts, i + 1)[supernodedepth] <= |ts|
                then Off(ts, Stack(ts, i + 1)[supernodedepth]) else -FDT_ERR_NOTFOUND
  {
    hide Streams, Stack, LenOf, Off, RoProbe;
    result, nodedepth := RoProbe(b), 0;
    if result < 0 {
      return;
    }
    if supernodedepth < 0 {
      return -FDT_ERR_NOTFOUND, nodedepth;
    }
    var supernode, offset, depth := -FDT_ERR_INTERNAL, 0, 0;
    ghost var k := 0;
    RootFirst(ts);
    while true
      invariant k <= i && ts[k].BeginNode? && offset == Off(ts, k) && depth == |Stack(ts, k)|
      invariant supernodedepth < |Stack(ts, k)| ==>
        Stack(ts, k)[supernodedepth] <= |ts| && supernode == Off(ts, Stack(ts, k)[supernodedepth])
      decreases i - k
    {
      StackStep(ts, k);
      if depth == supernodedepth {
        supernode := offset;
      }
      SameOffset(ts, k, i);
      if offset == node {
        nodedepth := depth;
        if supernodedepth > depth {
          return -FDT_ERR_NOTFOUND, nodedepth;
        }
        return supernode, nodedepth;
      }
      offset, depth, k := StepTowards(b, offset, depth, ts, k, i);
    }
  }

  lemma RootFirst(ts: seq<Token>)
    ensures Off(ts, 0) == 0 && Stack(ts, 0) == []
  {
    assert ts[..0] == [];
  }

  lemma SameOffset(ts: seq<Token>, k: nat, i: nat)
    requires k <= i <= |ts|
    ensures Off(ts, k) == Off(ts, i) <==> k == i
  {
    hide LenOf, Off;
    if k < i { OffGrows(ts, k, i); }
  }

  /** `fdt_node_depth`. */
  method NodeDepth(b: Blob, node: int, ghost ts: seq<Token>, ghost i: nat) returns (result: int)
    requires Streams(b, ts) && InRoot(ts, i) && node == Off(ts, i)
    ensures result == if RoProbe(b) < 0 then RoProbe(b) else |Stack(ts, i)|
  {
    hide Streams, Stack, LenOf, Off, RoProbe;
    var err, nodedepth := SupernodeAtDepth(b, node, 0, ts, i);
    RootFirst(ts);
    StackStep(ts, i);
    assert Stack(ts, i + 1)[|Stack(ts, i)|] == i;
    RootStays(ts, i + 1);
    if err != 0 {
      return if err < 0 then err else -FDT_ERR_INTERNAL;
    }
    return nodedepth;
  }

  /** The outermost open node is the root. */
  lemma {:induction false} RootStays(ts: seq<Token>, j: nat)
    requires 1 <= j <= |ts| && ts[0].BeginNode? && forall m :: 1 <= m <= j ==> Stack(ts, m) != []
    ensures Stack(ts, j)[0] == 0
    decreases j
  {
    hide Stack;
    RootFirst(ts);
    StackStep(ts, j - 1);
    if j > 1 { RootStays(ts, j - 1); }
  }

  /** `fdt_parent_offset`: the innermost node around a node; the root has none. */
  method ParentOffset(b: Blob, node: int, ghost ts: seq<Token>, ghost i: nat) returns (result: int)
    requires Streams(b, ts) && InRoot(ts, i) && node == Off(ts, i)
    ensures RoProbe(b) < 0 ==> result == RoProbe(b)
    ensures RoProbe(b) >= 0 && i == 0 ==> result == -FDT_ERR_NOTFOUND
    ensures RoProbe(b) >= 0 && i > 0 ==>
      && Stack(ts, i) != [] && Stack(ts, i)[|Stack(ts, i)| - 1] <= |ts|
      && result == Off(ts, Stack(ts, i)[|Stack(ts, i)| - 1])
  {
    hide Streams, Stack, LenOf, Off, RoProbe;
    RootFirst(ts);
    StackStep(ts, i);
    StackIsNodes(ts, i);
    var depth := NodeDepth(b, node, ts, i);
    if depth < 0 {
      return depth;
    }
    var nodedepth;
    result, nodedepth := SupernodeAtDepth(b, node, depth - 1, ts, i);
  }

  // ---------- fdt_get_path ----------

  function NameOf(ts: seq<Token>, k: nat): bytes {
    if k < |ts| && ts[k].BeginNode? then ts[k].name else []
  }

  /** The names of a chain of nodes, each with a slash after it. */
  function Join(ts: seq<Token>, c: seq<nat>): bytes {
    if c == [] then [] else Join(ts, c[..|c| - 1]) + NameOf(ts, c[|c| - 1]) + [SLASH]
  }

  /** The path of the node at token `i`; that of an unnamed root is "/". */
  function PathOf(ts: seq<Token>, i: nat): bytes
    requires i < |ts|
  {
    var s := Join(ts, Stack(ts, i + 1));
    if |s| > 1 then s[..|s| - 1] else s
  }

  /** The path of a node is that of its parent, unless that is an unnamed root, a slash, and its name. */
  lemma PathOfChild(ts: seq<Token>, i: nat)
    requires InRoot(ts, i) && i > 0
    ensures Stack(ts, i) != []
    ensures var p := Stack(ts, i)[|Stack(ts, i)| - 1];
      && p < i
      && PathOf(ts, i) ==
         (if |Stack(ts, i)| == 1 && NameOf(ts, p) == [] then [] else PathOf(ts, p)) + [SLASH] + ts[i].name
  {
    hide Stack, Join;
    var s := Stack(ts, i);
    var c := s[|s| - 1];
    ChainPrefix(ts, i, |s| - 1);
    StackIsNodes(ts, i);
    StackStep(ts, i);
    assert s[..|s| - 1 + 1] == s;
    JoinMore(ts, s, i);
    JoinEnds(ts, s);
    JoinSlash(ts, s);
    ChildPath(Join(ts, s), ts[i].name);
  }

  lemma JoinMore(ts: seq<Token>, c: seq<nat>, k: nat)
    ensures Join(ts, c + [k]) == Join(ts, c) + NameOf(ts, k) + [SLASH]
  {
    assert (c + [k])[..|c|] == c;
  }

  lemma ChildPath(x: bytes, name: bytes)
    requires x != [] && x[|x| - 1] == SLASH
    ensures var child := x + name + [SLASH];
      child[..|child| - 1] == (if |x| == 1 then [] else x[..|x| - 1]) + [SLASH] + name
  {
    assert x == x[..|x| - 1] + [SLASH];
    var child := x + name + [SLASH];
    assert child[..|child| - 1] == x + name;
  }

  /** Only an unnamed outermost node is written as a slash alone. */
  lemma JoinSlash(ts: seq<Token>, c: seq<nat>)
    requires c != []
    ensures |Join(ts, c)| == 1 <==> |c| == 1 && NameOf(ts, c[0]) == []
  {
    if |c| > 1 { assert Join(ts, c[..|c| - 1]) != []; } else { assert Join(ts, c[..0]) == []; }
  }

  /** The path of an unnamed root is a slash. */
  lemma PathOfRoot(ts: seq<Token>)
    requires ts != [] && ts[0] == BeginNode([])
    ensures PathOf(ts, 0) == [SLASH]
  {
    hide Stack;
    RootFirst(ts);
    StackStep(ts, 0);
    assert Stack(ts, 1) == [0];
    var c: seq<nat> := [0];
    assert c[..0] == [] && Join(ts, c[..0]) == [];
    assert Join(ts, c) == [SLASH];
  }

  predicate SlashFree(ts: seq<Token>, i: nat) {
    forall k :: 0 <= k <= i && k < |ts| && ts[k].BeginNode? ==> SLASH !in ts[k].name
  }

  lemma JoinStep(ts: seq<Token>, c: seq<nat>, n: nat)
    requires n < |c|
    ensures Join(ts, c[..n + 1]) == Join(ts, c[..n]) + NameOf(ts, c[n]) + [SLASH]
  {
    assert c[..n + 1][..n] == c[..n];
  }

  lemma JoinEnds(ts: seq<Token>, c: seq<nat>)
    ensures c != [] ==> Join(ts, c) != [] && Join(ts, c)[|Join(ts, c)| - 1] == SLASH
  {
  }

  lemma {:induction false} JoinGrows(ts: seq<Token>, c: seq<nat>, n: nat)
    requires n <= |c|
    ensures |Join(ts, c[..n])| <= |Join(ts, c)|
  {
    if n < |c| {
      JoinGrows(ts, c[..|c| - 1], n);
      assert c[..|c| - 1][..n] == c[..n];
    } else {
      assert c[..n] == c;
    }
  }

  /** The inner loop of `fdt_get_path`: steps back over the last name. */
  method PopName(buf: array<byte>, start: nat, ghost x: bytes, ghost n: bytes) returns (p: nat)
    requires start <= buf.Length && buf[..start] == x + n + [SLASH]
    requires x != [] && x[|x| - 1] == SLASH && SLASH !in n
    ensures p == |x|
  {
    assert forall k :: 0 <= k < start ==> buf[k] == (x + n + [SLASH])[k];
    p := start - 1;
    while buf[p - 1] != SLASH
      invariant |x| <= p < start
      decreases p
    {
      p := p - 1;
    }
    assert buf[p - 1] == (x + n + [SLASH])[p - 1];
  }

  /** What the buffer holds while the walk is under way: the names of as many of the open nodes as fit. */
  ghost predicate Filled(s: bytes, ts: seq<Token>, c: seq<nat>, pdepth: int, p: int) {
    Holds(s, ts, c, pdepth, p) && (pdepth < |c| ==> |Join(ts, c[..pdepth + 1])| > |s|)
  }

  ghost predicate Holds(s: bytes, ts: seq<Token>, c: seq<nat>, pdepth: int, p: int) {
    0 <= pdepth <= |c| && 0 <= p <= |s| && s[..p] == Join(ts, c[..pdepth])
  }

  /** `fdt_get_path`. */
  method GetPath(b: Blob, node: int, buf: array<byte>, ghost ts: seq<Token>, ghost i: nat) returns (err: int)
    requires Streams(b, ts) && InRoot(ts, i) && node == Off(ts, i) && SlashFree(ts, i)
    modifies buf
    ensures err == if RoProbe(b) < 0 then RoProbe(b)
                   else if buf.Length >= 2 && |PathOf(ts, i)| + 1 <= buf.Length then 0 else -FDT_ERR_NOSPACE
    ensures err == 0 ==> buf[..|PathOf(ts, i)|] == PathOf(ts, i) && buf[|PathOf(ts, i)|] == 0
  {
    hide Streams, Stack, LenOf, Off, Join, Filled, PathOf, RoProbe;
    err := RoProbe(b);
    if err < 0 {
      return;
    }
    if buf.Length < 2 {
      return -FDT_ERR_NOSPACE;
    }
    var pdepth, p, offset, depth := 0, 0, 0, 0;
    ghost var k, c := 0, [];
    RootFirst(ts);
    NothingFilled(buf[..], ts);
    while true
      invariant k <= i && ts[k].BeginNode? && offset == Off(ts, k) && depth == |Stack(ts, k)| && (k > 0 ==> depth >= 1)
      invariant Stack(ts, k) <= c && (forall m :: 0 <= m < |c| ==> c[m] <= i) && (k == 0 ==> c == [])
      invariant Filled(buf[..], ts, c, pdepth, p)
      decreases i - k
    {
      pdepth, p := PopNames(buf, pdepth, p, depth, ts, c, Stack(ts, k), i);
      pdepth, p := AddName(b, offset, buf, pdepth, p, depth, ts, Stack(ts, k), k);
      StackStep(ts, k);
      StackIsNodes(ts, k);
      c := Stack(ts, k + 1);
      SameOffset(ts, k, i);
      if offset == node {
        PathLength(buf[..], ts, i, c, pdepth, p);
        if pdepth < depth + 1 {
          return -FDT_ERR_NOSPACE;
        }
        if p > 1 {
          p := p - 1;
        }
        buf[p] := 0;
        return 0;
      }
      offset, depth, k := StepTowards(b, offset, depth, ts, k, i);
    }
  }

  lemma NothingFilled(s: bytes, ts: seq<Token>)
    ensures Filled(s, ts, [], 0, 0)
  {
  }

  /** The loop that takes names out of the buffer until no more are left than the node has nodes around it. */
  method PopNames(buf: array<byte>, pdepth: int, p: int, depth: int, ghost ts: seq<Token>, ghost c: seq<nat>,
      ghost c': seq<nat>, ghost i: nat)
    returns (pdepth': int, p': int)
    requires Filled(buf[..], ts, c, pdepth, p) && c' <= c && depth == |c'| && (c != [] ==> depth >= 1)
    requires SlashFree(ts, i) && forall m :: 0 <= m < |c| ==> c[m] <= i
    ensures Filled(buf[..], ts, c', pdepth', p') && pdepth' <= depth
  {
    hide Join;
    pdepth', p' := pdepth, p;
    while pdepth' > depth
      invariant Holds(buf[..], ts, c, pdepth', p') && (pdepth' < depth ==> Filled(buf[..], ts, c, pdepth', p'))
      decreases pdepth'
    {
      JoinStep(ts, c, pdepth' - 1);
      JoinEnds(ts, c[..pdepth' - 1]);
      p' := PopName(buf, p', Join(ts, c[..pdepth' - 1]), NameOf(ts, c[pdepth' - 1]));
      pdepth' := pdepth' - 1;
    }
    FilledPrefix(buf[..], ts, c, c', pdepth', p');
  }

  /** The step that adds the name of the node at token `k`, if the names around it are there and it fits. */
  method AddName(b: Blob, offset: int, buf: array<byte>, pdepth: int, p: int, depth: int, ghost ts: seq<Token>,
      ghost c: seq<nat>, ghost k: nat)
    returns (pdepth': int, p': int)
    requires RoProbe(b) >= 0 && Streams(b, ts) && k < |ts| && ts[k].BeginNode? && offset == Off(ts, k) && depth == |c|
    requires Filled(buf[..], ts, c, pdepth, p)
    modifies buf
    ensures Filled(buf[..], ts, c + [k], pdepth', p')
  {
    hide Streams, LenOf, Off, Join, ReadTag, TokLen;
    if pdepth >= depth {
      StreamsParts(b, ts);
      TokenHere(b, ts, k);
      var name := NodeName(b, offset);
      PushFits(buf[..], ts, c, k, p);
      if p + |name| + 1 <= buf.Length {
        p' := PushName(buf, p, name);
        return pdepth + 1, p';
      }
      return pdepth, p;
    }
    StillFilled(buf[..], ts, c, k, pdepth, p);
    return pdepth, p;
  }

  method PushName(buf: array<byte>, p: nat, name: bytes) returns (p': nat)
    requires p + |name| + 1 <= buf.Length
    modifies buf
    ensures p' == p + |name| + 1 && buf[..p'] == old(buf[..p]) + name + [SLASH]
  {
    Memcpy(buf, p, name);
    buf[p + |name|] := SLASH;
    return p + |name| + 1;
  }

  /** The buffer seen from a node further out. */
  lemma FilledPrefix(s: bytes, ts: seq<Token>, c: seq<nat>, c': seq<nat>, pdepth: int, p: int)
    requires Holds(s, ts, c, pdepth, p) && c' <= c && pdepth <= |c'|
    requires pdepth < |c'| ==> Filled(s, ts, c, pdepth, p)
    ensures Filled(s, ts, c', pdepth, p)
  {
    hide Join;
    assert c'[..pdepth] == c[..pdepth];
    if pdepth < |c'| { assert c'[..pdepth + 1] == c[..pdepth + 1]; }
  }

  lemma StillFilled(s: bytes, ts: seq<Token>, c: seq<nat>, k: nat, pdepth: int, p: int)
    requires Filled(s, ts, c, pdepth, p) && pdepth < |c|
    ensures Filled(s, ts, c + [k], pdepth, p)
  {
    hide Join;
    assert (c + [k])[..pdepth] == c[..pdepth] && (c + [k])[..pdepth + 1] == c[..pdepth + 1];
  }

  /** One more name fits, or it does not. */
  lemma PushFits(s: bytes, ts: seq<Token>, c: seq<nat>, k: nat, p: int)
    requires Filled(s, ts, c, |c|, p)
    ensures var all := Join(ts, c) + NameOf(ts, k) + [SLASH];
      && s[..p] == Join(ts, c) && Join(ts, c + [k]) == all
      && (c + [k])[..|c|] == c && (c + [k])[..|c| + 1] == c + [k]
      && (p + |NameOf(ts, k)| + 1 > |s| ==> Filled(s, ts, c + [k], |c|, p))
  {
    assert c[..|c|] == c && (c + [k])[..|c|] == c && (c + [k])[..|c| + 1] == c + [k];
    JoinStep(ts, c + [k], |c|);
  }

  /** The path fits exactly when every name on the way did. */
  lemma PathLength(s: bytes, ts: seq<Token>, i: nat, c: seq<nat>, pdepth: int, p: int)
    requires i < |ts| && c == Stack(ts, i + 1) && c != [] && |s| >= 2 && Filled(s, ts, c, pdepth, p)
    ensures 0 <= p <= |s| && pdepth <= |c|
    ensures pdepth == |c| <==> |PathOf(ts, i)| + 1 <= |s|
    ensures pdepth == |c| ==> |PathOf(ts, i)| == (if p > 1 then p - 1 else p) && s[..|PathOf(ts, i)|] == PathOf(ts, i)
  {
    hide Stack;
    JoinEnds(ts, c);
    if pdepth < |c| {
      JoinGrows(ts, c, pdepth + 1);
    } else {
      assert c[..pdepth] == c;
      assert s[..p][..|PathOf(ts, i)|] == s[..|PathOf(ts, i)|];
    }
  }
}
