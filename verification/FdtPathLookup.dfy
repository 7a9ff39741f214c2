/** Looking a node up by its path, and getting back to the node from the path that was made for it. */
module FdtPathLookup {
  import opened Words
  import opened FdtTokens
  import opened FdtBlob
  import opened FdtCheck
  import opened FdtRead
  import opened FdtLookup
  import opened FdtSplice
  import opened FdtPaths

  function NextSlash(path: bytes): (q: nat)
    ensures q <= |path| && SLASH !in path[..q] && (q < |path| ==> path[q] == SLASH)
  {
    if path == [] || path[0] == SLASH then 0 else NextSlash(path[1..]) + 1
  }

  /** The node that a path leads to from the node at token `i`. */
  function Resolve(ts: seq<Token>, i: nat, path: bytes): Option<nat>
    decreases |path|
  {
    if path == [] then Some(i)
    else if path[0] == SLASH then Resolve(ts, i, path[1..])
    else
      var q := NextSlash(path);
      match FindSub(ts, i + 1, 0, path[..q])
      case None => None
      case Some(k) => Resolve(ts, k, path[q..])
  }

  lemma {:induction false} FindSubIsNode(ts: seq<Token>, j: nat, d: nat, s: bytes)
    ensures match FindSub(ts, j, d, s) case Some(k) => j <= k < |ts| && ts[k].BeginNode? case None => true
    decreases |ts| - j
  {
    if j < |ts| && !ts[j].End? {
      if ts[j].BeginNode? { FindSubIsNode(ts, j + 1, d + 1, s); }
      else if !ts[j].EndNode? { FindSubIsNode(ts, j + 1, d, s); }
      else if d > 0 { FindSubIsNode(ts, j + 1, d - 1, s); }
    }
  }

  lemma NextSlashAt(path: bytes, p: nat, q: nat)
    requires p <= q <= |path| && SLASH !in path[p..q] && (q == |path| || path[q] == SLASH)
    ensures NextSlash(path[p..]) == q - p
  {
    var w := path[p..];
    assert w[..q - p] == path[p..q] && (q < |path| ==> w[q - p] == path[q]);
  }

  /** `fdt_path_offset_namelen` of an absolute path, in a blob that passes the probe. */
  method PathOffset(b: Blob, path: bytes, ghost ts: seq<Token>) returns (offset: int)
    requires Streams(b, ts) && ts[0].BeginNode? && (path == [] || path[0] == SLASH)
    ensures RoProbe(b) < 0 ==> offset == RoProbe(b)
    ensures RoProbe(b) >= 0 && path == [] ==> offset == -FDT_ERR_BADPATH
    ensures RoProbe(b) >= 0 && path != [] ==>
      match Resolve(ts, 0, path)
      case Some(k) => k < |ts| && offset == Off(ts, k)
      case None => offset == -FDT_ERR_NOTFOUND
  {
    hide Streams, LenOf, Off, FindSub, NextSlash, Stack, Resolve, RoProbe;
    offset := RoProbe(b);
    if offset < 0 {
      return;
    }
    if |path| <= 0 {
      return -FDT_ERR_BADPATH;
    }
    var p := 0;
    offset := 0;
    ghost var k: nat := 0;
    StreamsParts(b, ts);
    RootFirst(ts);
    assert path[0..] == path;
    while p < |path|
      invariant p <= |path| && k < |ts| && ts[k].BeginNode? && offset == Off(ts, k)
      invariant Resolve(ts, k, path[p..]) == Resolve(ts, 0, path)
    {
      p := SkipSlashes(path, p, ts, k);
      if p == |path| {
        ResolveNothing(ts, k, path[p..]);
        return offset;
      }
      var q := NameEnd(path, p);
      ResolveName(ts, k, path, p, q);
      FindSubIsNode(ts, k + 1, 0, path[p..q]);
      offset := SubnodeOffset(b, offset, path[p..q], ts, k);
      if offset < 0 {
        return;
      }
      k := FindSub(ts, k + 1, 0, path[p..q]).value;
      p := q;
    }
    ResolveNothing(ts, k, path[p..]);
  }

  method SkipSlashes(path: bytes, start: nat, ghost ts: seq<Token>, ghost k: nat) returns (p: nat)
    requires start < |path|
    ensures start <= p <= |path| && (p < |path| ==> path[p] != SLASH)
    ensures Resolve(ts, k, path[p..]) == Resolve(ts, k, path[start..])
  {
    hide FindSub, NextSlash;
    p := start;
    while p < |path| && path[p] == SLASH
      invariant start <= p <= |path| && Resolve(ts, k, path[p..]) == Resolve(ts, k, path[start..])
    {
      assert path[p..][1..] == path[p + 1..];
      p := p + 1;
    }
  }

  method NameEnd(path: bytes, p: nat) returns (q: nat)
    requires p < |path|
    ensures p <= q <= |path| && NextSlash(path[p..]) == q - p
  {
    q := p;
    while q < |path| && path[q] != SLASH
      invariant p <= q <= |path| && SLASH !in path[p..q]
    {
      q := q + 1;
    }
    NextSlashAt(path, p, q);
  }

  lemma ResolveNothing(ts: seq<Token>, k: nat, path: bytes)
    requires path == []
    ensures Resolve(ts, k, path) == Some(k)
  {
  }

  lemma ResolveName(ts: seq<Token>, k: nat, path: bytes, p: nat, q: nat)
    requires p <= q <= |path| && p < |path| && path[p] != SLASH && NextSlash(path[p..]) == q - p
    ensures q > p
    ensures Resolve(ts, k, path[p..]) ==
      match FindSub(ts, k + 1, 0, path[p..q]) case None => None case Some(n) => Resolve(ts, n, path[q..])
  {
    hide FindSub;
    assert path[p..][..q - p] == path[p..q] && path[p..][q - p..] == path[q..];
  }

  // ---------- what a path means ----------

  /** Further slashes in front of a name are ignored. */
  lemma SlashIgnored(ts: seq<Token>, k: nat, path: bytes)
    ensures Resolve(ts, k, [SLASH] + path) == Resolve(ts, k, path)
  {
    assert ([SLASH] + path)[1..] == path;
  }

  /** So is one at the end. */
  lemma {:induction false} TrailingSlashIgnored(ts: seq<Token>, k: nat, path: bytes)
    ensures Resolve(ts, k, path + [SLASH]) == Resolve(ts, k, path)
    decreases |path|
  {
    hide FindSub, NextSlash;
    var w := path + [SLASH];
    if path == [] {
      assert w == [SLASH] + [];
      SlashIgnored(ts, k, []);
    } else if path[0] == SLASH {
      assert w[1..] == path[1..] + [SLASH];
      TrailingSlashIgnored(ts, k, path[1..]);
    } else {
      NameFirst(path);
      var q := NextSlash(path);
      NextSlashAt(w, 0, q);
      assert w[0..] == w && w[..q] == path[..q] && w[q..] == path[q..] + [SLASH];
      var n := FindSub(ts, k + 1, 0, path[..q]);
      if n.Some? { TrailingSlashIgnored(ts, n.value, path[q..]); }
    }
  }

  lemma NameFirst(path: bytes)
    requires path != [] && path[0] != SLASH
    ensures 1 <= NextSlash(path) <= |path| && SLASH !in path[0..NextSlash(path)]
    ensures NextSlash(path) < |path| ==> path[NextSlash(path)] == SLASH
  {
    assert path[0..NextSlash(path)] == path[..NextSlash(path)];
  }

  /** A name leads to the subnode that the lookup finds, and the rest of the path goes on from there. */
  lemma NameLeadsOn(ts: seq<Token>, k: nat, name: bytes, rest: bytes)
    requires name != [] && SLASH !in name && (rest == [] || rest[0] == SLASH)
    ensures Resolve(ts, k, name + rest) ==
      match FindSub(ts, k + 1, 0, name) case None => None case Some(n) => Resolve(ts, n, rest)
  {
    hide FindSub, NextSlash;
    var path := name + rest;
    assert path[0..] == path && path[0..|name|] == name && path[|name|..] == rest;
    NextSlashAt(path, 0, |name|);
    ResolveName(ts, k, path, 0, |name|);
  }

  // ---------- from the path back to the node ----------

  /** No earlier sibling has a name for which this node's name could be taken. */
  ghost predicate Unambiguous(ts: seq<Token>, k: nat) {
    k < |ts| && ts[k].BeginNode?
    && forall k' :: 0 <= k' < k && ts[k'].BeginNode? && Stack(ts, k') == Stack(ts, k) ==>
      !NameEq(ts[k'].name, ts[k].name)
  }

  /** A node stays open from its first token until it is closed for good. */
  lemma {:induction false} OpenUntil(ts: seq<Token>, m: nat, j: nat, t: nat)
    requires m < t <= j <= |ts| && ts[m].BeginNode? && Stack(ts, m + 1) <= Stack(ts, j)
    ensures Stack(ts, m + 1) <= Stack(ts, t)
    decreases j
  {
    hide Stack;
    if t < j {
      StackStep(ts, m);
      StackStep(ts, j - 1);
      StackIsNodes(ts, j - 1);
      assert Stack(ts, m + 1)[|Stack(ts, m)|] == m;
      OpenUntil(ts, m, j - 1, t);
    }
  }

  /** The lookup in the parent finds the node. */
  lemma {:induction false} FindsChild(ts: seq<Token>, j: nat, d: nat, k: nat, parent: nat)
    requires parent < j <= k < |ts| && ts[parent].BeginNode? && Unambiguous(ts, k)
    requires Stack(ts, k) == Stack(ts, parent + 1) && |Stack(ts, j)| == |Stack(ts, k)| + d
    requires forall t :: j <= t < k ==> !ts[t].End?
    ensures FindSub(ts, j, d, ts[k].name) == Some(k)
    decreases k - j
  {
    hide Stack, NameEq;
    OpenUntil(ts, parent, k, j);
    StackStep(ts, parent);
    StackStep(ts, j);
    if j == k {
      SelfEq(ts[k].name);
    } else {
      OpenUntil(ts, parent, k, j + 1);
      assert |Stack(ts, k)| <= |Stack(ts, j + 1)|;
      if d == 0 { assert Stack(ts, j) == Stack(ts, k); }
      FindsChild(ts, j + 1, if ts[j].BeginNode? then d + 1 else if ts[j].EndNode? then d - 1 else d, k, parent);
    }
  }

  /** The part of a path below the node `c[m]`. */
  function PathBelow(ts: seq<Token>, c: seq<nat>, m: nat): bytes
    decreases |c| - m
  {
    if m + 1 >= |c| then [] else [SLASH] + NameOf(ts, c[m + 1]) + PathBelow(ts, c, m + 1)
  }

  lemma {:induction false} JoinBelow(ts: seq<Token>, c: seq<nat>, m: nat)
    requires m < |c|
    ensures var x := Join(ts, c[..m + 1]);
      x != [] && Join(ts, c) == x[..|x| - 1] + PathBelow(ts, c, m) + [SLASH]
    decreases |c| - m
  {
    hide Join;
    var x := Join(ts, c[..m + 1]);
    JoinEnds(ts, c[..m + 1]);
    if m + 1 == |c| {
      assert c[..m + 1] == c;
      assert x == x[..|x| - 1] + [] + [SLASH];
    } else {
      JoinBelow(ts, c, m + 1);
      JoinStep(ts, c, m + 1);
      Regroup(x, NameOf(ts, c[m + 1]), PathBelow(ts, c, m + 1));
    }
  }

  lemma Regroup(x: bytes, n: bytes, rest: bytes)
    requires x != [] && x[|x| - 1] == SLASH
    ensures var y := x + n + [SLASH];
      y[..|y| - 1] + rest + [SLASH] == x[..|x| - 1] + ([SLASH] + n + rest) + [SLASH]
  {
    var y := x + n + [SLASH];
    assert y[..|y| - 1] == x + n;
    assert x == x[..|x| - 1] + [SLASH];
  }

  /** Names that a path can be made of. */
  ghost predicate GoodNames(ts: seq<Token>, c: seq<nat>) {
    forall m :: 1 <= m < |c| ==> c[m] < |ts| && ts[c[m]].BeginNode? && ts[c[m]].name != [] && SLASH !in ts[c[m]].name
  }

  ghost predicate AllUnambiguous(ts: seq<Token>, c: seq<nat>) {
    forall m :: 1 <= m < |c| ==> Unambiguous(ts, c[m])
  }

  lemma {:induction false} ResolveBelow(ts: seq<Token>, i: nat, c: seq<nat>, m: nat)
    requires i < |ts| && ts[i].BeginNode? && c == Stack(ts, i + 1) && m < |c| && GoodNames(ts, c)
    requires AllUnambiguous(ts, c) && forall t :: 0 <= t < i ==> !ts[t].End?
    ensures Resolve(ts, c[m], PathBelow(ts, c, m)) == Some(i)
    decreases |c| - m
  {
    hide Stack, NextSlash, Unambiguous, FindSub;
    StackStep(ts, i);
    if m + 1 < |c| {
      var name, rest := NameOf(ts, c[m + 1]), PathBelow(ts, c, m + 1);
      var path := PathBelow(ts, c, m);
      assert path[1..] == name + rest && path[0] == SLASH;
      NextSlashAt(name + rest, 0, |name|);
      assert (name + rest)[0..] == name + rest && (name + rest)[0..|name|] == name;
      assert (name + rest)[..|name|] == name && (name + rest)[|name|..] == rest;
      StepDown(ts, i, c, m);
      ResolveBelow(ts, i, c, m + 1);
    }
  }

  lemma StepDown(ts: seq<Token>, i: nat, c: seq<nat>, m: nat)
    requires i < |ts| && ts[i].BeginNode? && c == Stack(ts, i + 1) && m + 1 < |c|
    requires Unambiguous(ts, c[m + 1]) && forall t :: 0 <= t < i ==> !ts[t].End?
    ensures FindSub(ts, c[m] + 1, 0, NameOf(ts, c[m + 1])) == Some(c[m + 1])
  {
    hide Stack, FindSub;
    StackIsNodes(ts, i + 1);
    ChainPrefix(ts, i + 1, m);
    ChainPrefix(ts, i + 1, m + 1);
    var parent, k := c[m], c[m + 1];
    StackStep(ts, k);
    assert Stack(ts, k) == c[..m + 2][..m + 1] == c[..m + 1] == Stack(ts, parent + 1);
    StackIsNodes(ts, k);
    assert Stack(ts, k)[m] == parent;
    FindsChild(ts, parent + 1, 0, k, parent);
  }

  /** `fdt_path_offset` of the path that `fdt_get_path` writes for a node is that node, when the root has no name, the
      other names are not empty and have no slash, and no earlier sibling of a node on the way matches its name. */
  lemma PathRoundTrip(b: Blob, ts: seq<Token>, i: nat)
    requires Streams(b, ts) && InRoot(ts, i) && ts[0].name == [] && GoodNames(ts, Stack(ts, i + 1))
    requires AllUnambiguous(ts, Stack(ts, i + 1))
    ensures Resolve(ts, 0, PathOf(ts, i)) == Some(i)
  {
    hide Streams, Stack, Unambiguous, GoodNames, Join, PathBelow;
    StreamsParts(b, ts);
    var c := Stack(ts, i + 1);
    StackStep(ts, i);
    assert c[|c| - 1] == i;
    RootStays(ts, i + 1);
    JoinBelow(ts, c, 0);
    RootJoined(ts, c);
    ResolveBelow(ts, i, c, 0);
    var s := Join(ts, c);
    assert s == PathBelow(ts, c, 0) + [SLASH];
    if |s| > 1 {
      assert s[..|s| - 1] == PathBelow(ts, c, 0);
    } else {
      assert s == [SLASH] && s[1..] == [] && PathBelow(ts, c, 0) == [];
    }
  }

  lemma RootJoined(ts: seq<Token>, c: seq<nat>)
    requires c != [] && c[0] == 0 && NameOf(ts, 0) == []
    ensures Join(ts, c[..1]) == [SLASH]
  {
    assert c[..1][..0] == [];
  }
}
