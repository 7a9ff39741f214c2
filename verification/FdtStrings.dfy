/** The strings block: NUL-terminated property names, shared by offset. */
module FdtStrings {
  import opened Words
  import opened FdtTokens

  /** The string at offset `k` of a strings block, up to its NUL; `None` outside the block or without a NUL. */
  function StringAt(z: bytes, k: nat): Option<bytes> {
    if k >= |z| then None else
    var e := FindNul(z, k);
    if e == |z| then None else Some(z[k..e])
  }

  /** The test of `fdt_find_string_len_` at position `p`. */
  predicate Matches(z: bytes, p: nat, s: bytes) {
    p + |s| < |z| && z[p..p + |s|] == s && z[p + |s|] == 0
  }

  /** Some place of the block can be shared by the name. */
  ghost predicate Shared(z: bytes, s: bytes) {
    exists p: nat :: Matches(z, p, s)
  }

  /** For a name without NUL the test holds exactly where the name is the string that starts there, so
      the tail of a longer name is found too. */
  lemma MatchesIsStringAt(z: bytes, p: nat, s: bytes)
    requires NoNul(s)
    ensures Matches(z, p, s) <==> StringAt(z, p) == Some(s)
  {
    if Matches(z, p, s) {
      forall j | p <= j < p + |s| ensures z[j] != 0 { assert z[j] == z[p..p + |s|][j - p]; }
      FindNulUnique(z, p, p + |s|);
    }
  }

  /** `fdt_find_string_len_`: the first place where the name can be shared. */
  method FindString(z: bytes, s: bytes) returns (found: bool, p: nat)
    ensures found ==> Matches(z, p, s) && forall q: nat :: q < p ==> !Matches(z, q, s)
    ensures found <==> Shared(z, s)
  {
    var last := |z| - (|s| + 1);
    p := 0;
    while p <= last
      invariant 0 <= p
      invariant forall q: nat :: q < p ==> !Matches(z, q, s)
    {
      if z[p..p + |s|] == s && z[p + |s|] == 0 {
        return true, p;
      }
      p := p + 1;
    }
    return false, 0;
  }

  /** Strings stay where they are when the block grows at its end ... */
  lemma StringAtAppend(z: bytes, more: bytes, k: nat)
    requires StringAt(z, k).Some?
    ensures StringAt(z + more, k) == StringAt(z, k)
  {
    var e := FindNul(z, k);
    var w := z + more;
    assert w[e] == 0 && forall j :: k <= j < e ==> w[j] != 0;
    FindNulUnique(w, k, e);
    assert w[k..e] == z[k..e];
  }

  /** ... and move with the block when it grows in front. */
  lemma StringAtPrepend(more: bytes, z: bytes, k: nat)
    requires StringAt(z, k).Some?
    ensures StringAt(more + z, |more| + k) == StringAt(z, k)
  {
    var e := FindNul(z, k);
    var w := more + z;
    assert w[|more| + e] == 0;
    forall j | |more| + k <= j < |more| + e ensures w[j] != 0 { assert w[j] == z[j - |more|]; }
    FindNulUnique(w, |more| + k, |more| + e);
    assert w[|more| + k..|more| + e] == z[k..e];
  }

  lemma StringAtNew(s: bytes, z: bytes)
    requires NoNul(s)
    ensures StringAt(s + [0] + z, 0) == Some(s)
  {
    var w := s + [0] + z;
    assert w[..|s|] == s;
    MatchesIsStringAt(w, 0, s);
  }

  lemma StringAtNewEnd(z: bytes, s: bytes)
    requires NoNul(s)
    ensures StringAt(z + s + [0], |z|) == Some(s)
  {
    StringAtNew(s, []);
    assert z + s + [0] == z + (s + [0] + []);
    StringAtPrepend(z, s + [0] + [], 0);
  }
}
