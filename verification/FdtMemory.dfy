/** The byte loops of the kernel's memory routines, on one buffer. */
module FdtMemory {
  import opened Words
  import opened FdtTokens

  /** `s` with `d` written at `pos`. */
  function Splat(s: bytes, pos: nat, d: bytes): (r: bytes)
    requires pos + |d| <= |s|
    ensures |r| == |s|
  {
    s[..pos] + d + s[pos + |d|..]
  }

  /** A write shows exactly where it was made. */
  lemma SplatSlice(s: bytes, pos: nat, d: bytes, from: nat, to: nat)
    requires pos + |d| <= |s| && from <= to <= |s|
    ensures to <= pos || pos + |d| <= from ==> Splat(s, pos, d)[from..to] == s[from..to]
    ensures Splat(s, pos, d)[pos..pos + |d|] == d
  {
    var r := Splat(s, pos, d);
    if to <= pos {
      assert r[from..to] == s[from..to];
    } else if pos + |d| <= from {
      forall i | from <= i < to ensures r[i] == s[i] { }
      assert r[from..to] == s[from..to];
    }
  }

  /** Equal prefixes have equal slices, and so have equal suffixes. */
  lemma SliceOfPrefix(s: bytes, s': bytes, p: nat, from: nat, to: nat)
    requires from <= to <= p <= |s| && p <= |s'| && s'[..p] == s[..p]
    ensures s'[from..to] == s[from..to]
  {
    forall k | from <= k < to ensures s'[k] == s[k] {
      assert s'[k] == s'[..p][k] && s[k] == s[..p][k];
    }
  }

  lemma SliceOfSuffix(s: bytes, s': bytes, q: nat, from: nat, to: nat)
    requires q <= from <= to <= |s| && |s'| == |s| && s'[q..] == s[q..]
    ensures s'[from..to] == s[from..to]
  {
    forall k | from <= k < to ensures s'[k] == s[k] {
      assert s'[k] == s'[q..][k - q] && s[k] == s[q..][k - q];
    }
  }

  lemma SliceOfSlice(s: bytes, a: nat, b: nat, x: nat, y: nat)
    requires a <= b <= |s| && x <= y <= b - a
    ensures s[a..b][x..y] == s[a + x..a + y]
  {
    forall i | 0 <= i < y - x ensures s[a..b][x..y][i] == s[a + x..a + y][i] { assert s[a..b][x + i] == s[a + x + i]; }
  }

  /** One more byte written after, or before, a block. */
  lemma SplatExtend(s: bytes, pos: nat, d: bytes, x: byte)
    requires pos + |d| < |s|
    ensures Splat(s, pos, d)[pos + |d| := x] == Splat(s, pos, d + [x])
    ensures Splat(s, pos + 1, d)[pos := x] == Splat(s, pos, [x] + d)
    ensures forall k :: 0 <= k < |s| && (k < pos || pos + |d| <= k) ==> Splat(s, pos, d)[k] == s[k]
  {
  }

  lemma SplatBelow(s: bytes, pos: nat, d: bytes, k: nat)
    requires pos + |d| <= |s| && k < pos
    ensures Splat(s, pos, d)[k] == s[k]
  {
  }

  lemma SplatNothing(s: bytes, pos: nat)
    requires pos <= |s|
    ensures Splat(s, pos, []) == s
  {
  }

  /** One step of copying upwards to a lower place: the byte read has not been overwritten yet. */
  lemma StepUp(s: bytes, t: bytes, dst: nat, src: nat, i: nat)
    requires dst < src && src + i < |s| && t == Splat(s, dst, s[src..src + i])
    ensures t[src + i] == s[src + i] && t[dst + i := s[src + i]] == Splat(s, dst, s[src..src + i + 1])
  {
    hide Splat;
    SplatExtend(s, dst, s[src..src + i], s[src + i]);
    assert s[src..src + i + 1] == s[src..src + i] + [s[src + i]];
  }

  /** One step of copying downwards to a place that is not lower. */
  lemma StepDown(s: bytes, t: bytes, dst: nat, src: nat, i: nat, n: nat)
    requires src <= dst && 0 < i <= n && dst + n <= |s| && t == Splat(s, dst + i, s[src + i..src + n])
    ensures t[src + i - 1] == s[src + i - 1]
    ensures t[dst + i - 1 := s[src + i - 1]] == Splat(s, dst + i - 1, s[src + i - 1..src + n])
  {
    hide Splat;
    ghost var d := s[src + i..src + n];
    SplatBelow(s, dst + i, d, src + i - 1);
    SplatExtend(s, dst + i - 1, d, s[src + i - 1]);
    assert s[src + i - 1..src + n] == [s[src + i - 1]] + d;
  }

  /** `memcpy` from another object. */
  method Memcpy(a: array<byte>, pos: nat, d: bytes)
    requires pos + |d| <= a.Length
    modifies a
    ensures a[..] == Splat(old(a[..]), pos, d)
  {
    hide Splat;
    SplatNothing(a[..], pos);
    for i := 0 to |d|
      invariant a[..] == Splat(old(a[..]), pos, d[..i])
    {
      SplatExtend(old(a[..]), pos, d[..i], d[i]);
      a[pos + i] := d[i];
      assert d[..i + 1] == d[..i] + [d[i]];
    }
    assert d[..|d|] == d;
  }

  /** `memset` of a whole buffer to zero. */
  method Clear(a: array<byte>)
    modifies a
    ensures forall i :: 0 <= i < a.Length ==> a[i] == 0
  {
    for i := 0 to a.Length
      invariant forall j :: 0 <= j < i ==> a[j] == 0
    {
      a[i] := 0;
    }
  }

  /** `memmove` within one buffer: upwards when the destination lies below the source, downwards
      otherwise, so that an overlap never destroys a byte before it is copied. */
  method Memmove(a: array<byte>, dst: nat, src: nat, n: nat)
    requires dst + n <= a.Length && src + n <= a.Length
    modifies a
    ensures a[..] == Splat(old(a[..]), dst, old(a[..])[src..src + n])
  {
    hide Splat;
    ghost var s := a[..];
    SplatNothing(s, dst);
    SplatNothing(s, dst + n);
    assert s[src..src + 0] == [] && s[src + n..src + n] == [];
    if dst < src {
      for i := 0 to n
        invariant a[..] == Splat(s, dst, s[src..src + i])
      {
        StepUp(s, a[..], dst, src, i);
        a[dst + i] := a[src + i];
      }
    } else {
      var i := n;
      while i != 0
        invariant 0 <= i <= n
        invariant a[..] == Splat(s, dst + i, s[src + i..src + n])
      {
        StepDown(s, a[..], dst, src, i, n);
        a[dst + (i - 1)] := a[src + (i - 1)];
        i := i - 1;
      }
    }
  }
}
