/**
 The structure block of a flattened device tree (Devicetree Specification v0.4, section 5.4):
 a stream of 4-byte-aligned tokens, decoded the way `fdt_next_tag` walks it.
 */
module FdtTokens {
  import opened Words

  type bytes = seq<byte>

  const TWO32: int := 0x1_0000_0000
  type u32 = x: int | 0 <= x < 0x1_0000_0000

  const FDT_BEGIN_NODE: nat := 1
  const FDT_END_NODE: nat := 2
  const FDT_PROP: nat := 3
  const FDT_NOP: nat := 4
  const FDT_END: nat := 9

  // The error codes, which are returned negated, and the versions.
  const FDT_ERR_NOTFOUND: int := 1
  const FDT_ERR_EXISTS: int := 2
  const FDT_ERR_NOSPACE: int := 3
  const FDT_ERR_BADOFFSET: int := 4
  const FDT_ERR_BADPATH: int := 5
  const FDT_ERR_BADPHANDLE: int := 6
  const FDT_ERR_BADSTATE: int := 7
  const FDT_ERR_TRUNCATED: int := 8
  const FDT_ERR_BADMAGIC: int := 9
  const FDT_ERR_BADVERSION: int := 10
  const FDT_ERR_BADSTRUCTURE: int := 11
  const FDT_ERR_BADLAYOUT: int := 12
  const FDT_ERR_INTERNAL: int := 13
  const FDT_ERR_BADOVERLAY: int := 16
  const FDT_ERR_NOPHANDLES: int := 17
  const FDT_ERR_BADFLAGS: int := 18
  const FDT_ERR_ALIGNMENT: int := 19

  const FDT_FIRST_SUPPORTED_VERSION: u32 := 2
  const FDT_LAST_SUPPORTED_VERSION: u32 := 17

  /** One token. A property names its name by an offset into the strings block. */
  datatype Token =
    | BeginNode(name: bytes)
    | EndNode
    | Prop(nameoff: u32, value: bytes)
    | Nop
    | End

  function TagOf(t: Token): nat {
    match t
    case BeginNode(_) => FDT_BEGIN_NODE
    case EndNode => FDT_END_NODE
    case Prop(_, _) => FDT_PROP
    case Nop => FDT_NOP
    case End => FDT_END
  }

  // ---------- big-endian words and alignment ----------

  function Load32(s: bytes, i: nat): u32
    requires i + 4 <= |s|
  {
    var b0: int, b1: int, b2: int, b3: int := s[i], s[i + 1], s[i + 2], s[i + 3];
    b0 * 0x100_0000 + b1 * 0x1_0000 + b2 * 0x100 + b3
  }

  function Enc32(x: u32): (r: bytes)
    ensures |r| == 4 && Load32(r, 0) == x
  {
    var x1 := x / 256;
    var x2 := x1 / 256;
    [x2 / 256, x2 % 256, x1 % 256, x % 256]
  }

  lemma Load32Local(s: bytes, t: bytes, i: nat)
    requires i + 4 <= |s| && i + 4 <= |t| && s[i..i + 4] == t[i..i + 4]
    ensures Load32(s, i) == Load32(t, i)
  {
    assert s[i] == s[i..i + 4][0] && s[i + 1] == s[i..i + 4][1] && s[i + 2] == s[i..i + 4][2] &&
      s[i + 3] == s[i..i + 4][3];
    assert t[i] == t[i..i + 4][0] && t[i + 1] == t[i..i + 4][1] && t[i + 2] == t[i..i + 4][2] &&
      t[i + 3] == t[i..i + 4][3];
  }

  /** `FDT_TAGALIGN(n)`. */
  function TagAlign(n: nat): (r: nat)
    ensures n <= r < n + 4 && r % 4 == 0
  {
    (n + 3) / 4 * 4
  }

  predicate NoNul(s: bytes) { 0 !in s }

  /** The index of the first NUL at or after `i`, `|s|` if there is none. */
  function FindNul(s: bytes, i: nat): (k: nat)
    requires i <= |s|
    ensures i <= k <= |s| && (k < |s| ==> s[k] == 0)
    ensures forall j :: i <= j < k ==> s[j] != 0
    decreases |s| - i
  {
    if i == |s| || s[i] == 0 then i else FindNul(s, i + 1)
  }

  lemma {:induction false} FindNulUnique(s: bytes, i: nat, k: nat)
    requires i <= k < |s| && s[k] == 0 && forall j :: i <= j < k ==> s[j] != 0
    ensures FindNul(s, i) == k
    decreases k - i
  {
    if i < k { FindNulUnique(s, i + 1, k); }
  }

  // ---------- decoding one token ----------

  /** `Tok(t, n)`: token `t`, and the next token starts `n` bytes further on. */
  datatype Decoded = Bad(error: int) | Tok(t: Token, n: nat)

  /** What `fdt_next_tag` finds at the start of `s`, the rest of the structure block. */
  function ReadTag(s: bytes): Decoded {
    if |s| < 4 then Bad(FDT_ERR_TRUNCATED) else
    var tag := Load32(s, 0);
    if tag == FDT_BEGIN_NODE then
      var k := FindNul(s, 4);
      if k == |s| then Bad(FDT_ERR_BADSTRUCTURE) else Tok(BeginNode(s[4..k]), TagAlign(k + 1))
    else if tag == FDT_PROP then
      if |s| < 8 then Bad(FDT_ERR_BADSTRUCTURE) else
      var len := Load32(s, 4);
      if 12 + len > |s| then Bad(FDT_ERR_BADSTRUCTURE)
      else Tok(Prop(Load32(s, 8), s[12..12 + len]), TagAlign(12 + len))
    else if tag == FDT_END_NODE then Tok(EndNode, 4)
    else if tag == FDT_NOP then Tok(Nop, 4)
    else if tag == FDT_END then Tok(End, 4)
    else Bad(FDT_ERR_BADSTRUCTURE)
  }

  /** The bytes a token takes, padding included. */
  function TokLen(t: Token): (n: nat)
    ensures n >= 4
  {
    match t
    case BeginNode(name) => 4 + TagAlign(|name| + 1)
    case Prop(_, value) => 12 + TagAlign(|value|)
    case _ => 4
  }

  /** The bytes before the padding. */
  function RawLen(t: Token): nat {
    match t
    case BeginNode(name) => 4 + |name| + 1
    case Prop(_, value) => 12 + |value|
    case _ => 4
  }

  lemma TokLenIsAligned(t: Token, start: nat)
    requires start % 4 == 0
    ensures TagAlign(start + RawLen(t)) == start + TokLen(t)
  {
    var r := RawLen(t);
    assert TagAlign(start + r) == start + TagAlign(r);
    if t.BeginNode? { AlignFour(|t.name| + 1); }
    if t.Prop? { AlignFour(|t.value|); }
  }

  lemma TokLenAligned(t: Token)
    ensures TokLen(t) % 4 == 0
  {
    hide TagAlign;
    SumAligned(4, match t case BeginNode(name) => TagAlign(|name| + 1) case _ => 0);
    SumAligned(12, match t case Prop(_, value) => TagAlign(|value|) case _ => 0);
  }

  lemma SumAligned(a: nat, b: nat)
    requires a % 4 == 0 && b % 4 == 0
    ensures (a + b) % 4 == 0
  {
  }

  lemma AlignFour(n: nat)
    ensures TagAlign(n + 4) == TagAlign(n) + 4 && TagAlign(n + 12) == TagAlign(n) + 12
  {
  }

  /** A decoded token takes exactly its length; a node name contains no NUL. */
  lemma ReadTagLength(s: bytes)
    requires ReadTag(s).Tok?
    ensures ReadTag(s).n == TokLen(ReadTag(s).t)
    ensures ReadTag(s).t.BeginNode? ==> NoNul(ReadTag(s).t.name)
    ensures ReadTag(s).n < |s| + 4
  {
    var t := ReadTag(s).t;
    if t.BeginNode? { AlignFour(|t.name| + 1); }
    if t.Prop? { AlignFour(|t.value|); }
  }

  /** A block that ends before a tag is truncated; anything else that is no token is a bad structure. */
  lemma ReadTagErrors(s: bytes)
    requires ReadTag(s).Bad?
    ensures ReadTag(s).error == if |s| < 4 then FDT_ERR_TRUNCATED else FDT_ERR_BADSTRUCTURE
  {
  }

  /** `c` is the encoding of exactly one token, with any padding. */
  predicate Encodes(c: bytes, t: Token) {
    ReadTag(c) == Tok(t, |c|)
  }

  /** A complete token is read the same whatever follows it. */
  lemma ReadTagLocal(c: bytes, t: Token, rest: bytes)
    requires Encodes(c, t)
    ensures ReadTag(c + rest) == Tok(t, |c|)
  {
    var s := c + rest;
    Load32Local(c, s, 0);
    if t.BeginNode? {
      var k := FindNul(c, 4);
      assert s[k] == 0 && forall j :: 4 <= j < k ==> s[j] != 0;
      FindNulUnique(s, 4, k);
      assert s[4..k] == c[4..k];
    } else if t.Prop? {
      Load32Local(c, s, 4);
      Load32Local(c, s, 8);
      assert s[12..12 + Load32(c, 4)] == c[12..12 + Load32(c, 4)];
    }
  }

  /** The bytes of a C string literal, without the NUL. */
  function Ascii(s: string): (r: bytes)
    ensures |r| == |s|
  {
    seq(|s|, i requires 0 <= i < |s| => s[i] as int % 256)
  }

  // ---------- the format, byte by byte ----------

  /** A root with one property of one byte, as the specification lays it out: big-endian words, each token padded to a
      multiple of four bytes. */
  lemma FormatBytes()
    ensures Decodes([0, 0, 0, 1, 0, 0, 0, 0]
                    + [0, 0, 0, 3, 0, 0, 0, 1, 0, 0, 1, 2, 7, 0, 0, 0]
                    + [0, 0, 0, 4] + [0, 0, 0, 2] + [0, 0, 0, 9],
                    [BeginNode([])] + [Prop(258, [7])] + [Nop] + [EndNode] + [End])
  {
    var begin: bytes := [0, 0, 0, 1, 0, 0, 0, 0];
    var prop: bytes := [0, 0, 0, 3, 0, 0, 0, 1, 0, 0, 1, 2, 7, 0, 0, 0];
    var nop: bytes, end: bytes, last: bytes := [0, 0, 0, 4], [0, 0, 0, 2], [0, 0, 0, 9];
    FindNulUnique(begin, 4, 4);
    assert begin[4..4] == [] && prop[12..13] == [7];
    assert Encodes(begin, BeginNode([])) && Encodes(prop, Prop(258, [7]));
    assert Encodes(nop, Nop) && Encodes(end, EndNode) && Encodes(last, End);
    hide Encodes, Decodes;
    FiveTokens(begin, BeginNode([]), prop, Prop(258, [7]), nop, Nop, end, EndNode, last, End);
  }

  lemma FiveTokens(a: bytes, t: Token, b: bytes, u: Token, c: bytes, v: Token, d: bytes, w: Token, e: bytes, x: Token)
    requires Encodes(a, t) && Encodes(b, u) && Encodes(c, v) && Encodes(d, w) && Encodes(e, x)
    ensures Decodes(a + b + c + d + e, [t] + [u] + [v] + [w] + [x])
  {
    hide Encodes, Decodes;
    DecodesOne(a, t);
    DecodesOne(b, u);
    DecodesOne(c, v);
    DecodesOne(d, w);
    DecodesOne(e, x);
    DecodesConcat(a, [t], b, [u]);
    DecodesConcat(a + b, [t] + [u], c, [v]);
    DecodesConcat(a + b + c, [t] + [u] + [v], d, [w]);
    DecodesConcat(a + b + c + d, [t] + [u] + [v] + [w], e, [x]);
  }

  // ---------- the encodings that the writers produce ----------

  lemma EncodeBegin(name: bytes, pad: bytes)
    requires NoNul(name) && (|name| + 1 + |pad|) % 4 == 0 && |pad| < 4
    ensures Encodes(Enc32(FDT_BEGIN_NODE) + name + [0] + pad, BeginNode(name))
  {
    var c := Enc32(FDT_BEGIN_NODE) + name + [0] + pad;
    var k := 4 + |name|;
    assert c[..4] == Enc32(FDT_BEGIN_NODE) && Load32(c, 0) == FDT_BEGIN_NODE;
    assert c[k] == 0;
    forall j | 4 <= j < k ensures c[j] != 0 { assert c[j] == name[j - 4]; }
    FindNulUnique(c, 4, k);
    assert c[4..k] == name;
  }

  lemma EncodeProp(nameoff: u32, value: bytes, pad: bytes)
    requires |value| < TWO32 && (|value| + |pad|) % 4 == 0 && |pad| < 4
    ensures Encodes(Enc32(FDT_PROP) + Enc32(|value|) + Enc32(nameoff) + value + pad, Prop(nameoff, value))
  {
    var c := Enc32(FDT_PROP) + Enc32(|value|) + Enc32(nameoff) + value + pad;
    assert Load32(c, 0) == FDT_PROP && Load32(c, 4) == |value| && Load32(c, 8) == nameoff;
    assert c[12..12 + |value|] == value;
  }

  lemma EncodeTag(t: Token)
    requires t.EndNode? || t.Nop? || t.End?
    ensures Encodes(Enc32(TagOf(t)), t)
  {
  }

  // ---------- decoding a stream ----------

  /** `s` is exactly the tokens `ts`, each with any padding. */
  predicate Decodes(s: bytes, ts: seq<Token>)
    decreases |ts|
  {
    if ts == [] then s == []
    else
      && TokLen(ts[0]) <= |s|
      && Encodes(s[..TokLen(ts[0])], ts[0])
      && Decodes(s[TokLen(ts[0])..], ts[1..])
  }

  function LenOf(ts: seq<Token>): nat {
    if ts == [] then 0 else TokLen(ts[0]) + LenOf(ts[1..])
  }

  lemma {:induction false} LenAligned(ts: seq<Token>)
    ensures LenOf(ts) % 4 == 0
  {
    hide TokLen;
    if ts != [] {
      TokLenAligned(ts[0]);
      LenAligned(ts[1..]);
    }
  }

  lemma {:induction false} DecodesLength(s: bytes, ts: seq<Token>)
    requires Decodes(s, ts)
    ensures |s| == LenOf(ts)
    decreases |ts|
  {
    if ts != [] { DecodesLength(s[TokLen(ts[0])..], ts[1..]); }
  }

  lemma {:induction false} LenOfConcat(a: seq<Token>, b: seq<Token>)
    ensures LenOf(a + b) == LenOf(a) + LenOf(b)
    decreases |a|
  {
    if a == [] {
      assert a + b == b;
    } else {
      assert (a + b)[1..] == a[1..] + b;
      LenOfConcat(a[1..], b);
    }
  }

  lemma DecodesOne(c: bytes, t: Token)
    requires Encodes(c, t)
    ensures Decodes(c, [t])
  {
    ReadTagLength(c);
    assert c[..TokLen(t)] == c;
  }

  lemma {:induction false} DecodesConcat(s: bytes, ts: seq<Token>, s': bytes, ts': seq<Token>)
    requires Decodes(s, ts) && Decodes(s', ts')
    ensures Decodes(s + s', ts + ts')
    decreases |ts|
  {
    hide ReadTag, Encodes, TokLen;
    if ts == [] {
      assert s + s' == s' && ts + ts' == ts';
    } else {
      var n := TokLen(ts[0]);
      assert (s + s')[..n] == s[..n] && (s + s')[n..] == s[n..] + s';
      assert (ts + ts')[1..] == ts[1..] + ts';
      DecodesConcat(s[n..], ts[1..], s', ts');
    }
  }

  /** Cutting the tokens at `i` cuts the bytes at the offset of token `i`. */
  lemma {:induction false} DecodesSplit(s: bytes, ts: seq<Token>, i: nat)
    requires Decodes(s, ts) && i <= |ts|
    ensures var o := LenOf(ts[..i]);
      o <= |s| && Decodes(s[..o], ts[..i]) && Decodes(s[o..], ts[i..])
    decreases i
  {
    hide ReadTag, Encodes, TokLen, Decodes;
    DecodesLength(s, ts);
    if i == 0 {
      assert s[0..] == s && ts[0..] == ts;
      NothingThere();
    } else {
      DecodesHead(s, ts);
      var n := TokLen(ts[0]);
      DecodesSplit(s[n..], ts[1..], i - 1);
      var o := LenOf(ts[1..][..i - 1]);
      assert ts[..i][1..] == ts[1..][..i - 1] && ts[1..][i - 1..] == ts[i..];
      assert s[n..][o..] == s[n + o..];
      assert s[..n + o][..n] == s[..n] && s[..n + o][n..] == s[n..][..o];
      DecodesCons(s[..n + o], ts[..i]);
    }
  }

  lemma NothingThere()
    ensures Decodes([], [])
  {
  }

  lemma DecodesCons(s: bytes, ts: seq<Token>)
    requires ts != [] && TokLen(ts[0]) <= |s| && Encodes(s[..TokLen(ts[0])], ts[0]) &&
      Decodes(s[TokLen(ts[0])..], ts[1..])
    ensures Decodes(s, ts)
  {
    hide ReadTag, Encodes, TokLen;
  }

  /** The token at index `i` is the one that is read at its offset. */
  lemma TokenAtOffset(s: bytes, ts: seq<Token>, i: nat)
    requires Decodes(s, ts) && i < |ts|
    ensures LenOf(ts[..i]) + TokLen(ts[i]) <= |s|
    ensures ReadTag(s[LenOf(ts[..i])..]) == Tok(ts[i], TokLen(ts[i]))
    ensures LenOf(ts[..i + 1]) == LenOf(ts[..i]) + TokLen(ts[i])
  {
    hide ReadTag, Decodes, TokLen;
    var o := LenOf(ts[..i]);
    DecodesSplit(s, ts, i);
    DecodesFirst(s[o..], ts[i..]);
    assert ts[i..][0] == ts[i];
    assert ts[..i + 1] == ts[..i] + [ts[i]];
    LenOfConcat(ts[..i], [ts[i]]);
    LenOfOne(ts[i]);
  }

  lemma LenOfOne(t: Token)
    ensures LenOf([t]) == TokLen(t)
  {
    assert [t][1..] == [];
  }

  lemma DecodesFirst(s: bytes, ts: seq<Token>)
    requires Decodes(s, ts) && ts != []
    ensures TokLen(ts[0]) <= |s| && ReadTag(s) == Tok(ts[0], TokLen(ts[0]))
    ensures Decodes(s[TokLen(ts[0])..], ts[1..])
  {
    hide ReadTag, TokLen;
    var n := TokLen(ts[0]);
    ReadTagLocal(s[..n], ts[0], s[n..]);
    assert s[..n] + s[n..] == s;
  }

  /** The same bytes cannot be two different token streams. */
  lemma {:induction false} DecodesUnique(s: bytes, ts: seq<Token>, us: seq<Token>)
    requires Decodes(s, ts) && Decodes(s, us)
    ensures ts == us
    decreases |ts|
  {
    if ts != [] && us != [] {
      DecodesFirst(s, ts);
      DecodesFirst(s, us);
      DecodesUnique(s[TokLen(ts[0])..], ts[1..], us[1..]);
      assert ts == [ts[0]] + ts[1..] && us == [us[0]] + us[1..];
    }
  }

  // ---------- editing a stream ----------

  /** Replacing the bytes of the tokens `i .. j` by the encoding of other tokens. */
  lemma ReplaceTokens(s: bytes, ts: seq<Token>, i: nat, j: nat, n: bytes, us: seq<Token>)
    requires Decodes(s, ts) && i <= j <= |ts| && Decodes(n, us)
    ensures LenOf(ts[..i]) <= LenOf(ts[..j]) <= |s|
    ensures Decodes(s[..LenOf(ts[..i])] + n + s[LenOf(ts[..j])..], ts[..i] + us + ts[j..])
  {
    hide Decodes;
    DecodesSplit(s, ts, i);
    DecodesSplit(s, ts, j);
    assert ts[..j] == ts[..i] + ts[i..j];
    LenOfConcat(ts[..i], ts[i..j]);
    DecodesConcat(s[..LenOf(ts[..i])], ts[..i], n, us);
    DecodesConcat(s[..LenOf(ts[..i])] + n, ts[..i] + us, s[LenOf(ts[..j])..], ts[j..]);
  }

  /** Overwriting the name offset of a property. */
  lemma PatchChunk(c: bytes, off: u32, value: bytes, x: u32)
    requires Encodes(c, Prop(off, value))
    ensures |c| >= 12 && Load32(c, 8) == off
    ensures Encodes(c[..8] + Enc32(x) + c[12..], Prop(x, value))
  {
    var d := c[..8] + Enc32(x) + c[12..];
    Load32Local(c, d, 0);
    Load32Local(c, d, 4);
    var e := Enc32(x);
    assert d[8..12] == e[0..4];
    Load32At(d, 8, x);
    assert d[12..12 + |value|] == c[12..12 + |value|];
  }

  lemma Load32At(s: bytes, i: nat, x: u32)
    requires i + 4 <= |s| && s[i..i + 4] == Enc32(x)
    ensures Load32(s, i) == x
  {
    var e := Enc32(x);
    assert s[i] == s[i..i + 4][0] && s[i + 1] == s[i..i + 4][1] && s[i + 2] == s[i..i + 4][2] &&
      s[i + 3] == s[i..i + 4][3];
  }

  lemma PatchName(s: bytes, ts: seq<Token>, i: nat, x: u32)
    requires Decodes(s, ts) && i < |ts| && ts[i].Prop?
    ensures var o := LenOf(ts[..i]);
      && o + 12 <= |s| && Load32(s, o + 8) == ts[i].nameoff
      && Decodes(s[..o + 8] + Enc32(x) + s[o + 12..], ts[i := Prop(x, ts[i].value)])
  {
    hide Decodes, ReadTag, Encodes, TokLen, Load32, Enc32;
    var o := LenOf(ts[..i]);
    var n := TokLen(ts[i]);
    TokenAtOffset(s, ts, i);
    var c := s[o..o + n];
    var p := Prop(x, ts[i].value);
    TokenChunk(s, ts, i);
    PatchChunk(c, ts[i].nameoff, ts[i].value, x);
    Load32Shift(s, o, c, 8);
    var d := c[..8] + Enc32(x) + c[12..];
    DecodesOne(d, p);
    ReplaceTokens(s, ts, i, i + 1, d, [p]);
    PatchBytes(s, o, n, Enc32(x));
    assert ts[..i] + [p] + ts[i + 1..] == ts[i := p];
  }

  lemma PatchBytes(s: bytes, o: nat, n: nat, e: bytes)
    requires 12 <= n && o + n <= |s| && |e| == 4
    ensures var c := s[o..o + n];
      s[..o] + (c[..8] + e + c[12..]) + s[o + n..] == s[..o + 8] + e + s[o + 12..]
  {
    var c := s[o..o + n];
    assert c[..8] == s[o..o + 8] && c[12..] == s[o + 12..o + n];
    assert s[..o + 8] == s[..o] + s[o..o + 8] && s[o + 12..] == s[o + 12..o + n] + s[o + n..];
  }

  lemma Load32Shift(s: bytes, o: nat, c: bytes, i: nat)
    requires o + |c| <= |s| && s[o..o + |c|] == c && i + 4 <= |c|
    ensures Load32(s, o + i) == Load32(c, i)
  {
    var w := s[o..o + |c|];
    assert s[o + i] == w[i] && s[o + i + 1] == w[i + 1] && s[o + i + 2] == w[i + 2] && s[o + i + 3] == w[i + 3];
  }

  /** The bytes of token `i` encode it. */
  lemma TokenChunk(s: bytes, ts: seq<Token>, i: nat)
    requires Decodes(s, ts) && i < |ts|
    ensures LenOf(ts[..i]) + TokLen(ts[i]) <= |s|
    ensures Encodes(s[LenOf(ts[..i])..LenOf(ts[..i]) + TokLen(ts[i])], ts[i])
  {
    hide ReadTag, TokLen;
    var o := LenOf(ts[..i]);
    DecodesSplit(s, ts, i);
    DecodesHead(s[o..], ts[i..]);
    assert ts[i..][0] == ts[i];
    assert s[o..][..TokLen(ts[i])] == s[o..o + TokLen(ts[i])];
  }

  lemma DecodesHead(s: bytes, ts: seq<Token>)
    requires Decodes(s, ts) && ts != []
    ensures TokLen(ts[0]) <= |s| && Encodes(s[..TokLen(ts[0])], ts[0]) && Decodes(s[TokLen(ts[0])..], ts[1..])
  {
    hide ReadTag, Encodes, TokLen;
  }
}
