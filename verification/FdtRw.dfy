/** The read-write functions: edits of a blob in place, by splicing bytes or by overwriting them with NOPs. */
module FdtRw {
  import opened Words
  import opened FdtTokens
  import opened FdtStrings
  import opened FdtMemory
  import opened FdtBlob
  import opened FdtCheck
  import opened FdtRead
  import opened FdtLookup
  import opened FdtSplice

  /** Sizes that the C code keeps in a signed int. */
  predicate IntSized(n: nat) { n + 15 < INT_MAX }

  /** The node at token `i` has got a new first property. */
  ghost predicate PropAdded(ts: seq<Token>, i: nat, name: bytes, value: bytes, ts': seq<Token>, z': bytes) {
    && i + 1 < |ts'| && i + 1 <= |ts| && ts'[i + 1].Prop?
    && ts'[i + 1].value == value && StringAt(z', ts'[i + 1].nameoff) == Some(name)
    && ts' == ts[..i + 1] + [ts'[i + 1]] + ts[i + 1..]
  }

  /** How much `fdt_setprop` makes the blob grow. */
  ghost function SetGrowth(ts: seq<Token>, z: bytes, i: nat, name: bytes, value: bytes): int {
    match FindProp(ts, z, i + 1, name)
    case Some(k) => if k < |ts| && ts[k].Prop? then TagAlign(|value|) - TagAlign(|ts[k].value|) else 0
    case None => 12 + TagAlign(|value|) + if Shared(z, name) then 0 else |name| + 1
  }

  /** The value after `more` has been appended to the property, or to nothing. */
  ghost function Appended(ts: seq<Token>, z: bytes, i: nat, name: bytes, more: bytes): bytes {
    match FindProp(ts, z, i + 1, name)
    case Some(k) => if k < |ts| && ts[k].Prop? then ts[k].value + more else more
    case None => more
  }

  /** What `fdt_setprop` does to the tokens and the strings. */
  ghost predicate PropSet(ts: seq<Token>, z: bytes, i: nat, name: bytes, value: bytes, ts': seq<Token>, z': bytes) {
    match FindProp(ts, z, i + 1, name)
    case Some(k) => k < |ts| && ts[k].Prop? && ts' == ts[k := Prop(ts[k].nameoff, value)] && z' == z
    case None => PropAdded(ts, i, name, value, ts', z') && z' == z + if Shared(z, name) then [] else name + [0]
  }

  /** `n` bytes have been put in at `p`; the others, up to `d`, are as before. */
  predicate HoleFilled(s: bytes, s': bytes, p: nat, d: nat, n: nat) {
    p + n <= |s'| && Spliced(s, s', p, p, d, s'[p..p + n])
  }

  class RwBlob {
    const buf: array<byte>
    var magic: u32
    var totalsize: u32
    var offStruct: u32
    var offStrings: u32
    var offRsv: u32
    var version: u32
    var lastComp: u32
    var sizeStrings: u32
    var sizeStruct: u32
    ghost var tokens: seq<Token>

    function View(): (b: Blob)
      reads this, buf
    {
      Blob(buf[..], magic, totalsize, offStruct, offStrings, offRsv, version, lastComp, sizeStrings, sizeStruct)
    }

    ghost predicate Valid()
      reads this, buf
    {
      Good(View(), tokens)
    }

    ghost function Strings(): bytes
      reads this, buf
      requires Valid()
    {
      StringsOf(View())
    }

    /** A blob that `fdt_check_header` accepts and whose structure block is a stream of tokens. */
    constructor (b: Blob, ghost ts: seq<Token>)
      requires Good(b, ts)
      ensures Valid() && fresh(buf) && View() == b && tokens == ts
    {
      buf := new byte[|b.data|];
      magic, totalsize, offStruct, offStrings := b.magic, b.totalsize, b.offStruct, b.offStrings;
      offRsv, version, lastComp := b.offRsv, b.version, b.lastComp;
      sizeStrings, sizeStruct, tokens := b.sizeStrings, b.sizeStruct, ts;
      new;
      Memcpy(buf, 0, b.data);
      assert buf[..] == b.data;
    }

    /** `fdt_rw_probe_` on a blob with a good header; a newer version becomes version 17. */
    method Probe() returns (err: int)
      requires Valid()
      modifies this`version
      ensures Valid() && err == (if Ordered(old(View())) then 0 else -FDT_ERR_BADLAYOUT)
      ensures Ordered(View()) <==> Ordered(old(View()))
      ensures View() == old(View()).(version := if err == 0 then 17 else old(version))
    {
      hide Streams, CheckHeader, Ordered, Misordered;
      ghost var b := View();
      MisorderedExact(b);
      if Misordered(View(), 16) {
        return -FDT_ERR_BADLAYOUT;
      }
      if version > FDT_LAST_SUPPORTED_VERSION {
        version := FDT_LAST_SUPPORTED_VERSION;
      }
      VersionIsFree(b, View(), tokens);
      return 0;
    }

    // ---------- splices ----------

    /** `fdt_splice_`: moves everything behind `p + oldlen` to `p + newlen`. */
    method Splice(p: nat, oldlen: nat, newlen: nat) returns (err: int)
      requires DataSize(View()) <= totalsize <= buf.Length < INT_MAX && oldlen < INT_MAX && newlen < INT_MAX
      modifies buf
      ensures err == if p + oldlen > DataSize(View()) then -FDT_ERR_BADOFFSET
                     else if DataSize(View()) - oldlen + newlen > totalsize then -FDT_ERR_NOSPACE else 0
      ensures err == 0 ==> buf[..] == Splat(old(buf[..]), p + newlen, old(buf[..])[p + oldlen..DataSize(View())])
      ensures err != 0 ==> buf[..] == old(buf[..])
    {
      hide U32, Splat;
      SpliceSums(DataSize(View()), oldlen, newlen);
      var dsize := U32(offStrings + sizeStrings);
      if p + oldlen > dsize {
        return -FDT_ERR_BADOFFSET;
      }
      if U32(dsize + newlen) < oldlen {
        return -FDT_ERR_BADOFFSET;
      }
      if U32(dsize - oldlen + newlen) > totalsize {
        return -FDT_ERR_NOSPACE;
      }
      Memmove(buf, p + newlen, p + oldlen, dsize - (p + oldlen));
      return 0;
    }

    /** `fdt_splice_struct_` at offset `o` of the structure block. */
    method SpliceStruct(o: nat, oldlen: nat, newlen: nat) returns (err: int)
      requires Valid() && Ordered(View()) && o + oldlen <= sizeStruct && newlen < INT_MAX
      modifies this`sizeStruct, this`offStrings, buf
      ensures err == if DataSize(old(View())) - oldlen + newlen > totalsize then -FDT_ERR_NOSPACE else 0
      ensures err == 0 ==>
        && Grown(old(View()), View(), newlen - oldlen)
        && buf[..]
          == Splat(old(buf[..]), offStruct + o + newlen, old(buf[..])[offStruct + o + oldlen..DataSize(old(View()))])
      ensures err != 0 ==> View() == old(View())
    {
      hide Streams, CheckHeader, Splat;
      err := Splice(offStruct + o, oldlen, newlen);
      if err != 0 {
        return;
      }
      sizeStruct := sizeStruct + newlen - oldlen;
      offStrings := offStrings + newlen - oldlen;
    }

    /** `fdt_find_add_string_`: the offset of a name in the strings block, where it is shared or added. */
    method FindAddString(name: bytes) returns (result: int, isNew: bool)
      requires Valid() && Ordered(View()) && NoNul(name) && IntSized(|name|)
      modifies this`sizeStrings, buf
      ensures Valid() && Ordered(View()) && buf[..offStruct] == old(buf[..offStruct])
      ensures isNew ==>
        && DataSize(old(View())) + |name| + 1 <= totalsize
        && buf[..] == Splat(old(buf[..]), DataSize(old(View())), name + [0])
      ensures !isNew ==> View() == old(View())
      ensures View() == old(View()).(data := buf[..], sizeStrings := old(sizeStrings) + if isNew then |name| + 1 else 0)
      ensures isNew <==> result >= 0 && !Shared(old(Strings()), name)
      ensures Strings() == old(Strings()) + if isNew then name + [0] else []
      ensures result >= 0 ==> result < TWO32 && StringAt(Strings(), result) == Some(name)
      ensures result >= 0 <==> Shared(old(Strings()), name) || DataSize(old(View())) + |name| + 1 <= totalsize
      ensures result < 0 ==> result == -FDT_ERR_NOSPACE
    {
      hide Streams, CheckHeader, Splat, StringAt, Matches, Ordered, Good, NoNul;
      ghost var b, z := View(), Strings();
      DataFits(b, tokens);
      var found, p := FindString(StringsOf(View()), name);
      assert z + [] == z;
      if found {
        MatchesInside(z, p, name);
        MatchesIsStringAt(z, p, name);
        return p, false;
      }
      var end := offStrings + sizeStrings;
      var err := Splice(end, 0, |name| + 1);
      if err != 0 {
        return err, false;
      }
      SplatNothingAt(b.data, DataSize(b), |name| + 1);
      sizeStrings := sizeStrings + |name| + 1;
      Memcpy(buf, end, name + [0]);
      AppendGood(b, View(), tokens, name + [0]);
      StringAtNewEnd(z, name);
      assert z + name + [0] == z + (name + [0]);
      return end - offStrings, true;
    }

    // ---------- properties ----------

    /** `fdt_resize_property_`, and the copy of the new value. */
    method ResizeProperty(node: int, name: bytes, value: bytes, ghost i: nat) returns (err: int)
      requires Valid() && Ordered(View()) && IntSized(|value|)
      requires i < |tokens| && tokens[i].BeginNode? && node == Off(tokens, i)
      modifies this`sizeStruct, this`offStrings, this`tokens, buf
      ensures Valid() && Ordered(View()) && buf[..offStruct] == old(buf[..offStruct]) && Strings() == old(Strings())
      ensures match FindProp(old(tokens), old(Strings()), i + 1, name)
        case None =>
          err == (if LeadEnd(old(tokens), i + 1) == |old(tokens)| - 1 then -FDT_ERR_BADSTRUCTURE else -FDT_ERR_NOTFOUND)
          && tokens == old(tokens) && View() == old(View())
        case Some(k) =>
          && k < |old(tokens)| && old(tokens)[k].Prop?
          && var delta := TagAlign(|value|) - TagAlign(|old(tokens)[k].value|);
          && err == (if DataSize(old(View())) + delta > totalsize then -FDT_ERR_NOSPACE else 0)
          && (err == 0 ==>
            tokens == old(tokens)[k := Prop(old(tokens)[k].nameoff, value)] && Grown(old(View()), View(), delta))
          && (err != 0 ==> tokens == old(tokens) && View() == old(View()))
    {
      hide Streams, CheckHeader, Splat, Decodes, LenOf, FindProp, LeadEnd, Encodes, StringsOf, TagAlign, Spliced, Good;
      ghost var b, ts, z := View(), tokens, Strings();
      DataFits(b, ts);
      var found, offset, len := GetProperty(View(), node, name, tokens, i);
      if !found {
        return len;
      }
      ghost var k := FindProp(ts, z, i + 1, name).value;
      PropPlace(b, ts, k);
      err := SpliceStruct(offset + 12, TagAlign(len), TagAlign(|value|));
      if err != 0 {
        return;
      }
      Memcpy(buf, offStruct + offset + 4, Enc32(|value|));
      Memcpy(buf, offStruct + offset + 12, value);
      tokens := ts[k := Prop(ts[k].nameoff, value)];
      ResizedGood(b, View(), ts, k, value);
      return 0;
    }

    /** The part of `fdt_add_property_` that makes room for a property and writes it. */
    method InsertProperty(next: nat, nameoff: u32, value: bytes, ghost i: nat) returns (err: int)
      requires Valid() && Ordered(View()) && IntSized(|value|) && i < |tokens| && next == Off(tokens, i)
      modifies this`sizeStruct, this`offStrings, this`tokens, buf
      ensures Valid() && Ordered(View()) && buf[..offStruct] == old(buf[..offStruct]) && Strings() == old(Strings())
      ensures err == if DataSize(old(View())) + 12 + TagAlign(|value|) > totalsize then -FDT_ERR_NOSPACE else 0
      ensures err == 0 ==> tokens == old(tokens)[..i] + [Prop(nameoff, value)] + old(tokens)[i..]
      ensures err == 0 ==> Grown(old(View()), View(), 12 + TagAlign(|value|))
      ensures err != 0 ==> tokens == old(tokens) && View() == old(View())
    {
      hide Streams, CheckHeader, Splat, Decodes, LenOf, Encodes, StringsOf, TagAlign, Spliced, Good, Off;
      ghost var b, ts := View(), tokens;
      DataFits(b, ts);
      OffInside(b, ts, i, i);
      err := SpliceStruct(next, 0, 12 + TagAlign(|value|));
      if err != 0 {
        return;
      }
      var p := offStruct + next;
      Memcpy(buf, p, Enc32(FDT_PROP));
      Memcpy(buf, p + 8, Enc32(nameoff));
      Memcpy(buf, p + 4, Enc32(|value|));
      Memcpy(buf, p + 12, value);
      tokens := ts[..i] + [Prop(nameoff, value)] + ts[i..];
      AddedGood(b, View(), ts, i, nameoff, value);
      return 0;
    }

    /** `fdt_add_property_`, and the copy of the value: the new property comes first in its node. Without room for it
        the name is taken out of the strings block again. */
    method AddProperty(node: int, name: bytes, value: bytes, ghost i: nat) returns (err: int)
      requires Valid() && Ordered(View()) && IntSized(|value|) && IntSized(|name|) && NoNul(name)
      requires i < |tokens| && tokens[i].BeginNode? && node == Off(tokens, i)
      modifies this`sizeStruct, this`offStrings, this`sizeStrings, this`tokens, buf
      ensures Valid() && Ordered(View()) && buf[..offStruct] == old(buf[..offStruct])
      ensures var more := if Shared(old(Strings()), name) then [] else name + [0];
        var size := |more| + 12 + TagAlign(|value|);
        && err == (if DataSize(old(View())) + size > totalsize then -FDT_ERR_NOSPACE else 0)
        && (err == 0 ==>
          PropAdded(old(tokens), i, name, value, tokens, Strings()) && Strings() == old(Strings()) + more)
        && (err == 0 ==>
          sizeStruct == old(sizeStruct) + 12 + TagAlign(|value|) && DataSize(View()) == DataSize(old(View())) + size)
        && (err != 0 ==> tokens == old(tokens) && Strings() == old(Strings()))
        && (err != 0 ==> View().(data := []) == old(View()).(data := []))
    {
      hide Streams, CheckHeader, Splat, Decodes, LenOf, Encodes, StringsOf, TagAlign, Spliced, Good, StringAt, Matches,
        Shared;
      ghost var b0, ts, z := View(), tokens, Strings();
      DataFits(b0, ts);
      NotLast(ts, i, b0);
      var tag, next := TagAt(View(), node, tokens, i);
      var nameoff, isNew := FindAddString(name);
      if nameoff < 0 {
        return nameoff;
      }
      err := InsertProperty(next, nameoff, value, i + 1);
      if err != 0 {
        if isNew {
          sizeStrings := sizeStrings - (|name| + 1);
          RollbackGood(b0, View(), ts, name + [0]);
        }
        return;
      }
      InsertedAt(ts, i, name, value, nameoff, Strings());
      return 0;
    }

    /** `fdt_setprop`: nothing but the one property changes, and on an error nothing at all. */
    method SetProp(node: int, name: bytes, value: bytes, ghost i: nat) returns (err: int)
      requires Valid() && IntSized(|value|) && IntSized(|name|) && NoNul(name)
      requires i < |tokens| && tokens[i].BeginNode? && node == Off(tokens, i)
      modifies this`version, this`sizeStruct, this`offStrings, this`sizeStrings, this`tokens, buf
      ensures Valid() && buf[..offStruct] == old(buf[..offStruct])
      ensures err == (if !Ordered(old(View())) then -FDT_ERR_BADLAYOUT
                      else if FindProp(old(tokens), old(Strings()), i + 1, name).None? &&
                        LeadEnd(old(tokens), i + 1) == |old(tokens)| - 1
                      then -FDT_ERR_BADSTRUCTURE
                      else if DataSize(old(View())) + SetGrowth(old(tokens), old(Strings()), i, name, value) > totalsize
                      then -FDT_ERR_NOSPACE else 0)
      ensures err == 0 ==> Ordered(View()) && PropSet(old(tokens), old(Strings()), i, name, value, tokens, Strings())
      ensures err == 0 ==>
        DataSize(View()) == DataSize(old(View())) + SetGrowth(old(tokens), old(Strings()), i, name, value)
      ensures err != 0 ==> tokens == old(tokens) && Strings() == old(Strings())
      ensures err != 0 ==> View().(data := [], version := 0) == old(View()).(data := [], version := 0)
    {
      hide Streams, CheckHeader, Decodes, LenOf, StringsOf, TagAlign, Good, StringAt, Matches, Shared, FindProp,
        LeadEnd, Ordered, PropAdded;
      ghost var b := View();
      err := Probe();
      if err != 0 {
        return;
      }
      StringsSame(b, View(), tokens);
      FindPropIsProp(tokens, Strings(), i + 1, name);
      err := ResizeProperty(node, name, value, i);
      if err == -FDT_ERR_NOTFOUND {
        err := AddProperty(node, name, value, i);
      }
    }

    /** `fdt_delprop`. */
    method DelProp(node: int, name: bytes, ghost i: nat) returns (err: int)
      requires Valid() && i < |tokens| && tokens[i].BeginNode? && node == Off(tokens, i)
      modifies this`version, this`sizeStruct, this`offStrings, this`tokens, buf
      ensures Valid() && buf[..offStruct] == old(buf[..offStruct]) && Strings() == old(Strings())
      ensures match FindProp(old(tokens), old(Strings()), i + 1, name)
        case Some(k) =>
          && err == (if Ordered(old(View())) then 0 else -FDT_ERR_BADLAYOUT)
          && k < |old(tokens)|
          && (err == 0 ==> tokens == old(tokens)[..k] + old(tokens)[k + 1..])
          && (err == 0 ==> sizeStruct + TokLen(old(tokens)[k]) == old(sizeStruct))
        case None =>
          err == if !Ordered(old(View())) then -FDT_ERR_BADLAYOUT
                 else if LeadEnd(old(tokens), i + 1) == |old(tokens)| - 1 then -FDT_ERR_BADSTRUCTURE
                   else -FDT_ERR_NOTFOUND
      ensures err == 0 ==> Ordered(View())
      ensures err != 0 ==> tokens == old(tokens) && View() == old(View()).(version := version)
    {
      hide Streams, CheckHeader, Decodes, LenOf, StringsOf, TagAlign, Good, FindProp, LeadEnd, Splat, Encodes, Spliced;
      ghost var b0, ts := View(), tokens;
      FindPropIsProp(ts, Strings(), i + 1, name);
      err := Probe();
      if err != 0 {
        return;
      }
      ghost var b, z := View(), Strings();
      StringsSame(b0, b, ts);
      DataFits(b, ts);
      var found, offset, len := GetProperty(View(), node, name, tokens, i);
      if !found {
        return len;
      }
      ghost var k := FindProp(ts, z, i + 1, name).value;
      PropPlace(b, ts, k);
      err := SpliceStruct(offset, 12 + TagAlign(len), 0);
      tokens := ts[..k] + ts[k + 1..];
      RemovedGood(b, View(), ts, k, k + 1);
    }

    /** `fdt_appendprop`. */
    method AppendProp(node: int, name: bytes, more: bytes, ghost i: nat) returns (err: int)
      requires Valid() && IntSized(|more|) && IntSized(|name|) && NoNul(name)
      requires i < |tokens| && tokens[i].BeginNode? && node == Off(tokens, i)
      requires IntSized(|Appended(tokens, Strings(), i, name, more)|)
      modifies this`version, this`sizeStruct, this`offStrings, this`sizeStrings, this`tokens, buf
      ensures Valid() && buf[..offStruct] == old(buf[..offStruct])
      ensures var value := Appended(old(tokens), old(Strings()), i, name, more);
        && err == (if !Ordered(old(View())) then -FDT_ERR_BADLAYOUT
                   else if DataSize(old(View())) + SetGrowth(old(tokens), old(Strings()), i, name, value) > totalsize
                   then -FDT_ERR_NOSPACE else 0)
        && (err == 0 ==> Ordered(View()) && PropSet(old(tokens), old(Strings()), i, name, value, tokens, Strings()))
      ensures err != 0 ==> tokens == old(tokens) && Strings() == old(Strings())
      ensures err != 0 ==> View().(data := [], version := 0) == old(View()).(data := [], version := 0)
    {
      hide Streams, CheckHeader, Decodes, LenOf, StringsOf, TagAlign, Good, FindProp, LeadEnd, Splat, Encodes,
        PropAdded, StringAt, Ordered, Shared;
      ghost var b0, ts := View(), tokens;
      err := Probe();
      if err != 0 {
        return;
      }
      ghost var b, z := View(), Strings();
      StringsSame(b0, b, ts);
      DataFits(b, ts);
      FindPropIsProp(ts, z, i + 1, name);
      var found, offset, oldlen := GetProperty(View(), node, name, tokens, i);
      if found {
        err := AppendInPlace(offset, oldlen, more, FindProp(ts, z, i + 1, name).value);
      } else {
        err := AddProperty(node, name, more, i);
      }
    }

    /** The part of `fdt_appendprop` for a property that exists. */
    method AppendInPlace(offset: nat, oldlen: nat, more: bytes, ghost k: nat) returns (err: int)
      requires Valid() && Ordered(View()) && k < |tokens| && tokens[k].Prop? && offset == Off(tokens, k)
      requires oldlen == |tokens[k].value| && IntSized(oldlen + |more|)
      modifies this`sizeStruct, this`offStrings, this`tokens, buf
      ensures Valid() && Ordered(View()) && buf[..offStruct] == old(buf[..offStruct]) && Strings() == old(Strings())
      ensures var delta := TagAlign(oldlen + |more|) - TagAlign(oldlen);
        err == if DataSize(old(View())) + delta > totalsize then -FDT_ERR_NOSPACE else 0
      ensures err == 0 ==> tokens == old(tokens)[k := Prop(old(tokens)[k].nameoff, old(tokens)[k].value + more)]
      ensures err != 0 ==> tokens == old(tokens) && View() == old(View())
    {
      hide Streams, CheckHeader, Splat, Decodes, LenOf, Encodes, StringsOf, TagAlign, Spliced, Good, Off, PutValue,
        Ordered, Placed, StringsPlaced;
      ghost var b, ts, v := View(), tokens, tokens[k].value + more;
      ValueRoom(b, ts, k);
      var newlen := |more| + oldlen;
      err := SpliceStruct(offset + 12, TagAlign(oldlen), TagAlign(newlen));
      if err != 0 {
        return;
      }
      ghost var s := buf[..];
      OldValue(b, ts, k, s, newlen);
      WriteMore(offStruct + offset, oldlen, more, ts[k].value);
      tokens := ts[k := Prop(ts[k].nameoff, v)];
      ResizedFrom(b, View(), ts, k, s, v);
      return 0;
    }

    /** The new length and the new part of a value that stays in its place. */
    method WriteMore(p: nat, oldlen: nat, more: bytes, ghost v: bytes)
      requires oldlen == |v| && |v| + |more| < TWO32 && p + 12 + |v| + |more| <= buf.Length &&
        buf[..][p + 12..p + 12 + |v|] == v
      modifies buf
      ensures buf[..] == PutValue(old(buf[..]), p, v + more)
    {
      hide Splat, PutValue, Enc32;
      AppendIsPut(buf[..], p, v, more);
      Memcpy(buf, p + 4, Enc32(oldlen + |more|));
      Memcpy(buf, p + 12 + oldlen, more);
    }

    // ---------- subnodes ----------

    /** `fdt_add_subnode_namelen`: an empty node after the properties of its parent; answers its offset. */
    method AddSubnode(parent: int, name: bytes, ghost i: nat) returns (result: int)
      requires Valid() && NoNul(name) && IntSized(|name|)
      requires i < |tokens| && tokens[i].BeginNode? && parent == Off(tokens, i)
      modifies this`version, this`sizeStruct, this`offStrings, this`tokens, buf
      ensures Valid() && buf[..offStruct] == old(buf[..offStruct]) && Strings() == old(Strings())
      ensures LeadEnd(old(tokens), i + 1) < |old(tokens)|
      ensures var k := LeadEnd(old(tokens), i + 1);
        && result == (if !Ordered(old(View())) then -FDT_ERR_BADLAYOUT
                      else if FindSub(old(tokens), i + 1, 0, name).Some? then -FDT_ERR_EXISTS
                      else if DataSize(old(View())) + 8 + TagAlign(|name| + 1) > totalsize then -FDT_ERR_NOSPACE
                      else Off(old(tokens), k))
        && (result >= 0 ==> tokens == old(tokens)[..k] + [BeginNode(name), EndNode] + old(tokens)[k..])
      ensures result >= 0 ==> Ordered(View()) && Grown(old(View()).(version := 17), View(), 8 + TagAlign(|name| + 1))
      ensures result >= 0 ==>
        HoleFilled(old(buf[..]), buf[..], offStruct + result, DataSize(old(View())), 8 + TagAlign(|name| + 1))
      ensures result < 0 ==> tokens == old(tokens) && View() == old(View()).(version := version)
    {
      hide Streams, CheckHeader, Decodes, LenOf, StringsOf, TagAlign, Good, FindSub, LeadEnd, Splat, Spliced, Ordered,
        TokLen, HoleFilled;
      ghost var b0, ts := View(), tokens;
      DataFits(b0, ts);
      NotLast(ts, i, b0);
      LeadEndInside(ts, i + 1, b0);
      result := Probe();
      if result != 0 {
        return;
      }
      ghost var b := View();
      StringsSame(b0, b, ts);
      DataFits(b, ts);
      var offset := SubnodeOffset(View(), parent, name, tokens, i);
      if offset >= 0 {
        return -FDT_ERR_EXISTS;
      } else if offset != -FDT_ERR_NOTFOUND {
        return offset;
      }
      var tag, next := TagAt(View(), parent, tokens, i);
      if tag != FDT_BEGIN_NODE {
        return -FDT_ERR_INTERNAL;
      }
      offset := SkipProperties(next, i + 1);
      ghost var k := LeadEnd(ts, i + 1);
      result := InsertNode(offset, name, k);
      if result != 0 {
        return;
      }
      return offset;
    }

    /** The part of `fdt_add_subnode_namelen` that makes room for a node and writes it. */
    method InsertNode(offset: nat, name: bytes, ghost k: nat) returns (err: int)
      requires Valid() && Ordered(View()) && NoNul(name) && IntSized(|name|) && k < |tokens| && offset == Off(tokens, k)
      modifies this`sizeStruct, this`offStrings, this`tokens, buf
      ensures Valid() && Ordered(View()) && buf[..offStruct] == old(buf[..offStruct]) && Strings() == old(Strings())
      ensures err == if DataSize(old(View())) + 8 + TagAlign(|name| + 1) > totalsize then -FDT_ERR_NOSPACE else 0
      ensures err == 0 ==> tokens == old(tokens)[..k] + [BeginNode(name), EndNode] + old(tokens)[k..]
      ensures err == 0 ==>
        HoleFilled(old(buf[..]), buf[..], offStruct + offset, DataSize(old(View())), 8 + TagAlign(|name| + 1))
      ensures err == 0 ==> Grown(old(View()), View(), 8 + TagAlign(|name| + 1))
      ensures err != 0 ==> tokens == old(tokens) && View() == old(View())
    {
      hide Streams, CheckHeader, Decodes, LenOf, StringsOf, TagAlign, Good, Splat, Spliced, Off, PutNode, HoleFilled;
      ghost var b, ts := View(), tokens;
      DataFits(b, ts);
      OffInside(b, ts, k, k);
      err := SpliceStruct(offset, 0, 8 + TagAlign(|name| + 1));
      if err != 0 {
        return;
      }
      WriteNode(offStruct + offset, name);
      tokens := ts[..k] + [BeginNode(name), EndNode] + ts[k..];
      NodeAddedGood(b, View(), ts, k, name);
      return 0;
    }

    /** The loop that looks for the end of the properties of a node. */
    method SkipProperties(start: int, ghost j: nat) returns (offset: int)
      requires Streams(View(), tokens) && j < |tokens| && start == Off(tokens, j)
      ensures LeadEnd(tokens, j) < |tokens| && offset == Off(tokens, LeadEnd(tokens, j))
    {
      hide Streams, LenOf;
      ghost var k := j;
      StreamsParts(View(), tokens);
      offset := start;
      var tag, next := TagAt(View(), offset, tokens, k);
      while tag == FDT_PROP || tag == FDT_NOP
        invariant k < |tokens| && offset == Off(tokens, k) && LeadEnd(tokens, k) == LeadEnd(tokens, j)
        invariant tag == TagOf(tokens[k]) && next == Off(tokens, k + 1)
        decreases |tokens| - k
      {
        NotEndLast(tokens, k);
        k := k + 1;
        offset := next;
        tag, next := TagAt(View(), offset, tokens, k);
      }
    }

    method WriteNode(p: nat, name: bytes)
      requires p + 8 + TagAlign(|name| + 1) <= buf.Length
      modifies buf
      ensures buf[..] == PutNode(old(buf[..]), p, name)
    {
      hide Splat, Enc32, TagAlign;
      var k := TagAlign(|name| + 1);
      Memcpy(buf, p, Enc32(FDT_BEGIN_NODE));
      Memcpy(buf, p + 4, Zeros(k));
      Memcpy(buf, p + 4, name);
      Memcpy(buf, p + 4 + k, Enc32(FDT_END_NODE));
    }

    /** `fdt_del_node`. */
    method DelNode(node: int, ghost i: nat) returns (err: int)
      requires Valid() && i < |tokens| && tokens[i].BeginNode? && node == Off(tokens, i)
      modifies this`version, this`sizeStruct, this`offStrings, this`tokens, buf
      ensures Valid() && buf[..offStruct] == old(buf[..offStruct]) && Strings() == old(Strings())
      ensures match NodeEnd(old(tokens), i + 1, 0)
        case Some(e) =>
          && err == (if Ordered(old(View())) then 0 else -FDT_ERR_BADLAYOUT)
          && i < e < |old(tokens)|
          && (err == 0 ==> tokens == old(tokens)[..i] + old(tokens)[e..])
          && (err == 0 ==> Grown(old(View()).(version := 17), View(), Off(old(tokens), i) - Off(old(tokens), e)))
        case None => err == if Ordered(old(View())) then -FDT_ERR_NOTFOUND else -FDT_ERR_BADLAYOUT
      ensures err == 0 ==> Ordered(View())
      ensures err == 0 ==>
        var e := NodeEnd(old(tokens), i + 1, 0).value;
        Spliced(old(buf[..]), buf[..], offStruct + node, offStruct + Off(old(tokens), e), DataSize(old(View())), [])
      ensures err != 0 ==> tokens == old(tokens) && View() == old(View()).(version := version)
    {
      hide Streams, CheckHeader, Decodes, LenOf, StringsOf, Good, NodeEnd, Splat, Off, Spliced;
      ghost var b0, ts := View(), tokens;
      DataFits(b0, ts);
      NodeEndInside(ts, i + 1, 0, b0);
      err := Probe();
      if err != 0 {
        return;
      }
      ghost var b := View();
      StringsSame(b0, b, ts);
      DataFits(b, ts);
      var endoffset := NodeEndOffset(View(), node, tokens, i);
      if endoffset < 0 {
        return endoffset;
      }
      ghost var e := NodeEnd(ts, i + 1, 0).value;
      OffInside(b, ts, i, e);
      err := SpliceStruct(node, endoffset - node, 0);
      tokens := ts[..i] + ts[e..];
      RemovedGood(b, View(), ts, i, e);
    }

    // ---------- overwriting with NOPs ----------

    /** `fdt_nop_region_`. */
    method NopRegion(start: nat, len: nat)
      requires start + (len + 3) / 4 * 4 <= buf.Length
      modifies buf
      ensures buf[..] == Splat(old(buf[..]), start, NopBytes((len + 3) / 4))
    {
      hide Splat, Enc32;
      ghost var s, k := buf[..], 0;
      SplatNothing(s, start);
      var p := start;
      while p < start + len
        invariant p == start + 4 * k && 0 <= k <= (len + 3) / 4
        invariant buf[..] == Splat(s, start, NopBytes(k))
      {
        SplatAfter(s, start, NopBytes(k), Enc32(FDT_NOP));
        Memcpy(buf, p, Enc32(FDT_NOP));
        p := p + 4;
        k := k + 1;
      }
    }

    /** `fdt_nop_property`: only the bytes of the property change. */
    method NopProperty(node: int, name: bytes, ghost i: nat) returns (err: int)
      requires Valid() && StringsApart(View()) && i < |tokens| && tokens[i].BeginNode? && node == Off(tokens, i)
      modifies this`tokens, buf
      ensures Valid() && StringsApart(View()) && Strings() == old(Strings())
      ensures match FindProp(old(tokens), old(Strings()), i + 1, name)
        case Some(k) =>
          && err == 0 && k < |old(tokens)|
          && var words := TokLen(old(tokens)[k]) / 4;
          && tokens == old(tokens)[..k] + Nops(words) + old(tokens)[k + 1..]
          && offStruct + Off(old(tokens), k) + 4 * words <= buf.Length
          && buf[..] == Splat(old(buf[..]), offStruct + Off(old(tokens), k), NopBytes(words))
        case None =>
          && err == (if LeadEnd(old(tokens), i + 1) == |old(tokens)| - 1 then -FDT_ERR_BADSTRUCTURE
            else -FDT_ERR_NOTFOUND)
          && tokens == old(tokens) && buf[..] == old(buf[..])
    {
      hide Streams, CheckHeader, Decodes, LenOf, StringsOf, TagAlign, Good, FindProp, LeadEnd, Splat, Encodes,
        StringsApart, NopBytes;
      ghost var b, ts, z := View(), tokens, Strings();
      DataFits(b, ts);
      var found, offset, len := GetProperty(View(), node, name, tokens, i);
      if !found {
        return len;
      }
      ghost var k := FindProp(ts, z, i + 1, name).value;
      PropPlace(b, ts, k);
      PropWords(ts[k]);
      NopRegion(offStruct + offset, len + 12);
      tokens := ts[..k] + Nops(TokLen(ts[k]) / 4) + ts[k + 1..];
      OverwrittenGood(b, View(), ts, k, k + 1, TokLen(ts[k]) / 4);
      return 0;
    }

    /** `fdt_nop_node`: only the bytes of the node change. */
    method NopNode(node: int, ghost i: nat) returns (err: int)
      requires Valid() && StringsApart(View()) && i < |tokens| && tokens[i].BeginNode? && node == Off(tokens, i)
      modifies this`tokens, buf
      ensures Valid() && StringsApart(View()) && Strings() == old(Strings())
      ensures match NodeEnd(old(tokens), i + 1, 0)
        case Some(e) =>
          && err == 0 && i < e < |old(tokens)| && Off(old(tokens), i) <= Off(old(tokens), e)
          && var words := (Off(old(tokens), e) - Off(old(tokens), i)) / 4;
          && tokens == old(tokens)[..i] + Nops(words) + old(tokens)[e..]
          && Off(old(tokens), i) + 4 * words == Off(old(tokens), e) && offStruct + Off(old(tokens), e) <= buf.Length
          && buf[..] == Splat(old(buf[..]), offStruct + Off(old(tokens), i), NopBytes(words))
        case None => err == -FDT_ERR_NOTFOUND && tokens == old(tokens) && buf[..] == old(buf[..])
    {
      hide Streams, CheckHeader, Decodes, LenOf, StringsOf, TokLen, Good, NodeEnd, Splat, StringsApart, NopBytes, Off;
      ghost var b, ts := View(), tokens;
      DataFits(b, ts);
      NodeEndInside(ts, i + 1, 0, b);
      var endoffset := NodeEndOffset(View(), node, tokens, i);
      if endoffset < 0 {
        return endoffset;
      }
      ghost var e := NodeEnd(ts, i + 1, 0).value;
      OffInside(b, ts, i, e);
      OffAligned(ts, i);
      OffAligned(ts, e);
      NopRegion(offStruct + node, endoffset - node);
      tokens := ts[..i] + Nops((endoffset - node) / 4) + ts[e..];
      OverwrittenGood(b, View(), ts, i, e, (endoffset - node) / 4);
      return 0;
    }
  }

  /** The unsigned sums of `fdt_splice_` do not wrap. */
  lemma SpliceSums(d: nat, oldlen: nat, newlen: nat)
    requires d < INT_MAX && newlen < INT_MAX
    ensures U32(d) == d && U32(d + newlen) == d + newlen
    ensures oldlen <= d ==> U32(d - oldlen + newlen) == d - oldlen + newlen
  {
  }

  lemma VersionIsFree(b: Blob, b': Blob, ts: seq<Token>)
    requires Good(b, ts) && b' == b.(version := if b.version > 17 then 17 else b.version)
    ensures Good(b', ts) && (Ordered(b') <==> Ordered(b)) && b' == b.(version := 17)
  {
    hide Decodes;
  }

  lemma DataFits(b: Blob, ts: seq<Token>)
    requires Good(b, ts)
    ensures DataSize(b) <= b.totalsize <= |b.data| < INT_MAX && Placed(b) && StringsPlaced(b) && b.magic == FDT_MAGIC
    ensures Streams(b, ts) && RoProbe(b) >= 0
  {
    hide Streams;
    HeaderProbe(b);
  }

  lemma MatchesInside(z: bytes, p: nat, name: bytes)
    requires Matches(z, p, name)
    ensures p < |z|
  {
  }

  /** An empty tail moves nothing. */
  lemma SplatNothingAt(s: bytes, d: nat, n: nat)
    requires d + n <= |s|
    ensures Splat(s, d + n, s[d..d]) == s
  {
  }

  /** Where a property token lies. */
  lemma PropPlace(b: Blob, ts: seq<Token>, k: nat)
    requires Good(b, ts) && k < |ts| && ts[k].Prop?
    ensures k + 1 < |ts| && Off(ts, k + 1) == Off(ts, k) + 12 + TagAlign(|ts[k].value|) <= b.sizeStruct
    ensures Placed(b) && Encodes(b.data[b.offStruct + Off(ts, k)..b.offStruct + Off(ts, k + 1)], ts[k])
  {
    hide Decodes, LenOf, CheckHeader, Encodes, TagAlign, Streams, StructOf, RawLen, ReadTag;
    OffInside(b, ts, k, k + 1);
    TokenHere(b, ts, k);
    StreamsParts(b, ts);
    var s := StructOf(b)[..LenOf(ts)];
    TokenChunk(s, ts, k);
    DecodesLength(s, ts);
    StructBytes(b, LenOf(ts), Off(ts, k), Off(ts, k + 1));
    NotEndLast(ts, k);
  }

  lemma StructBytes(b: Blob, n: nat, x: nat, y: nat)
    requires Placed(b) && x <= y <= n <= b.sizeStruct
    ensures StructOf(b)[..n][x..y] == b.data[b.offStruct + x..b.offStruct + y]
  {
    assert StructOf(b)[..n] == b.data[b.offStruct..b.offStruct + n];
    SliceOfSlice(b.data, b.offStruct, b.offStruct + n, x, y);
  }

  lemma ResizedGood(b: Blob, b': Blob, ts: seq<Token>, k: nat, value: bytes)
    requires Good(b, ts) && Ordered(b) && k < |ts| && ts[k].Prop? && |value| < TWO32
    requires Grown(b, b', TagAlign(|value|) - TagAlign(|ts[k].value|))
    requires var p, n := b.offStruct + Off(ts, k), 12 + TagAlign(|value|);
      var q := p + 12 + TagAlign(|ts[k].value|);
      && q <= DataSize(b) <= |b.data| && p + n + (DataSize(b) - q) <= |b.data|
      && b'.data == PutValue(Splat(b.data, p + n, b.data[q..DataSize(b)]), p, value)
    ensures Good(b', ts[k := Prop(ts[k].nameoff, value)]) && Ordered(b') && StringsOf(b') == StringsOf(b)
    ensures b'.data[..b.offStruct] == b.data[..b.offStruct]
  {
    hide Decodes, LenOf, CheckHeader, Encodes, Splat, PutValue, Spliced, Streams, Ordered, StringsOf, TagAlign;
    PropPlace(b, ts, k);
    var p, n := b.offStruct + Off(ts, k), 12 + TagAlign(|value|);
    var q := b.offStruct + Off(ts, k + 1);
    ResizedBytes(b.data, p, q, DataSize(b), ts[k], value);
    var t := Prop(ts[k].nameoff, value);
    var c := b'.data[p..p + n];
    DecodesOne(c, t);
    EditGood(b, b', ts, k, k + 1, c, [t]);
    assert ts[..k] + [t] + ts[k + 1..] == ts[k := t];
  }

  lemma NotEndLast(ts: seq<Token>, k: nat)
    requires EndsOnce(ts) && k < |ts| && !ts[k].End?
    ensures k + 1 < |ts|
  {
  }

  lemma InsertedAt(ts: seq<Token>, i: nat, name: bytes, value: bytes, nameoff: u32, z: bytes)
    requires i < |ts| && StringAt(z, nameoff) == Some(name)
    ensures PropAdded(ts, i, name, value, ts[..i + 1] + [Prop(nameoff, value)] + ts[i + 1..], z)
  {
    hide StringAt;
    var ts' := ts[..i + 1] + [Prop(nameoff, value)] + ts[i + 1..];
    assert ts'[i + 1] == Prop(nameoff, value);
  }

  lemma AddedGood(b: Blob, b': Blob, ts: seq<Token>, i: nat, nameoff: u32, value: bytes)
    requires Good(b, ts) && Ordered(b) && i < |ts| && |value| < TWO32
    requires var n := 12 + TagAlign(|value|);
      && Grown(b, b', n)
      && var p := b.offStruct + Off(ts, i);
      && p <= DataSize(b) && DataSize(b) + n <= |b.data|
      && b'.data == PutValue(PutHead(Splat(b.data, p + n, b.data[p..DataSize(b)]), p, nameoff), p, value)
    ensures Good(b', ts[..i] + [Prop(nameoff, value)] + ts[i..]) && Ordered(b') && StringsOf(b') == StringsOf(b)
    ensures b'.data[..b.offStruct] == b.data[..b.offStruct]
  {
    hide Decodes, LenOf, CheckHeader, Encodes, Splat, PutValue, PutHead, Spliced, Streams, Ordered, StringsOf, TagAlign;
    var p, n := b.offStruct + Off(ts, i), 12 + TagAlign(|value|);
    AddedBytes(b.data, p, DataSize(b), nameoff, value);
    var c := b'.data[p..p + n];
    DecodesOne(c, Prop(nameoff, value));
    EditGood(b, b', ts, i, i, c, [Prop(nameoff, value)]);
  }

  /** Forgetting the string written last. */
  lemma RollbackGood(b: Blob, b': Blob, ts: seq<Token>, s: bytes)
    requires Good(b, ts) && Ordered(b) && DataSize(b) + |s| <= b.totalsize
    requires b' == b.(data := Splat(b.data, DataSize(b), s))
    ensures Good(b', ts) && Ordered(b') && StringsOf(b') == StringsOf(b)
    ensures b'.data[..b.offStruct] == b.data[..b.offStruct]
  {
    hide Streams, CheckHeader, Splat;
    var d := DataSize(b);
    SplatSlice(b.data, d, s, 0, b.offStruct + b.sizeStruct);
    SplatSlice(b.data, d, s, 0, b.offStruct);
    SplatSlice(b.data, d, s, b.offStrings, d);
    StreamsSame(b, b', ts);
    HeaderKept(b, b');
  }

  lemma StringsSame(b: Blob, b': Blob, ts: seq<Token>)
    requires Good(b, ts) && b' == b.(version := b'.version) && b'.version >= 17
    ensures Placed(b') && StringsPlaced(b') && StringsOf(b') == StringsOf(b)
  {
    hide Decodes, CheckHeader;
  }

  lemma {:induction false} FindPropIsProp(ts: seq<Token>, z: bytes, j: nat, name: bytes)
    ensures match FindProp(ts, z, j, name) case Some(k) => j <= k < |ts| && ts[k].Prop? case None => true
    decreases |ts| - j
  {
    if j < |ts| && (ts[j].Prop? || ts[j].Nop?) { FindPropIsProp(ts, z, j + 1, name); }
  }

  /** The tokens `i .. j` taken out by a splice. */
  lemma RemovedGood(b: Blob, b': Blob, ts: seq<Token>, i: nat, j: nat)
    requires Good(b, ts) && Ordered(b) && i <= j < |ts|
    requires var p, q := b.offStruct + Off(ts, i), b.offStruct + Off(ts, j);
      && p <= q <= DataSize(b) <= |b.data|
      && Grown(b, b', p - q) && b'.data == Splat(b.data, p, b.data[q..DataSize(b)])
    ensures Good(b', ts[..i] + ts[j..]) && Ordered(b') && StringsOf(b') == StringsOf(b)
    ensures b'.data[..b.offStruct] == b.data[..b.offStruct]
    ensures Spliced(b.data, b'.data, b.offStruct + Off(ts, i), b.offStruct + Off(ts, j), DataSize(b), [])
  {
    hide Decodes, LenOf, CheckHeader, Splat, Spliced, Streams, Ordered, StringsOf, Off;
    var p, q := b.offStruct + Off(ts, i), b.offStruct + Off(ts, j);
    RemovedBytes(b.data, p, q, DataSize(b));
    NothingDecodes();
    EditGood(b, b', ts, i, j, [], []);
    assert ts[..i] + [] + ts[j..] == ts[..i] + ts[j..];
  }

  lemma {:induction false} LeadEndInside(ts: seq<Token>, j: nat, b: Blob)
    requires Streams(b, ts) && j < |ts|
    ensures j <= LeadEnd(ts, j) < |ts|
    decreases |ts| - j
  {
    hide Streams;
    StreamsParts(b, ts);
    if ts[j].Prop? || ts[j].Nop? {
      NotEndLast(ts, j);
      LeadEndInside(ts, j + 1, b);
    }
  }

  lemma {:induction false} NodeEndInside(ts: seq<Token>, j: nat, d: nat, b: Blob)
    requires Streams(b, ts)
    ensures match NodeEnd(ts, j, d) case Some(e) => j < e < |ts| case None => true
    decreases |ts| - j
  {
    hide Streams;
    StreamsParts(b, ts);
    if j < |ts| && !ts[j].End? {
      NotEndLast(ts, j);
      if ts[j].BeginNode? { NodeEndInside(ts, j + 1, d + 1, b); }
      else if !ts[j].EndNode? { NodeEndInside(ts, j + 1, d, b); }
      else if d > 0 { NodeEndInside(ts, j + 1, d - 1, b); }
    }
  }

  lemma OffAligned(ts: seq<Token>, i: nat)
    requires i <= |ts|
    ensures Off(ts, i) % 4 == 0
  {
    LenAligned(ts[..i]);
  }

  lemma PropWords(t: Token)
    requires t.Prop?
    ensures (|t.value| + 12 + 3) / 4 == TokLen(t) / 4 && TokLen(t) == 4 * (TokLen(t) / 4)
  {
  }

  /** The blob after the tail has been moved to make the value of token `k` `newlen` bytes long. */
  predicate ValueMoved(b: Blob, ts: seq<Token>, k: nat, s: bytes, newlen: nat) {
    && k < |ts| && ts[k].Prop?
    && var o := Off(ts, k) + 12;
    && var oldlen := TagAlign(|ts[k].value|);
    && b.offStruct + o + oldlen <= DataSize(b) <= |b.data| && DataSize(b) - oldlen + TagAlign(newlen) <= |b.data|
    && s == Splat(b.data, b.offStruct + o + TagAlign(newlen), b.data[b.offStruct + o + oldlen..DataSize(b)])
  }

  lemma ValueRoom(b: Blob, ts: seq<Token>, k: nat)
    requires Good(b, ts) && Ordered(b) && k < |ts| && ts[k].Prop?
    ensures Off(ts, k) + 12 + TagAlign(|ts[k].value|) <= b.sizeStruct &&
      b.offStruct + b.sizeStruct <= DataSize(b) <= |b.data|
    ensures DataSize(b) <= b.totalsize <= |b.data| < INT_MAX
  {
    hide Streams, CheckHeader, Decodes, LenOf, Encodes, Off, TagAlign;
    DataFits(b, ts);
    PropPlace(b, ts, k);
  }

  /** The old value is still in its place after the move. */
  lemma OldValue(b: Blob, ts: seq<Token>, k: nat, s: bytes, newlen: nat)
    requires Good(b, ts) && ValueMoved(b, ts, k, s, newlen) && |ts[k].value| <= newlen
    ensures var p := b.offStruct + Off(ts, k);
      p + 12 + newlen <= |s| && s[p + 12..p + 12 + |ts[k].value|] == ts[k].value
  {
    hide Streams, CheckHeader, Decodes, LenOf, Encodes, Off, TagAlign, Splat;
    PropPlace(b, ts, k);
    var p, l := b.offStruct + Off(ts, k), |ts[k].value|;
    ValueBytes(b.data[p..p + 12 + TagAlign(l)], ts[k]);
    SliceOfSlice(b.data, p, p + 12 + TagAlign(l), 12, 12 + l);
    SplatSlice(b.data, p + 12 + TagAlign(newlen), b.data[p + 12 + TagAlign(l)..DataSize(b)], p + 12, p + 12 + l);
  }

  /** The new value in its place. */
  lemma ResizedFrom(b: Blob, b': Blob, ts: seq<Token>, k: nat, s: bytes, value: bytes)
    requires Good(b, ts) && Ordered(b) && |value| < TWO32 && ValueMoved(b, ts, k, s, |value|)
    requires Grown(b, b', TagAlign(|value|) - TagAlign(|ts[k].value|))
    requires b.offStruct + Off(ts, k) + 12 + |value| <= |s| && b'.data == PutValue(s, b.offStruct + Off(ts, k), value)
    ensures Good(b', ts[k := Prop(ts[k].nameoff, value)]) && Ordered(b') && StringsOf(b') == StringsOf(b)
    ensures b'.data[..b.offStruct] == b.data[..b.offStruct]
  {
    hide Streams, CheckHeader, Decodes, LenOf, Encodes, Off, TagAlign, Splat, PutValue, Good, StringsOf, Ordered, Grown;
    ResizedGood(b, b', ts, k, value);
  }

  lemma ValueBytes(c: bytes, t: Token)
    requires t.Prop? && Encodes(c, t)
    ensures 12 + |t.value| <= |c| && c[12..12 + |t.value|] == t.value
  {
  }

  lemma NodeAddedGood(b: Blob, b': Blob, ts: seq<Token>, k: nat, name: bytes)
    requires Good(b, ts) && Ordered(b) && k < |ts| && NoNul(name)
    requires var n := 8 + TagAlign(|name| + 1);
      && Grown(b, b', n)
      && var p := b.offStruct + Off(ts, k);
      && p <= DataSize(b) && DataSize(b) + n <= |b.data|
      && b'.data == PutNode(Splat(b.data, p + n, b.data[p..DataSize(b)]), p, name)
    ensures Good(b', ts[..k] + [BeginNode(name), EndNode] + ts[k..]) && Ordered(b') && StringsOf(b') == StringsOf(b)
    ensures b'.data[..b.offStruct] == b.data[..b.offStruct]
    ensures HoleFilled(b.data, b'.data, b.offStruct + Off(ts, k), DataSize(b), 8 + TagAlign(|name| + 1))
  {
    hide Decodes, LenOf, CheckHeader, Splat, PutNode, Spliced, Streams, Ordered, StringsOf, TagAlign, Off;
    var p, n := b.offStruct + Off(ts, k), 8 + TagAlign(|name| + 1);
    NodeBytes(b.data, p, DataSize(b), name);
    EditGood(b, b', ts, k, k, b'.data[p..p + n], [BeginNode(name), EndNode]);
  }
}
