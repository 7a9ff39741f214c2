/** What a blob says, independent of offsets: node boundaries and named properties in order. */
module FdtEvents {
  import opened Words
  import opened FdtTokens
  import opened FdtStrings

  datatype Event = BeginE(name: bytes) | EndE | PropE(name: bytes, value: bytes)

  /** Where a name offset points in a strings block: from its start, or (while a blob is being written)
      backwards from its end as a negative 32-bit number. */
  function NameIndex(size: nat, nameoff: u32, fromEnd: bool): int {
    if fromEnd then size - (TWO32 - nameoff) else nameoff
  }

  /** Token `t` says event `e`, with names looked up in the strings block `z`. */
  predicate Says(z: bytes, t: Token, e: Event, fromEnd: bool) {
    match t
    case BeginNode(name) => e == BeginE(name)
    case EndNode => e == EndE
    case Prop(off, value) =>
      var k := NameIndex(|z|, off, fromEnd);
      e.PropE? && e.value == value && k >= 0 && StringAt(z, k) == Some(e.name)
    case _ => false
  }

  lemma SaysProp(z: bytes, nameoff: u32, name: bytes, value: bytes)
    requires NameIndex(|z|, nameoff, true) >= 0 && StringAt(z, NameIndex(|z|, nameoff, true)) == Some(name)
    ensures Says(z, Prop(nameoff, value), PropE(name, value), true)
  {
  }

  predicate SayAll(z: bytes, ts: seq<Token>, es: seq<Event>, fromEnd: bool) {
    |ts| == |es| && forall i :: 0 <= i < |ts| ==> Says(z, ts[i], es[i], fromEnd)
  }

  /** The events of a finished stream: NOPs say nothing, the stream ends with FDT_END. */
  function EventsOf(z: bytes, ts: seq<Token>): Option<seq<Event>> {
    if ts == [] then None
    else if ts[0].End? then (if |ts| == 1 then Some([]) else None)
    else if ts[0].Nop? then EventsOf(z, ts[1..])
    else
      match EventsOf(z, ts[1..])
      case None => None
      case Some(rest) =>
        match ts[0]
        case BeginNode(name) => Some([BeginE(name)] + rest)
        case EndNode => Some([EndE] + rest)
        case Prop(off, value) =>
          match StringAt(z, off)
          case None => None
          case Some(name) => Some([PropE(name, value)] + rest)
  }

  lemma {:induction false} EventsOfSaid(z: bytes, ts: seq<Token>, es: seq<Event>)
    requires SayAll(z, ts, es, false)
    ensures EventsOf(z, ts + [End]) == Some(es)
  {
    if ts == [] {
      assert ts + [End] == [End];
    } else {
      assert (ts + [End])[1..] == ts[1..] + [End] && (ts + [End])[0] == ts[0];
      assert Says(z, ts[0], es[0], false);
      forall i | 0 <= i < |ts[1..]| ensures Says(z, ts[1..][i], es[1..][i], false) {
        assert Says(z, ts[i + 1], es[i + 1], false);
      }
      EventsOfSaid(z, ts[1..], es[1..]);
      assert es == [es[0]] + es[1..];
    }
  }

  /** Names are not disturbed when the strings block grows at its front, while the blob is being written. */
  lemma SayAllPrepend(more: bytes, z: bytes, ts: seq<Token>, es: seq<Event>)
    requires SayAll(z, ts, es, true)
    ensures SayAll(more + z, ts, es, true)
  {
    forall i | 0 <= i < |ts| ensures Says(more + z, ts[i], es[i], true) {
      assert Says(z, ts[i], es[i], true);
      if ts[i].Prop? { StringAtPrepend(more, z, NameIndex(|z|, ts[i].nameoff, true)); }
    }
  }

  lemma SayOneMore(z: bytes, ts: seq<Token>, es: seq<Event>, t: Token, e: Event, fromEnd: bool)
    requires SayAll(z, ts, es, fromEnd) && Says(z, t, e, fromEnd)
    ensures SayAll(z, ts + [t], es + [e], fromEnd)
  {
    forall i | 0 <= i < |ts| + 1 ensures Says(z, (ts + [t])[i], (es + [e])[i], fromEnd) {
      if i < |ts| { assert Says(z, ts[i], es[i], fromEnd); }
    }
  }
}
