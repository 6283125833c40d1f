/**
  A value written by one program and read by another, both run over the same buffer.
 */
module Transfer {
  import opened Octets
  import opened Schema
  import opened RoundTrip
  import opened Laws
  import opened Objects
  import Encoder
  import Decoder
  import Reuse

  /** The writer and the reader may differ in which lengths they make indefinite.  Unless an
      allocation is refused, the reader finds the value that was written, whatever octets follow it,
      stops just behind it, and leaves in the buffer what the writer put there. */
  method WriteThenRead<V(!new)>(
    writer: Schema<V>, reader: Schema<V>, v: Value<V>, buf: array<byte>, pp: nat, heap: Heap)
    returns (ret: Option<Obj<V>>, next: nat)
    requires WellFormed(writer) && Encodable(writer, v) && AsDefinite(writer) == AsDefinite(reader)
    requires pp + |Encode(writer, v)| <= buf.Length
    requires heap.Valid()
    modifies buf, heap
    ensures buf[..] == Encoder.Splice(old(buf[..]), pp, Encode(writer, v))
    ensures heap.refused >= old(heap.refused)
    ensures ret.Some? <==> heap.refused == old(heap.refused)
    ensures ret.Some? ==>
              && next == pp + |Encode(writer, v)| && Content(ret.value) == Canonical(writer, v)
              && heap.live == old(heap.live) + Ids(ret.value)
    ensures ret.None? ==> next == pp && heap.live == old(heap.live)
  {
    hide Encode, Decode, Canonical, WellFormed, Fits, Complete, AsDefinite, Content, Ids, Encoder.Splice;
    hide Decoder.Outcome, Balanced, Decoder.Window;
    var n, end := Encoder.I2D(writer, Some(v), buf, Some(pp));
    ghost var b, e := buf[..], Encode(writer, v);
    WrittenThere(old(buf[..]), pp, e);
    ghost var tail := b[pp + |e|..];
    FormsAgree(writer, reader, v, tail);
    Decoder.NoId<V>();
    var a;
    ret, next, a := Decoder.D2I(reader, buf, b, pp, buf.Length - pp, Null, heap);
    ghost var granted := heap.refused == old(heap.refused);
    Reuse.NothingLeaks(reader, Decoder.Window(b, pp, |b| - pp), Null, granted, ret, next - pp, a,
                       old(heap.live), heap.live);
    ReadBack(reader, Canonical(writer, v), e, tail, granted, ret, next - pp, a);
  }

  lemma WrittenThere(b0: seq<byte>, pp: nat, e: seq<byte>)
    requires pp + |e| <= |b0| && |e| >= 1
    ensures var b := Encoder.Splice(b0, pp, e);
            Decoder.Window(b, pp, |b| - pp) == e + b[pp + |e|..]
  {
  }

  lemma ReadBack<V(!new)>(
    s: Schema<V>, v: Value<V>, e: seq<byte>, tail: seq<byte>, granted: bool,
    ret: Option<Obj<V>>, moved: int, a: Slot<V>)
    requires Decode(s, e + tail) == Some((v, |e|))
    requires Decoder.Outcome(s, e + tail, Null, granted, ret, moved, a)
    ensures ret.Some? <==> granted
    ensures ret.Some? ==> moved == |e| && Content(ret.value) == v
    ensures ret.None? ==> moved == 0
  {
    hide Decode, Content, Fits, Ids;
  }
}
