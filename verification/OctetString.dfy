/**
  A codec that keeps the contract asked of the macros' `f` and `func`: primitive octet strings
  (ITU-T X.690, section 8.7), so the results about well-formed schemas speak of something.
 */
module OctetString {
  import opened Octets
  import opened Schema

  const V_ASN1_OCTET_STRING: TagNumber := 4

  function I2D(v: seq<byte>): (r: seq<byte>)
    ensures |r| >= 1
  {
    [V_ASN1_OCTET_STRING] + LengthOctets(|v|) + v
  }

  function D2I(b: seq<byte>): (r: Option<(seq<byte>, nat)>)
    ensures r.Some? ==> 1 <= r.value.1 <= |b|
  {
    match GetObject(b)
    case None => None
    case Some(h) =>
      if h.inf == 0 && h.tag == V_ASN1_OCTET_STRING
      then Some((b[h.size..h.size + h.length], h.size + h.length)) else None
  }

  function OctetStringCodec(): Codec<seq<byte>> {
    CodecFunctions(I2D, D2I, (v: seq<byte>) => |v| <= 0x7fff_0000, {V_ASN1_OCTET_STRING})
  }

  lemma ReadBack(v: seq<byte>, tail: seq<byte>)
    requires |v| <= 0x7fff_0000
    ensures D2I(I2D(v) + tail) == Some((v, |I2D(v)|))
  {
    hide LengthOctets, ParseLength;
    var h := [V_ASN1_OCTET_STRING] + LengthOctets(|v|);
    var b := I2D(v) + tail;
    LengthRoundTrip(|v|, v + tail);
    assert b[1..] == LengthOctets(|v|) + (v + tail);
    assert GetObject(b) == Some(Header(|h|, 0, |v|, V_ASN1_OCTET_STRING));
    SecondOfThree(h, v, tail);
  }

  /** The contract can be met. */
  lemma OctetStringFaithful()
    ensures Faithful(OctetStringCodec())
  {
    forall v, tail | OctetStringCodec().valid(v)
      ensures OctetStringCodec().d2i(OctetStringCodec().i2d(v) + tail) == Some((v, |OctetStringCodec().i2d(v)|))
    {
      ReadBack(v, tail);
    }
  }
}
