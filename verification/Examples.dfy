/**
  Programs and inputs over octet strings: one that meets every condition, and ones that lose values.
 */
module Examples {
  import opened Octets
  import opened Schema
  import opened RoundTrip
  import opened Objects
  import opened OctetString
  import Decoder
  import Laws
  import Reuse
  import Wrappers

  const STRING: Schema<seq<byte>> := Leaf(OctetStringCodec())

  lemma StringFacts()
    ensures WellFormed(STRING) && FirstOctets(STRING) == {V_ASN1_OCTET_STRING}
  {
    OctetStringFaithful();
  }

  /** The codec takes the element it is shown. */
  lemma OctetStringDelimits()
    ensures Wrappers.Delimits(OctetStringCodec()) && Wrappers.Delimited(STRING)
  {
    forall b | OctetStringCodec().d2i(b).Some?
      ensures !AtEndOfContents(b) && Wrappers.Element(b) == Some(OctetStringCodec().d2i(b).value.1)
    {
      StringElement(b);
    }
  }

  lemma StringElement(b: seq<byte>)
    requires D2I(b).Some?
    ensures !AtEndOfContents(b) && Wrappers.Element(b) == Some(D2I(b).value.1)
  {
    hide ParseLength;
  }

  // ----- A program with every kind of field -----

  /** A SEQUENCE with a mandatory string, an IMPLICIT one, an optional list of strings and an
      EXPLICIT SEQUENCE, with lengths in either form. */
  function Sample(form: Form): Schema<seq<byte>> {
    Sequence(form,
      [Field(Get, STRING)]
      + ([Field(Imp(0, V_ASN1_OCTET_STRING), STRING)]
         + ([Field(SeqOpt, SequenceOf(V_ASN1_SEQUENCE, STRING))]
            + ([Field(Exp(1, form), Inner(form))] + []))))
  }

  function Inner(form: Form): Schema<seq<byte>> {
    Sequence(form, [Field(Opt(V_ASN1_OCTET_STRING), STRING)] + [])
  }

  lemma PutBefore(f: Field<seq<byte>>, rest: seq<Field<seq<byte>>>)
    requires WellFormedField(f) && WellFormedFields(rest)
    requires !f.rule.Get? ==> OwnGuard(f) && !MatchesOctet(f, 0)
    requires !f.rule.Get? ==> forall o :: o in RunOctets(rest) ==> !MatchesOctet(f, o)
    ensures WellFormedFields([f] + rest)
    ensures RunOctets([f] + rest) == if f.rule.Get? then FieldOctets(f) else FieldOctets(f) + RunOctets(rest)
  {
    hide WellFormedField, FieldOctets, MatchesOctet;
    assert ([f] + rest)[1..] == rest;
  }

  /** Such a program meets every condition of the results about well-formed schemas. */
  lemma SampleWellFormed(form: Form)
    ensures WellFormed(Sample(form))
  {
    hide WellFormedFields, RunOctets, FieldOctets, MatchesOctet, WellFormedField;
    SampleGuards(form);
    NoFields();
    var f3 := [Field(Exp(1, form), Inner(form))] + [];
    PutBefore(Field(Exp(1, form), Inner(form)), []);
    var f2 := [Field(SeqOpt, SequenceOf(V_ASN1_SEQUENCE, STRING))] + f3;
    PutBefore(Field(SeqOpt, SequenceOf(V_ASN1_SEQUENCE, STRING)), f3);
    PutBefore(Field(Imp(0, V_ASN1_OCTET_STRING), STRING), f2);
    PutBefore(Field(Get, STRING), [Field(Imp(0, V_ASN1_OCTET_STRING), STRING)] + f2);
  }

  lemma InnerWellFormed(form: Form)
    ensures WellFormed(Inner(form))
  {
    hide WellFormedFields, RunOctets, Faithful, OctetStringCodec;
    StringFacts();
    NoFields();
    PutBefore(Field(Opt(V_ASN1_OCTET_STRING), STRING), []);
  }

  lemma SampleGuards(form: Form)
    ensures WellFormedField(Field(Get, STRING))
    ensures var implicit := Field(Imp(0, V_ASN1_OCTET_STRING), STRING);
            var list := Field(SeqOpt, SequenceOf(V_ASN1_SEQUENCE, STRING));
            var explicit := Field(Exp(1, form), Inner(form));
            && WellFormedField(implicit) && WellFormedField(list) && WellFormedField(explicit)
            && OwnGuard(implicit) && OwnGuard(list) && OwnGuard(explicit)
            && !MatchesOctet(implicit, 0) && !MatchesOctet(list, 0) && !MatchesOctet(explicit, 0)
            && (forall o :: o in FieldOctets(list) + FieldOctets(explicit) ==> !MatchesOctet(implicit, o))
            && (forall o :: o in FieldOctets(explicit) ==> !MatchesOctet(list, o))
  {
    hide Inner, OctetStringCodec, Faithful, WellFormedFields;
    InnerWellFormed(form);
    StringFacts();
    assert FieldOctets(Field(SeqOpt, SequenceOf(V_ASN1_SEQUENCE, STRING))) == {0x30};
    assert FieldOctets(Field(Exp(1, form), Inner(form))) == {0xa1};
    assert OwnGuard(Field(Imp(0, V_ASN1_OCTET_STRING), STRING));
    hide FieldOctets;
  }

  lemma NoFields()
    ensures WellFormedFields<seq<byte>>([]) && RunOctets<seq<byte>>([]) == {}
  {
  }

  // ----- Tags that are alike -----

  /** An EXPLICIT and an IMPLICIT field may share a tag: their first octets differ in the constructed
      bit, and the guard of the EXPLICIT field looks at it. */
  lemma SharedTagWellFormed(form: Form, tag: TagNumber)
    ensures WellFormed(Sequence(form, [Field(Exp(tag, form), STRING)]
                                      + ([Field(Imp(tag, V_ASN1_OCTET_STRING), STRING)] + [])))
  {
    hide WellFormedFields, RunOctets, FieldOctets, MatchesOctet, WellFormedField;
    SharedTagGuards(form, tag);
    NoFields();
    var implicit := Field(Imp(tag, V_ASN1_OCTET_STRING), STRING);
    PutBefore(implicit, []);
    PutBefore(Field(Exp(tag, form), STRING), [implicit] + []);
  }

  lemma SharedTagGuards(form: Form, tag: TagNumber)
    ensures var implicit, explicit := Field(Imp(tag, V_ASN1_OCTET_STRING), STRING), Field(Exp(tag, form), STRING);
            && WellFormedField(implicit) && WellFormedField(explicit) && OwnGuard(implicit) && OwnGuard(explicit)
            && !MatchesOctet(implicit, 0) && !MatchesOctet(explicit, 0)
            && forall o :: o in FieldOctets(implicit) ==> !MatchesOctet(explicit, o)
  {
    hide WellFormed, FirstOctets;
    StringFacts();
  }

  // ----- Short values -----

  predicate ShortString(ov: Option<Value<seq<byte>>>) {
    ov.Some? ==> ov.value.LeafValue? && |ov.value.v| <= 1000
  }

  lemma ShortLength(n: nat)
    requires n <= 0x7fff_0000
    ensures 1 <= |LengthOctets(n)| <= 5
  {
    if 128 <= n {
      DigitsOfInt(n);
    }
  }

  lemma ShortField(f: Field<seq<byte>>, ov: Option<Value<seq<byte>>>)
    requires f.item == STRING && (f.rule.Get? || f.rule.Opt?) && (f.rule.Get? ==> ov.Some?) && ShortString(ov)
    ensures FitsField(f, ov) && CompleteField(f, ov) && |EncodeField(f, ov)| <= 2000
    ensures ov.Some? ==>
              Present(f.rule, ov) && EncodeField(f, ov) != [] && EncodeField(f, ov)[0] == V_ASN1_OCTET_STRING
  {
    if ov.Some? {
      hide LengthOctets;
      ShortLength(|ov.value.v|);
    }
  }

  lemma ShortPair(form: Form, f: Field<seq<byte>>, g: Field<seq<byte>>,
                  x: Option<Value<seq<byte>>>, y: Option<Value<seq<byte>>>)
    requires FitsField(f, x) && CompleteField(f, x) && |EncodeField(f, x)| <= 2000
    requires FitsField(g, y) && CompleteField(g, y) && |EncodeField(g, y)| <= 2000
    ensures Encodable(Sequence(form, [f, g]), SeqValue([x, y]))
  {
    hide FitsField, CompleteField, EncodeField, LengthOctets;
    assert [f, g][1..] == [g] && [x, y][1..] == [y] && [g][1..] == [] && [y][1..] == [];
    assert FitsFields<seq<byte>>([], []) && CompleteFields<seq<byte>>([], []) && EncodeFields<seq<byte>>([], []) == [];
    assert FitsFields([g], [y]) && CompleteFields([g], [y]);
    assert EncodeFields([g], [y]) == EncodeField(g, y) + [];
    assert FitsFields([f, g], [x, y]) && CompleteFields([f, g], [x, y]);
    assert |EncodeFields([f, g], [x, y])| <= 4000;
    ShortLength(|EncodeFields([f, g], [x, y])|);
  }

  /** An optional string and then a mandatory one. */
  function Ambiguous(form: Form): Schema<seq<byte>> {
    Sequence(form, [Field(Opt(V_ASN1_OCTET_STRING), STRING), Field(Get, STRING)])
  }

  /** Without the optional string, no value comes back. */
  lemma OptionalThenMandatory(form: Form, x: seq<byte>, tail: seq<byte>)
    requires |x| <= 1000
    ensures var s, v := Ambiguous(form), SeqValue([None, Some(LeafValue(x))]);
            Encodable(s, v) && Decode(s, Encode(s, v) + tail) != Some((Canonical(s, v), |Encode(s, v)|))
  {
    hide Encodable, Decode, Encode, Canonical, WellFormed, FirstOctets, Dependable, OctetStringCodec;
    hide EncodeField, FitsField, CompleteField;
    WellFormedDependable(STRING) by { StringFacts(); }
    var f, g := Field(Opt(V_ASN1_OCTET_STRING), STRING), Field(Get, STRING);
    StringFacts();
    ShortField(f, None);
    ShortField(g, Some(LeafValue(x)));
    ShortPair(form, f, g, None, Some(LeafValue(x)));
    Laws.OptionalBeforeItself(form, STRING, V_ASN1_OCTET_STRING, LeafValue(x), tail);
  }

  /** The exact condition on guards speaks of this program too, and refuses it. */
  lemma AmbiguousNotTransparent(form: Form)
    ensures !Laws.GuardsTellApart(Ambiguous(form).fields) && !Laws.Transparent(Ambiguous(form))
  {
    hide Laws.Transparent, Laws.Exercised, Dependable, ClearAfter, SoundFields, OctetStringCodec, WellFormed;
    var fs := Ambiguous(form).fields;
    StringFacts();
    assert Laws.InPlaceOf(fs, 0, 1) && V_ASN1_OCTET_STRING in FieldOctets(fs[1]);
    hide Laws.GuardsTellApart;
    AmbiguousExercised(form);
    Laws.GuardsExact(form, fs);
  }

  lemma AmbiguousExercised(form: Form)
    ensures SoundFields(Ambiguous(form).fields) && Laws.Exercised(form, Ambiguous(form).fields)
  {
    hide Encodable, WellFormed, Dependable, OctetStringCodec, EncodeField, FitsField, CompleteField;
    var fs := Ambiguous(form).fields;
    StringFacts();
    WellFormedDependable(STRING);
    var x := Some(LeafValue([]));
    ShortField(fs[0], x);
    ShortField(fs[0], None);
    ShortField(fs[1], x);
    ShortPair(form, fs[0], fs[1], x, x);
    ShortPair(form, fs[0], fs[1], None, x);
    assert Laws.Least(form, fs, [None, x]);
    assert Laws.Lone(form, fs, 0, V_ASN1_OCTET_STRING, [x, x]);
    assert Laws.Lone(form, fs, 1, V_ASN1_OCTET_STRING, [None, x]);
  }

  // ----- Wrappers that are loose inside -----

  /** A SEQUENCE with one EXPLICIT string. */
  function Wrapped(form: Form): Schema<seq<byte>> {
    Sequence(form, [Field(Exp(0, form), STRING)])
  }

  /** The string 61. */
  const LETTER: seq<byte> := [4, 1, 0x61]

  /** In indefinite length, that string in a wrapper with room for `pad` behind it, and then `more`. */
  function Roomy(pad: seq<byte>, more: seq<byte>): seq<byte>
    requires |pad| <= 100
  {
    [0x30, 0x80] + Wrapper(pad, more)
  }

  function Wrapper(pad: seq<byte>, more: seq<byte>): seq<byte>
    requires |pad| <= 100
  {
    [0xa0, 3 + |pad|] + (LETTER + pad + more)
  }

  lemma ShortHeader(o: byte, length: nat, rest: seq<byte>)
    requires o % 32 != 31 && length < 128 && length <= |rest|
    ensures GetObject([o, length] + rest) == Some(Header(2, ConstructedBit(o), length, Tag(o)))
  {
    assert ([o, length] + rest)[1..] == [length] + rest;
  }

  lemma StringRead(pad: seq<byte>)
    ensures Decode(STRING, LETTER + pad) == Some((LeafValue([0x61]), 3))
  {
    hide GetObject;
    var b := LETTER + pad;
    ShortHeader(V_ASN1_OCTET_STRING, 1, [0x61] + pad);
    assert b == [V_ASN1_OCTET_STRING, 1] + ([0x61] + pad);
    assert b[2..3] == [0x61];
  }

  lemma WrapperRead(form: Form, pad: seq<byte>, more: seq<byte>)
    requires |pad| <= 100
    ensures DecodeField(Field(Exp(0, form), STRING), Wrapper(pad, more)) == Some((Some(LeafValue([0x61])), 5))
  {
    hide GetObject, Decode;
    WrapperHeader(pad, more);
    StringRead(pad);
  }

  lemma WrapperHeader(pad: seq<byte>, more: seq<byte>)
    requires |pad| <= 100
    ensures var w := Wrapper(pad, more);
            && GetObject(w) == Some(Header(2, CONSTRUCTED, 3 + |pad|, CONTEXT_SPECIFIC))
            && w[2..2 + (3 + |pad|)] == LETTER + pad && w[5..] == pad + more && w[5 + |pad|..] == more
            && |w| == 5 + |pad| + |more| && !AtEndOfContents(w)
  {
    hide GetObject;
    var contents := LETTER + pad;
    ShortHeader(0xa0, 3 + |pad|, contents + more);
    assert contents + more == LETTER + (pad + more);
    assert Wrapper(pad, more) == [0xa0, 3 + |pad|] + contents + more;
    assert Wrapper(pad, more) == [0xa0, 3 + |pad|] + LETTER + (pad + more);
  }

  /** What stands behind the string, in the wrapper or not, is taken for the end of the SEQUENCE. */
  lemma RoomyRead(form: Form, pad: seq<byte>, more: seq<byte>)
    requires |pad| <= 100 && AtEndOfContents(pad + more)
    ensures Decode(Wrapped(form), Roomy(pad, more)) == Some((SeqValue([Some(LeafValue([0x61]))]), 9))
    ensures Wrappers.Extent(Wrapped(form), Roomy(pad, more)) == Some(9)
  {
    hide GetObject, DecodeFields, Wrapper;
    var b, w := Roomy(pad, more), Wrapper(pad, more);
    OneFieldRead(form, pad, more);
    assert b == IndefiniteHeader(V_ASN1_SEQUENCE) + w;
    IndefiniteHeaderRead(V_ASN1_SEQUENCE, w);
    assert b[2..] == w;
    assert Decode(Wrapped(form), b) == Some((SeqValue([Some(LeafValue([0x61]))]), 9));
    hide Decode, Wrappers.Extent, Wrappers.Delimited;
    WrappedDelimited(form);
    Wrappers.TakesExtent(Wrapped(form), b);
  }

  lemma OneFieldRead(form: Form, pad: seq<byte>, more: seq<byte>)
    requires |pad| <= 100
    ensures var w := Wrapper(pad, more);
            && DecodeFields(Wrapped(form).fields, w) == Some(([Some(LeafValue([0x61]))], 5))
            && w[5..] == pad + more
  {
    hide DecodeField, DecodeFields, FitsFields, Wrapper;
    WrapperHeader(pad, more);
    WrapperRead(form, pad, more);
    OnlyField(Field(Exp(0, form), STRING), Wrapper(pad, more), Some(LeafValue([0x61])), 5);
  }

  lemma OnlyField(f: Field<seq<byte>>, w: seq<byte>, ov: Option<Value<seq<byte>>>, n: nat)
    requires DecodeField(f, w) == Some((ov, n))
    ensures DecodeFields([f], w) == Some(([ov], n))
  {
    hide DecodeField, FitsFields;
    assert [f][1..] == [] && [ov] + [] == [ov];
    assert DecodeFields<seq<byte>>([], w[n..]) == Some(([], 0));
  }

  lemma WrappedDelimited(form: Form)
    ensures Wrappers.Delimited(Wrapped(form))
  {
    hide Wrappers.Delimits;
    OctetStringDelimits();
    var f := Field(Exp(0, form), STRING);
    assert [f][1..] == [] && Wrappers.DelimitedField(f) && Wrappers.DelimitedFields<seq<byte>>([]);
    assert Wrappers.DelimitedFields([f]);
  }

  /** 30 80 A0 07 04 01 61 00 00 00 00 00 00: one element by its headers, of which the program takes
      nine octets, so a wrapper around it is not used up. */
  lemma OneElementNotTaken(form: Form)
    ensures var b := Roomy([0, 0, 0, 0], [0, 0]);
            && Wrappers.Element(b) == Some(|b|) && |b| == 13
            && Decode(Wrapped(form), b) == Some((SeqValue([Some(LeafValue([0x61]))]), 9))
            && Wrappers.Extent(Wrapped(form), b) == Some(9)
  {
    hide Decode, Wrappers.Extent, Wrappers.Element, Wrappers.UntilEnd, Roomy, Wrapped;
    var pad: seq<byte>, more: seq<byte> := [0, 0, 0, 0], [0, 0];
    Wrappers.EndTakesTwo(more);
    assert AtEndOfContents(pad + more);
    hide AtEndOfContents;
    RoomyRead(form, pad, more);
    RoomyElement(pad, more);
  }

  /** 30 80 A0 05 04 01 61 00 00: by its headers no element, and taken to its last octet, so a wrapper
      around it is used up. */
  lemma TakenThoughNoElement(form: Form)
    ensures var b := Roomy([0, 0], []);
            && Wrappers.Element(b) == None && |b| == 9
            && Decode(Wrapped(form), b) == Some((SeqValue([Some(LeafValue([0x61]))]), |b|))
            && Wrappers.Extent(Wrapped(form), b) == Some(|b|)
  {
    hide Decode, Wrappers.Extent, Wrappers.Element, Roomy, Wrapped;
    RoomyRead(form, [0, 0], []);
    RoomyElement([0, 0], []);
    assert Wrappers.Element([]) == None;
  }

  /** By the headers the element ends where the end-of-contents behind the wrapper does. */
  lemma RoomyElement(pad: seq<byte>, more: seq<byte>)
    requires |pad| <= 100
    ensures |Roomy(pad, more)| == 7 + |pad| + |more|
    ensures Wrappers.Element(Roomy(pad, more)) == Wrappers.Plus(7 + |pad|, Wrappers.UntilEnd(more))
  {
    hide GetObject, Wrapper, AtEndOfContents, Wrappers.UntilEnd;
    var b, w := Roomy(pad, more), Wrapper(pad, more);
    assert b == IndefiniteHeader(V_ASN1_SEQUENCE) + w;
    IndefiniteHeaderRead(V_ASN1_SEQUENCE, w);
    WrapperHeader(pad, more);
    assert b[2..] == w;
    assert Wrappers.Element(w) == Some(5 + |pad|);
    FirstElement(w, 5 + |pad|);
  }

  lemma FirstElement(w: seq<byte>, n: nat)
    requires Wrappers.Element(w) == Some(n) && !AtEndOfContents(w)
    ensures Wrappers.UntilEnd(w) == Wrappers.Plus(n, Wrappers.UntilEnd(w[n..]))
  {
    hide Wrappers.Element, AtEndOfContents;
  }

  // ----- Objects that are reused -----

  /** A string left in the object shows through where the encoding has none. */
  lemma StaleString(
    form: Form, x: seq<byte>, tail: seq<byte>, ret: Option<Obj<seq<byte>>>, moved: int, a': Slot<seq<byte>>)
    requires var held: Slot<seq<byte>> := To(Some(SeqObj(0, [Some(LeafObj(1, x))])));
             Decoder.Outcome(Inner(form), Frame(V_ASN1_SEQUENCE, form, []) + tail, held, true, ret, moved, a')
    ensures ret.Some? && Content(ret.value) != SeqValue([None])
  {
    hide Decode, WellFormedFields, RunOctets, Faithful, OctetStringCodec, Decoder.Outcome, Content, LengthOctets;
    StringFacts();
    NoFields();
    var f := Field(Opt(V_ASN1_OCTET_STRING), STRING);
    PutBefore(f, []);
    ShortLength(0);
    NoneWritten(f);
    Reuse.StaleFieldShows(form, [f] + [], [None], tail, 0, [Some(LeafObj(1, x))], 0, ret, moved, a');
  }

  lemma NoneWritten(f: Field<seq<byte>>)
    requires f.rule.Opt?
    ensures FitsFields([f] + [], [None]) && CompleteFields([f] + [], [None])
    ensures EncodeFields([f] + [], [None]) == [] && CanonicalFields([f] + [], [None]) == [None]
  {
    assert ([f] + [])[1..] == [];
  }

  /** A list in the object grows, even by nothing. */
  lemma StaleList(
    tag: Ident, x: seq<byte>, tail: seq<byte>, ret: Option<Obj<seq<byte>>>, moved: int, a': Slot<seq<byte>>)
    requires Decoder.Outcome(SequenceOf(tag, STRING), Frame(tag, Definite, []) + tail,
                             To(Some(ListObj(0, [LeafObj(1, x)]))), true, ret, moved, a')
    ensures ret.Some? && Content(ret.value) != ListValue([])
  {
    hide Decode, WellFormed, OctetStringCodec, Decoder.Outcome, Content, LengthOctets;
    StringFacts();
    ShortLength(0);
    Reuse.HeldListGrows(tag, STRING, [], tail, 0, [LeafObj(1, x)], ret, moved, a');
  }
}
