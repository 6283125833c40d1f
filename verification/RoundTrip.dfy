/**
  Decoding undoes encoding, for every well-formed schema, value and trailing octets.
 */
module RoundTrip {
  import opened Octets
  import opened Schema

  // ----- What a guard has to tell apart (ITU-T X.680, section 25) -----

  /** The octets an encoding may start with, constructed bit included: some guards look at it. */
  function FirstOctets<V(!new)>(s: Schema<V>): set<byte> {
    match s
    case Leaf(c) => c.firsts
    case Sequence(_, _) => {V_ASN1_SEQUENCE + CONSTRUCTED}
    case SequenceOf(tag, _) => {tag + CONSTRUCTED}
  }

  /** The octets a field may start with. */
  function FieldOctets<V(!new)>(f: Field<V>): set<byte> {
    match f.rule
    case Imp(tag, _) => set o | o in FirstOctets(f.item) :: CONTEXT_SPECIFIC + tag + ConstructedBit(o)
    case Exp(tag, _) => {CONTEXT_SPECIFIC + tag + CONSTRUCTED}
    case _ => FirstOctets(f.item)
  }

  /** The octets a run of fields may start with. */
  function RunOctets<V(!new)>(fs: seq<Field<V>>): set<byte> {
    if fs == [] then {}
    else if fs[0].rule.Get? then FieldOctets(fs[0])
    else FieldOctets(fs[0]) + RunOctets(fs[1..])
  }

  /** Leaf codecs keep their contract, and every guard can tell its field from whatever may come in
      its place. */
  ghost predicate WellFormed<V(!new)>(s: Schema<V>)
    decreases s
  {
    match s
    case Leaf(c) => Faithful(c)
    case Sequence(_, fs) => WellFormedFields(fs)
    case SequenceOf(_, e) => WellFormed(e)
  }

  ghost predicate WellFormedFields<V(!new)>(fs: seq<Field<V>>)
    decreases fs
  {
    fs != [] ==>
      && WellFormedField(fs[0])
      && (!fs[0].rule.Get? ==> TellsApart(fs) && !MatchesOctet(fs[0], 0))
      && WellFormedFields(fs[1..])
  }

  ghost predicate WellFormedField<V(!new)>(f: Field<V>)
    decreases f
  {
    WellFormed(f.item) && OwnType(f)
  }

  /** The first field's guard takes what the field may start with, and nothing that may come in its
      place. */
  predicate TellsApart<V(!new)>(fs: seq<Field<V>>)
    requires fs != []
  {
    OwnGuard(fs[0]) && forall o :: o in RunOctets(fs[1..]) ==> !MatchesOctet(fs[0], o)
  }

  /** The type an IMPLICIT field restores is the item's own. */
  predicate OwnType<V(!new)>(f: Field<V>) {
    f.rule.Imp? ==> forall o :: o in FirstOctets(f.item) ==> Tag(o) == f.rule.typ
  }

  predicate OwnGuard<V(!new)>(f: Field<V>) {
    forall o :: o in FieldOctets(f) ==> MatchesOctet(f, o)
  }

  /** Every optional field tells itself apart. */
  predicate Apart<V(!new)>(fs: seq<Field<V>>) {
    fs != [] ==> (!fs[0].rule.Get? ==> TellsApart(fs)) && Apart(fs[1..])
  }

  predicate AllOptional<V(!new)>(fs: seq<Field<V>>) {
    forall k :: 0 <= k < |fs| ==> !fs[k].rule.Get?
  }

  // ----- What a value becomes -----

  /** The value with its empty optional lists turned into absent fields. */
  function Canonical<V(!new)>(s: Schema<V>, v: Value<V>): Value<V>
    requires Fits(s, v)
    decreases s, 1, 0
  {
    match s
    case Leaf(_) => v
    case Sequence(_, fs) => SeqValue(CanonicalFields(fs, v.fields))
    case SequenceOf(_, e) => ListValue(CanonicalItems(e, v.items))
  }

  function CanonicalItems<V(!new)>(e: Schema<V>, vs: seq<Value<V>>): seq<Value<V>>
    requires FitsItems(e, vs)
    decreases e, 2, |vs|
  {
    if vs == [] then [] else [Canonical(e, vs[0])] + CanonicalItems(e, vs[1..])
  }

  function CanonicalFields<V(!new)>(fs: seq<Field<V>>, vs: seq<Option<Value<V>>>): (r: seq<Option<Value<V>>>)
    requires FitsFields(fs, vs)
    ensures |r| == |fs|
    decreases fs, 0, 0
  {
    if fs == [] then [] else [CanonicalField(fs[0], vs[0])] + CanonicalFields(fs[1..], vs[1..])
  }

  function CanonicalField<V(!new)>(f: Field<V>, ov: Option<Value<V>>): Option<Value<V>>
    requires FitsField(f, ov)
    decreases f, 0, 0
  {
    if Present(f.rule, ov) then Some(Canonical(f.item, ov.value)) else None
  }

  // ----- Items that can be relied on -----

  ghost predicate Encodable<V(!new)>(s: Schema<V>, v: Value<V>) {
    Fits(s, v) && Complete(s, v) && |Encode(s, v)| <= INT_MAX
  }

  /** What a program writes starts as named and is read back, whatever octets follow. */
  ghost predicate Dependable<V(!new)>(s: Schema<V>) {
    && (forall v :: Fits(s, v) && Complete(s, v) ==> Encode(s, v)[0] in FirstOctets(s))
    && (forall v, tail :: Encodable(s, v) ==>
          Decode(s, Encode(s, v) + tail) == Some((Canonical(s, v), |Encode(s, v)|)))
  }

  lemma Depend<V(!new)>(s: Schema<V>, v: Value<V>, tail: seq<byte>)
    requires Dependable(s) && Encodable(s, v)
    ensures Decode(s, Encode(s, v) + tail) == Some((Canonical(s, v), |Encode(s, v)|))
  {
    hide Encodable, Decode, Encode, Canonical, Fits, Complete;
  }

  /** A field over such an item; the item may itself be a program that is not well-formed. */
  ghost predicate SoundField<V(!new)>(f: Field<V>) {
    Dependable(f.item) && OwnType(f)
  }

  ghost predicate SoundFields<V(!new)>(fs: seq<Field<V>>) {
    forall i :: 0 <= i < |fs| ==> SoundField(fs[i])
  }

  // ----- First octets -----

  lemma EncodeFirst<V(!new)>(s: Schema<V>, v: Value<V>)
    requires WellFormed(s) && Fits(s, v) && Complete(s, v)
    ensures Encode(s, v)[0] in FirstOctets(s)
  {
    hide LengthOctets, EncodeFields, EncodeItems;
  }

  lemma FieldFirst<V(!new)>(f: Field<V>, ov: Option<Value<V>>)
    requires SoundField(f) && FitsField(f, ov) && CompleteField(f, ov)
    requires Present(f.rule, ov)
    ensures |EncodeField(f, ov)| >= 1 && EncodeField(f, ov)[0] in FieldOctets(f)
  {
    hide Encode, Decode, Encodable, Fits, Complete, FirstOctets, LengthOctets;
  }

  /** What is written for a run of fields starts with one of its octets, or is nothing. */
  lemma {:induction false} RunFirst<V(!new)>(fs: seq<Field<V>>, vs: seq<Option<Value<V>>>, rest: seq<byte>)
    requires SoundFields(fs) && FitsFields(fs, vs) && CompleteFields(fs, vs)
    ensures var w := EncodeFields(fs, vs) + rest;
            (AllOptional(fs) && w == rest) || (w != [] && w[0] in RunOctets(fs))
    decreases fs
  {
    hide EncodeField, FieldOctets, FitsField, CompleteField, SoundField;
    if fs == [] {
      assert EncodeFields(fs, vs) + rest == rest;
    } else if Present(fs[0].rule, vs[0]) {
      FieldFirst(fs[0], vs[0]);
    } else {
      assert SoundFields(fs[1..]);
      NotGet(fs[0], vs[0]);
      RunFirst(fs[1..], vs[1..], rest);
      assert EncodeFields(fs, vs) == EncodeFields(fs[1..], vs[1..]);
    }
  }

  lemma NotGet<V(!new)>(f: Field<V>, ov: Option<Value<V>>)
    requires FitsField(f, ov) && CompleteField(f, ov) && !Present(f.rule, ov)
    ensures !f.rule.Get? && EncodeField(f, ov) == []
  {
  }

  // ----- Guards -----

  /** Every guard is true exactly where its field was written. */
  ghost predicate GuardsAgree<V(!new)>(fs: seq<Field<V>>, vs: seq<Option<Value<V>>>, rest: seq<byte>)
    requires FitsFields(fs, vs)
    decreases fs
  {
    fs != [] ==>
      && (Matches(fs[0], EncodeFields(fs, vs) + rest) <==> Present(fs[0].rule, vs[0]))
      && GuardsAgree(fs[1..], vs[1..], rest)
  }

  /** No guard the run may end on takes what comes after it. */
  predicate ClearAfter<V(!new)>(fs: seq<Field<V>>, rest: seq<byte>) {
    fs != [] ==> (AllOptional(fs) ==> !Matches(fs[0], rest)) && ClearAfter(fs[1..], rest)
  }

  /** What follows the last field of a SEQUENCE: nothing, or end-of-contents. */
  predicate EndsFields(rest: seq<byte>) {
    rest == [] || rest[0] == 0
  }

  lemma {:induction false} EndIsClear<V(!new)>(fs: seq<Field<V>>, rest: seq<byte>)
    requires WellFormedFields(fs) && EndsFields(rest)
    ensures ClearAfter(fs, rest)
    decreases fs
  {
    if fs != [] {
      hide MatchesOctet, FieldOctets, WellFormedField, TellsApart;
      EndIsClear(fs[1..], rest);
    }
  }

  /** Where every guard tells its field apart no value misleads one. */
  lemma {:induction false} ApartGuards<V(!new)>(
    fs: seq<Field<V>>, vs: seq<Option<Value<V>>>, rest: seq<byte>)
    requires SoundFields(fs) && Apart(fs) && FitsFields(fs, vs) && CompleteFields(fs, vs) && ClearAfter(fs, rest)
    ensures GuardsAgree(fs, vs, rest)
    decreases fs
  {
    if fs != [] {
      hide MatchesOctet, FieldOctets, EncodeField, SoundField, FitsField, CompleteField;
      assert SoundFields(fs[1..]);
      ApartGuards(fs[1..], vs[1..], rest);
      if Present(fs[0].rule, vs[0]) {
        FieldFirst(fs[0], vs[0]);
      } else {
        NotGet(fs[0], vs[0]);
        RunFirst(fs[1..], vs[1..], rest);
        assert EncodeFields(fs, vs) == EncodeFields(fs[1..], vs[1..]);
        if EncodeFields(fs, vs) + rest == rest && AllOptional(fs[1..]) {
          assert AllOptional(fs);
        }
      }
    }
  }

  // ----- Round trip -----

  /** Reading a value back, whatever octets follow it. */
  lemma {:induction false} DecodeEncode<V(!new)>(s: Schema<V>, v: Value<V>, tail: seq<byte>)
    requires WellFormed(s) && Fits(s, v) && Complete(s, v)
    requires |Encode(s, v)| <= INT_MAX
    ensures Decode(s, Encode(s, v) + tail) == Some((Canonical(s, v), |Encode(s, v)|))
    decreases s, 1, 0
  {
    match s
    case Leaf(c) =>
    case Sequence(form, fs) =>
      var body := EncodeFields(fs, v.fields);
      EndIsClear(fs, AfterBody(form, tail));
      FieldsRoundTrip(fs, v.fields, AfterBody(form, tail));
      SequenceRead(form, fs, body, tail, CanonicalFields(fs, v.fields));
    case SequenceOf(tag, e) =>
      var body := EncodeItems(e, v.items);
      WellFormedDependable(e);
      ItemsRoundTrip(e, v.items);
      SequenceOfRead(tag, e, body, tail, CanonicalItems(e, v.items));
  }

  lemma {:induction false} WellFormedApart<V(!new)>(fs: seq<Field<V>>)
    requires WellFormedFields(fs)
    ensures SoundFields(fs) && Apart(fs)
    decreases fs, 0, 0
  {
    hide SoundField, TellsApart, WellFormedField;
    if fs != [] {
      WellFormedSound(fs[0]);
      WellFormedApart(fs[1..]);
      forall i | 0 <= i < |fs| ensures SoundField(fs[i]) {
        assert i > 0 ==> fs[i] == fs[1..][i - 1];
      }
    }
  }

  lemma {:induction false} WellFormedSound<V(!new)>(f: Field<V>)
    requires WellFormedField(f)
    ensures SoundField(f)
    decreases f, 0, 0
  {
    hide Dependable, OwnType, WellFormed;
    WellFormedDependable(f.item);
  }

  /** Well-formed programs can be relied on. */
  lemma {:induction false} WellFormedDependable<V(!new)>(s: Schema<V>)
    requires WellFormed(s)
    ensures Dependable(s)
    decreases s, 2, 0
  {
    hide WellFormed, Decode, Encode, Canonical, Fits, Complete, FirstOctets;
    forall v | Fits(s, v) && Complete(s, v) ensures Encode(s, v)[0] in FirstOctets(s) {
      EncodeFirst(s, v);
    }
    forall v, tail | Encodable(s, v)
      ensures Decode(s, Encode(s, v) + tail) == Some((Canonical(s, v), |Encode(s, v)|))
    {
      DecodeEncode(s, v, tail);
    }
  }

  /** What a decoder inside a frame sees after the body. */
  function AfterBody(form: Form, tail: seq<byte>): (rest: seq<byte>)
    ensures EndsFields(rest)
  {
    if form.Definite? then [] else END_OF_CONTENTS + tail
  }

  lemma SequenceRead<V(!new)>(
    form: Form, fs: seq<Field<V>>, body: seq<byte>, tail: seq<byte>, vs: seq<Option<Value<V>>>)
    requires |Frame(V_ASN1_SEQUENCE, form, body)| <= INT_MAX
    ensures var b := Frame(V_ASN1_SEQUENCE, form, body);
            Decode(Sequence(form, fs), b + tail) == Some((SeqValue(vs), |b|))
            <==> DecodeFields(fs, body + AfterBody(form, tail)) == Some((vs, |body|))
  {
    hide GetObject, Open, Contents, Frame, DecodeFields;
    FrameRead(V_ASN1_SEQUENCE, form, body, tail);
    assert (body + AfterBody(form, tail))[|body|..] == AfterBody(form, tail);
  }

  lemma SequenceOfRead<V(!new)>(tag: Ident, e: Schema<V>, body: seq<byte>, tail: seq<byte>, vs: seq<Value<V>>)
    requires DecodeItems(e, body, false) == Some((vs, |body|))
    requires |Frame(tag, Definite, body)| <= INT_MAX
    ensures var b := Frame(tag, Definite, body);
            Decode(SequenceOf(tag, e), b + tail) == Some((ListValue(vs), |b|))
  {
    hide GetObject, Open, Contents, Frame, DecodeItems;
    FrameRead(tag, Definite, body, tail);
    assert body + AfterBody(Definite, tail) == body;
  }

  /** The header of a frame is recognised and delimits its body. */
  lemma FrameRead(tag: Ident, form: Form, body: seq<byte>, tail: seq<byte>)
    requires |Frame(tag, form, body)| <= INT_MAX
    ensures var b := Frame(tag, form, body) + tail;
            && Open(tag, b).Some?
            && GetObject(b) == Open(tag, b)
            && var h := Open(tag, b).value;
            && (h.inf == INDEFINITE <==> form.Indefinite?)
            && h.size + |body| + (if form.Indefinite? then 2 else 0) == |Frame(tag, form, body)|
            && (form.Definite? ==> h.length == |body|)
            && Contents(h, b) == body + AfterBody(form, tail)
  {
    match form
    case Definite => DefiniteFrameRead(tag, body, tail);
    case Indefinite => IndefiniteFrameRead(tag, body, tail);
  }

  lemma DefiniteFrameRead(tag: Ident, body: seq<byte>, tail: seq<byte>)
    requires |Frame(tag, Definite, body)| <= INT_MAX
    ensures var b := Frame(tag, Definite, body) + tail;
            var h := |ConstructedHeader(tag, |body|)|;
            && Open(tag, b) == GetObject(b) == Some(Header(h, CONSTRUCTED, |body|, tag))
            && h + |body| == |Frame(tag, Definite, body)| && b[h..h + |body|] == body
  {
    hide GetObject, ConstructedHeader;
    var h := ConstructedHeader(tag, |body|);
    DefiniteHeaderRead(tag, |body|, body + tail);
    assert Frame(tag, Definite, body) + tail == h + (body + tail);
    assert h + (body + tail) == h + body + tail;
    SecondOfThree(h, body, tail);
  }

  lemma IndefiniteFrameRead(tag: Ident, body: seq<byte>, tail: seq<byte>)
    ensures var b := Frame(tag, Indefinite, body) + tail;
            && Open(tag, b) == GetObject(b) == Some(Header(2, INDEFINITE, 0, tag))
            && |Frame(tag, Indefinite, body)| == |body| + 4 && b[2..] == body + (END_OF_CONTENTS + tail)
  {
    hide GetObject;
    var h, rest := IndefiniteHeader(tag), body + (END_OF_CONTENTS + tail);
    IndefiniteHeaderRead(tag, rest);
    assert Frame(tag, Indefinite, body) + tail == h + rest;
    assert (h + rest)[2..] == rest;
  }

  lemma {:induction false} ItemsRoundTrip<V(!new)>(e: Schema<V>, vs: seq<Value<V>>)
    requires Dependable(e) && FitsItems(e, vs) && CompleteItems(e, vs)
    requires |EncodeItems(e, vs)| <= INT_MAX
    ensures DecodeItems(e, EncodeItems(e, vs), false) == Some((CanonicalItems(e, vs), |EncodeItems(e, vs)|))
    decreases |vs|
  {
    hide Decode, Encode, Canonical, Dependable, Fits, Complete;
    if vs != [] {
      var head, rest := Encode(e, vs[0]), EncodeItems(e, vs[1..]);
      Depend(e, vs[0], rest);
      ItemsRoundTrip(e, vs[1..]);
      HeadItemRead(e, head, rest, Canonical(e, vs[0]), CanonicalItems(e, vs[1..]), |rest|);
    }
  }

  lemma HeadItemRead<V(!new)>(e: Schema<V>, head: seq<byte>, rest: seq<byte>, v: Value<V>, vs: seq<Value<V>>, m: nat)
    requires head != []
    requires Decode(e, head + rest) == Some((v, |head|))
    requires DecodeItems(e, rest, false) == Some((vs, m))
    ensures DecodeItems(e, head + rest, false) == Some(([v] + vs, |head| + m))
  {
    hide Decode, Fits, FitsItems;
    DropHead(head, rest);
  }

  lemma DropHead(head: seq<byte>, rest: seq<byte>)
    ensures (head + rest)[|head|..] == rest
  {
  }

  /** In a well-formed program a run of fields comes back, whatever follows that no guard takes. */
  lemma {:induction false} FieldsRoundTrip<V(!new)>(
    fs: seq<Field<V>>, vs: seq<Option<Value<V>>>, rest: seq<byte>)
    requires WellFormedFields(fs) && FitsFields(fs, vs) && CompleteFields(fs, vs) && ClearAfter(fs, rest)
    requires |EncodeFields(fs, vs)| <= INT_MAX
    ensures DecodeFields(fs, EncodeFields(fs, vs) + rest)
         == Some((CanonicalFields(fs, vs), |EncodeFields(fs, vs)|))
    decreases fs, 1, 0
  {
    WellFormedApart(fs);
    ApartGuards(fs, vs, rest);
    FieldsExact(fs, vs, rest);
  }

  /** In any program a run of fields comes back if and only if no guard is misled. */
  lemma {:induction false} FieldsExact<V(!new)>(
    fs: seq<Field<V>>, vs: seq<Option<Value<V>>>, rest: seq<byte>)
    requires SoundFields(fs) && FitsFields(fs, vs) && CompleteFields(fs, vs)
    requires |EncodeFields(fs, vs)| <= INT_MAX
    ensures var e := EncodeFields(fs, vs);
            DecodeFields(fs, e + rest) == Some((CanonicalFields(fs, vs), |e|)) <==> GuardsAgree(fs, vs, rest)
    decreases fs
  {
    hide DecodeField, EncodeField, CanonicalField, SoundField, FitsField, CompleteField, Matches;
    if fs != [] {
      hide DecodeFields, FitsFields, CompleteFields, EncodeFields, CanonicalFields;
      var head, tail := EncodeField(fs[0], vs[0]), EncodeFields(fs[1..], vs[1..]);
      HeadAndTail(fs, vs);
      FieldsExact(fs[1..], vs[1..], rest);
      FieldRoundTrip(fs[0], vs[0], tail + rest);
      HeadFieldRead(fs, head, tail, rest, CanonicalField(fs[0], vs[0]), CanonicalFields(fs[1..], vs[1..]));
      assert EncodeFields(fs, vs) + rest == head + (tail + rest);
    }
  }

  lemma HeadFieldRead<V(!new)>(
    fs: seq<Field<V>>, head: seq<byte>, tail: seq<byte>, rest: seq<byte>,
    ov: Option<Value<V>>, vs: seq<Option<Value<V>>>)
    requires fs != []
    requires var r := DecodeField(fs[0], head + (tail + rest));
             r.Some? && r.value.0 == ov ==> r.value.1 == |head|
    ensures DecodeFields(fs, head + tail + rest) == Some(([ov] + vs, |head + tail|))
            <==> DecodeField(fs[0], head + (tail + rest)) == Some((ov, |head|))
                 && DecodeFields(fs[1..], tail + rest) == Some((vs, |tail|))
  {
    hide DecodeField, DecodeFields, FitsField, FitsFields;
    var w := head + (tail + rest);
    assert head + tail + rest == w;
    DropHead(head, tail + rest);
    if DecodeField(fs[0], w).Some? {
      FieldsDecoded(fs, w);
      var (ov', n) := DecodeField(fs[0], w).value;
      if DecodeFields(fs[1..], w[n..]).Some? {
        SameHeads(ov', DecodeFields(fs[1..], w[n..]).value.0, ov, vs);
      }
    } else {
      FirstFieldFails(fs, w);
    }
  }

  lemma SameHeads<T>(x: T, xs: seq<T>, y: T, ys: seq<T>)
    ensures [x] + xs == [y] + ys <==> x == y && xs == ys
  {
    if [x] + xs == [y] + ys {
      assert x == ([x] + xs)[0] && xs == ([x] + xs)[1..];
      assert y == ([y] + ys)[0] && ys == ([y] + ys)[1..];
    }
  }

  lemma FirstFieldFails<V(!new)>(fs: seq<Field<V>>, w: seq<byte>)
    requires fs != [] && DecodeField(fs[0], w).None?
    ensures DecodeFields(fs, w) == None
  {
    hide DecodeField;
  }

  lemma HeadAndTail<V(!new)>(fs: seq<Field<V>>, vs: seq<Option<Value<V>>>)
    requires fs != [] && SoundFields(fs) && FitsFields(fs, vs) && CompleteFields(fs, vs)
    ensures SoundField(fs[0]) && FitsField(fs[0], vs[0]) && CompleteField(fs[0], vs[0])
    ensures SoundFields(fs[1..]) && FitsFields(fs[1..], vs[1..]) && CompleteFields(fs[1..], vs[1..])
    ensures EncodeFields(fs, vs) == EncodeField(fs[0], vs[0]) + EncodeFields(fs[1..], vs[1..])
    ensures CanonicalFields(fs, vs) == [CanonicalField(fs[0], vs[0])] + CanonicalFields(fs[1..], vs[1..])
  {
    hide SoundField, FitsField, CompleteField, EncodeField, CanonicalField;
  }

  /** One field comes back, with any octets behind it, if and only if its guard is right. */
  lemma FieldRoundTrip<V(!new)>(f: Field<V>, ov: Option<Value<V>>, more: seq<byte>)
    requires SoundField(f) && FitsField(f, ov) && CompleteField(f, ov)
    requires |EncodeField(f, ov)| <= INT_MAX
    ensures DecodeField(f, EncodeField(f, ov) + more) == Some((CanonicalField(f, ov), |EncodeField(f, ov)|))
            <==> (Matches(f, EncodeField(f, ov) + more) <==> Present(f.rule, ov))
    ensures var r := DecodeField(f, EncodeField(f, ov) + more);
            r.Some? && r.value.0 == CanonicalField(f, ov) ==> r.value.1 == |EncodeField(f, ov)|
  {
    hide Decode, Encode, DecodeExplicit, Frame, Canonical, Dependable, Retagged, MatchesOctet, Fits, Complete;
    if Present(f.rule, ov) {
      hide EncodeField;
      if Matches(f, EncodeField(f, ov) + more) {
        hide DecodeField;
        PresentRoundTrip(f, ov, more);
      }
    } else {
      NotGet(f, ov);
      assert EncodeField(f, ov) + more == more;
    }
  }

  lemma PresentRoundTrip<V(!new)>(f: Field<V>, ov: Option<Value<V>>, more: seq<byte>)
    requires SoundField(f) && FitsField(f, ov) && CompleteField(f, ov) && Present(f.rule, ov)
    requires |EncodeField(f, ov)| <= INT_MAX
    requires Matches(f, EncodeField(f, ov) + more)
    ensures DecodeField(f, EncodeField(f, ov) + more)
         == Some((Some(Canonical(f.item, ov.value)), |EncodeField(f, ov)|))
  {
    hide Decode, Encode, Canonical, Fits, Complete, DecodeField, DecodeExplicit, Frame, FirstOctets;
    hide MatchesOctet;
    var e, v := Encode(f.item, ov.value), Canonical(f.item, ov.value);
    if f.rule.Exp? {
      ExplicitRoundTrip(f.item, ov.value, CONTEXT_SPECIFIC + f.rule.tag, f.rule.form, more);
      ExplicitRead(f, e, more, v);
    } else {
      Depend(f.item, ov.value, more);
      if f.rule.Imp? {
        ImplicitRead(f, e, more, v);
      } else {
        PlainRead(f, e, more, v);
      }
    }
  }

  lemma PlainRead<V(!new)>(f: Field<V>, e: seq<byte>, more: seq<byte>, v: Value<V>)
    requires f.rule.Get? || f.rule.Opt? || f.rule.SeqOpt?
    requires Matches(f, e + more) && Decode(f.item, e + more) == Some((v, |e|))
    ensures DecodeField(f, e + more) == Some((Some(v), |e|))
  {
    hide Decode, MatchesOctet;
  }

  /** Retagging the first octet of an encoding is undone exactly, constructed bit included. */
  lemma ImplicitRead<V(!new)>(f: Field<V>, e: seq<byte>, more: seq<byte>, v: Value<V>)
    requires f.rule.Imp? && |e| >= 1 && Tag(e[0]) == f.rule.typ
    requires Decode(f.item, e + more) == Some((v, |e|))
    ensures var w := [CONTEXT_SPECIFIC + f.rule.tag + ConstructedBit(e[0])] + e[1..];
            DecodeField(f, w + more) == Some((Some(v), |w|))
  {
    hide Decode;
    var tag := CONTEXT_SPECIFIC + f.rule.tag;
    SplitIdentifier(tag, e[0]);
    var w := [tag + ConstructedBit(e[0])] + e[1..] + more;
    assert Retagged(w, f.rule.typ) == e + more;
  }

  lemma ExplicitRead<V(!new)>(f: Field<V>, e: seq<byte>, more: seq<byte>, v: Value<V>)
    requires f.rule.Exp?
    requires var w := Frame(CONTEXT_SPECIFIC + f.rule.tag, f.rule.form, e);
             DecodeExplicit(f.item, w + more) == Some((v, |w|))
    ensures var w := Frame(CONTEXT_SPECIFIC + f.rule.tag, f.rule.form, e);
            DecodeField(f, w + more) == Some((Some(v), |w|))
  {
    hide DecodeExplicit;
    var w := Frame(CONTEXT_SPECIFIC + f.rule.tag, f.rule.form, e);
    assert (w + more)[0] == CONTEXT_SPECIFIC + f.rule.tag + CONSTRUCTED;
  }

  lemma ExplicitRoundTrip<V(!new)>(
    s: Schema<V>, v: Value<V>, tag: Ident, form: Form, more: seq<byte>)
    requires Dependable(s) && Fits(s, v) && Complete(s, v)
    requires |Frame(tag, form, Encode(s, v))| <= INT_MAX
    ensures DecodeExplicit(s, Frame(tag, form, Encode(s, v)) + more)
         == Some((Canonical(s, v), |Frame(tag, form, Encode(s, v))|))
  {
    var e := Encode(s, v);
    match form
    case Definite =>
      Depend(s, v, []);
      assert e + [] == e;
      ExplicitDefinite(s, e, tag, more, Canonical(s, v));
    case Indefinite =>
      Depend(s, v, (END_OF_CONTENTS + more)[..|more|]);
      ExplicitIndefinite(s, e, tag, more, Canonical(s, v));
  }

  lemma ExplicitDefinite<V(!new)>(s: Schema<V>, e: seq<byte>, tag: Ident, more: seq<byte>, v: Value<V>)
    requires Decode(s, e) == Some((v, |e|))
    requires |Frame(tag, Definite, e)| <= INT_MAX
    ensures DecodeExplicit(s, Frame(tag, Definite, e) + more) == Some((v, |Frame(tag, Definite, e)|))
  {
    hide Decode, GetObject, Frame;
    FrameRead(tag, Definite, e, more);
    assert e + AfterBody(Definite, more) == e;
  }

  lemma ExplicitIndefinite<V(!new)>(s: Schema<V>, e: seq<byte>, tag: Ident, more: seq<byte>, v: Value<V>)
    requires Decode(s, e + (END_OF_CONTENTS + more)[..|more|]) == Some((v, |e|))
    requires |Frame(tag, Indefinite, e)| <= INT_MAX
    ensures DecodeExplicit(s, Frame(tag, Indefinite, e) + more) == Some((v, |Frame(tag, Indefinite, e)|))
  {
    hide Decode, GetObject, Frame;
    FrameRead(tag, Indefinite, e, more);
    var w := Frame(tag, Indefinite, e) + more;
    var h := Open(tag, w).value;
    assert w[h.size..] == e + (END_OF_CONTENTS + more);
    assert w[h.size..|w| - 2] == w[h.size..][..|w| - 2 - h.size] == e + (END_OF_CONTENTS + more)[..|more|];
    assert w[h.size + |e|..] == w[h.size..][|e|..] == END_OF_CONTENTS + more;
  }
}
