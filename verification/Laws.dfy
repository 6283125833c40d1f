/**
  Consequences of the round trip: prefix-freeness, closure under nesting, agreement of the
  definite and indefinite forms, and exactly which programs give every value back.
 */
module Laws {
  import opened Octets
  import opened Schema
  import opened RoundTrip

  // ----- Empty lists and absent fields -----

  lemma {:induction false} CanonicalFits<V(!new)>(s: Schema<V>, v: Value<V>)
    requires Fits(s, v)
    ensures Fits(s, Canonical(s, v))
    decreases s, 1, 0
  {
    match s
    case Leaf(_) =>
    case Sequence(_, fs) => CanonicalFieldsFit(fs, v.fields);
    case SequenceOf(_, e) => CanonicalItemsFit(e, v.items);
  }

  lemma {:induction false} CanonicalItemsFit<V(!new)>(e: Schema<V>, vs: seq<Value<V>>)
    requires FitsItems(e, vs)
    ensures FitsItems(e, CanonicalItems(e, vs))
    decreases e, 2, |vs|
  {
    if vs != [] {
      CanonicalFits(e, vs[0]);
      CanonicalItemsFit(e, vs[1..]);
    }
  }

  lemma {:induction false} CanonicalFieldsFit<V(!new)>(fs: seq<Field<V>>, vs: seq<Option<Value<V>>>)
    requires FitsFields(fs, vs)
    ensures FitsFields(fs, CanonicalFields(fs, vs))
    decreases fs, 0, 0
  {
    if fs != [] {
      CanonicalFieldFits(fs[0], vs[0]);
      CanonicalFieldsFit(fs[1..], vs[1..]);
    }
  }

  lemma {:induction false} CanonicalFieldFits<V(!new)>(f: Field<V>, ov: Option<Value<V>>)
    requires FitsField(f, ov)
    ensures FitsField(f, CanonicalField(f, ov))
    decreases f, 0, 0
  {
    if Present(f.rule, ov) {
      CanonicalFits(f.item, ov.value);
    }
  }

  /** An empty optional list and an absent one are written alike, at any depth. */
  lemma {:induction false} CanonicalEncodesAlike<V(!new)>(s: Schema<V>, v: Value<V>)
    requires Fits(s, v)
    ensures Fits(s, Canonical(s, v)) && Encode(s, Canonical(s, v)) == Encode(s, v)
    decreases s, 1, 0
  {
    CanonicalFits(s, v);
    match s
    case Leaf(_) =>
    case Sequence(_, fs) => CanonicalFieldsEncodeAlike(fs, v.fields);
    case SequenceOf(_, e) => CanonicalItemsEncodeAlike(e, v.items);
  }

  lemma {:induction false} CanonicalItemsEncodeAlike<V(!new)>(e: Schema<V>, vs: seq<Value<V>>)
    requires FitsItems(e, vs)
    ensures FitsItems(e, CanonicalItems(e, vs))
    ensures EncodeItems(e, CanonicalItems(e, vs)) == EncodeItems(e, vs)
    decreases e, 2, |vs|
  {
    CanonicalItemsFit(e, vs);
    if vs != [] {
      CanonicalEncodesAlike(e, vs[0]);
      CanonicalItemsEncodeAlike(e, vs[1..]);
    }
  }

  lemma {:induction false} CanonicalFieldsEncodeAlike<V(!new)>(fs: seq<Field<V>>, vs: seq<Option<Value<V>>>)
    requires FitsFields(fs, vs)
    ensures FitsFields(fs, CanonicalFields(fs, vs))
    ensures EncodeFields(fs, CanonicalFields(fs, vs)) == EncodeFields(fs, vs)
    decreases fs, 0, 0
  {
    CanonicalFieldsFit(fs, vs);
    if fs != [] {
      CanonicalFieldEncodesAlike(fs[0], vs[0]);
      CanonicalFieldsEncodeAlike(fs[1..], vs[1..]);
    }
  }

  lemma {:induction false} CanonicalFieldEncodesAlike<V(!new)>(f: Field<V>, ov: Option<Value<V>>)
    requires FitsField(f, ov)
    ensures FitsField(f, CanonicalField(f, ov))
    ensures EncodeField(f, CanonicalField(f, ov)) == EncodeField(f, ov)
    decreases f, 0, 0
  {
    CanonicalFieldFits(f, ov);
    if Present(f.rule, ov) {
      CanonicalEncodesAlike(f.item, ov.value);
    }
  }

  /** A field the put macros leave out: NULL, and for lists, by SEQUENCE_opt and EXP_SEQUENCE_opt, empty. */
  predicate LeftOut<V>(r: Rule, ov: Option<Value<V>>) {
    ov == None || ((r.SeqOpt? || r.Exp?) && ov == Some(ListValue([])))
  }

  /** Exactly these are written as no octets; in particular an empty optional list is written like NULL. */
  lemma NothingWrittenExact<V(!new)>(f: Field<V>, ov: Option<Value<V>>)
    requires FitsField(f, ov)
    ensures EncodeField(f, ov) == [] <==> LeftOut(f.rule, ov)
  {
    hide Encode;
  }

  lemma EmptyListIsAbsent<V(!new)>(tag: Ident, e: Schema<V>, r: Rule)
    requires r.SeqOpt? || r.Exp?
    ensures var f := Field(r, SequenceOf(tag, e));
            && FitsField(f, Some(ListValue([]))) && FitsField(f, None)
            && EncodeField(f, Some(ListValue([]))) == EncodeField(f, None) == []
  {
    var f := Field(r, SequenceOf(tag, e));
    assert FitsItems(e, []);
    NothingWrittenExact(f, Some(ListValue([])));
    NothingWrittenExact(f, None);
  }

  /** In a run of fields, one that is left out may as well be NULL. */
  lemma {:induction false} LeftOutAsNull<V(!new)>(fs: seq<Field<V>>, vs: seq<Option<Value<V>>>, i: nat)
    requires FitsFields(fs, vs) && i < |fs| && LeftOut(fs[i].rule, vs[i])
    ensures FitsFields(fs, vs[i := None]) && EncodeFields(fs, vs[i := None]) == EncodeFields(fs, vs)
    decreases |fs|
  {
    hide FitsField, EncodeField, LeftOut;
    var ws := vs[i := None];
    if i == 0 {
      NullFits(fs[0]);
      NothingWrittenExact(fs[0], vs[0]);
      NothingWrittenExact(fs[0], None) by { assert LeftOut<V>(fs[0].rule, None) by { NullLeftOut<V>(fs[0].rule); } }
      NullLeftOut<V>(fs[0].rule);
      assert ws[1..] == vs[1..];
    } else {
      LeftOutAsNull(fs[1..], vs[1..], i - 1);
      assert ws[1..] == vs[1..][i - 1 := None];
    }
  }

  lemma NullFits<V(!new)>(f: Field<V>)
    ensures FitsField(f, None)
  {
  }

  lemma NullLeftOut<V>(r: Rule)
    ensures LeftOut<V>(r, None)
  {
  }

  /** A SEQUENCE with such a field is written as if the field were NULL, and read with the field NULL. */
  lemma LeftOutComesBackNull<V(!new)>(
    form: Form, fs: seq<Field<V>>, vs: seq<Option<Value<V>>>, i: nat, tail: seq<byte>)
    requires WellFormedFields(fs) && Encodable(Sequence(form, fs), SeqValue(vs))
    requires i < |fs| && |vs| == |fs| && LeftOut(fs[i].rule, vs[i])
    ensures var s := Sequence(form, fs);
            && Fits(s, SeqValue(vs[i := None]))
            && Encode(s, SeqValue(vs[i := None])) == Encode(s, SeqValue(vs))
            && var r := Decode(s, Encode(s, SeqValue(vs)) + tail);
               r.Some? && r.value.0.SeqValue? && |r.value.0.fields| == |fs| && r.value.0.fields[i] == None
  {
    hide Decode, EncodeFields, CanonicalFields, WellFormedFields, FitsFields, CompleteFields, LeftOut, Frame;
    LeftOutAsNull(fs, vs, i);
    DecodeEncode(Sequence(form, fs), SeqValue(vs), tail);
    CanonicalNull(fs, vs, i);
  }

  lemma {:induction false} CanonicalNull<V(!new)>(fs: seq<Field<V>>, vs: seq<Option<Value<V>>>, i: nat)
    requires FitsFields(fs, vs) && i < |fs| && LeftOut(fs[i].rule, vs[i])
    ensures CanonicalFields(fs, vs)[i] == None
    decreases |fs|
  {
    hide FitsField;
    if i != 0 {
      CanonicalNull(fs[1..], vs[1..], i - 1);
    }
  }

  // ----- Values that come back as they were -----

  /** No optional list in v is empty, at any depth. */
  ghost predicate NoEmptyLists<V(!new)>(s: Schema<V>, v: Value<V>)
    requires Fits(s, v)
    decreases s, 1, 0
  {
    match s
    case Leaf(_) => true
    case Sequence(_, fs) => NoEmptyListsInFields(fs, v.fields)
    case SequenceOf(_, e) => NoEmptyListsInItems(e, v.items)
  }

  ghost predicate NoEmptyListsInItems<V(!new)>(e: Schema<V>, vs: seq<Value<V>>)
    requires FitsItems(e, vs)
    decreases e, 2, |vs|
  {
    vs != [] ==> NoEmptyLists(e, vs[0]) && NoEmptyListsInItems(e, vs[1..])
  }

  ghost predicate NoEmptyListsInFields<V(!new)>(fs: seq<Field<V>>, vs: seq<Option<Value<V>>>)
    requires FitsFields(fs, vs)
    decreases fs, 0, 0
  {
    fs != [] ==> NoEmptyListsInField(fs[0], vs[0]) && NoEmptyListsInFields(fs[1..], vs[1..])
  }

  ghost predicate NoEmptyListsInField<V(!new)>(f: Field<V>, ov: Option<Value<V>>)
    requires FitsField(f, ov)
    decreases f, 0, 0
  {
    ov.Some? ==> !LeftOut(f.rule, ov) && NoEmptyLists(f.item, ov.value)
  }

  /** What comes back is what was written if and only if no optional list in it is empty. */
  lemma {:induction false} CanonicalExact<V(!new)>(s: Schema<V>, v: Value<V>)
    requires Fits(s, v)
    ensures Canonical(s, v) == v <==> NoEmptyLists(s, v)
    decreases s, 1, 0
  {
    match s
    case Leaf(_) =>
    case Sequence(_, fs) => CanonicalFieldsExact(fs, v.fields);
    case SequenceOf(_, e) => CanonicalItemsExact(e, v.items);
  }

  lemma {:induction false} CanonicalItemsExact<V(!new)>(e: Schema<V>, vs: seq<Value<V>>)
    requires FitsItems(e, vs)
    ensures CanonicalItems(e, vs) == vs <==> NoEmptyListsInItems(e, vs)
    decreases e, 2, |vs|
  {
    hide Canonical, NoEmptyLists, Fits;
    if vs != [] {
      CanonicalExact(e, vs[0]);
      CanonicalItemsExact(e, vs[1..]);
      SameHeads(Canonical(e, vs[0]), CanonicalItems(e, vs[1..]), vs[0], vs[1..]);
      assert [vs[0]] + vs[1..] == vs;
    }
  }

  lemma {:induction false} CanonicalFieldsExact<V(!new)>(fs: seq<Field<V>>, vs: seq<Option<Value<V>>>)
    requires FitsFields(fs, vs)
    ensures CanonicalFields(fs, vs) == vs <==> NoEmptyListsInFields(fs, vs)
    decreases fs, 0, 0
  {
    hide CanonicalField, NoEmptyListsInField, FitsField;
    if fs != [] {
      CanonicalFieldExact(fs[0], vs[0]);
      CanonicalFieldsExact(fs[1..], vs[1..]);
      SameHeads(CanonicalField(fs[0], vs[0]), CanonicalFields(fs[1..], vs[1..]), vs[0], vs[1..]);
      assert [vs[0]] + vs[1..] == vs;
    }
  }

  lemma {:induction false} CanonicalFieldExact<V(!new)>(f: Field<V>, ov: Option<Value<V>>)
    requires FitsField(f, ov)
    ensures CanonicalField(f, ov) == ov <==> NoEmptyListsInField(f, ov)
    decreases f, 0, 0
  {
    hide Canonical, NoEmptyLists;
    if ov.Some? {
      CanonicalExact(f.item, ov.value);
    }
  }

  /** Every value of a well-formed program comes back as it was, whatever follows, if and only if no
      optional list in it is empty. */
  lemma ComesBackExact<V(!new)>(s: Schema<V>, v: Value<V>, tail: seq<byte>)
    requires WellFormed(s) && Encodable(s, v)
    ensures Decode(s, Encode(s, v) + tail) == Some((v, |Encode(s, v)|)) <==> NoEmptyLists(s, v)
  {
    hide WellFormed, Decode, Encode, Canonical, NoEmptyLists, Fits, Complete;
    DecodeEncode(s, v, tail);
    CanonicalExact(s, v);
  }

  // ----- Injectivity and prefix-freeness -----

  /** Two encodings that agree up to trailing octets are the same encoding of the same value. */
  lemma PrefixFree<V(!new)>(s: Schema<V>, v1: Value<V>, v2: Value<V>, t1: seq<byte>, t2: seq<byte>)
    requires WellFormed(s) && Encodable(s, v1) && Encodable(s, v2)
    requires Encode(s, v1) + t1 == Encode(s, v2) + t2
    ensures Canonical(s, v1) == Canonical(s, v2) && Encode(s, v1) == Encode(s, v2) && t1 == t2
  {
    DecodeEncode(s, v1, t1);
    DecodeEncode(s, v2, t2);
    var e1, e2 := Encode(s, v1), Encode(s, v2);
    assert e1 == (e1 + t1)[..|e1|] == (e2 + t2)[..|e2|] == e2;
    assert t1 == (e1 + t1)[|e1|..] == (e2 + t2)[|e2|..] == t2;
  }

  /** Encodings are equal exactly when the values are, reading empty optional lists as absent. */
  lemma Injective<V(!new)>(s: Schema<V>, v1: Value<V>, v2: Value<V>)
    requires WellFormed(s) && Encodable(s, v1) && Encodable(s, v2)
    ensures Encode(s, v1) == Encode(s, v2) <==> Canonical(s, v1) == Canonical(s, v2)
  {
    CanonicalEncodesAlike(s, v1);
    CanonicalEncodesAlike(s, v2);
    if Encode(s, v1) == Encode(s, v2) {
      PrefixFree(s, v1, v2, [], []);
    }
  }

  // ----- Nesting -----

  /** A schema used as the `f`/`func` of another program. */
  ghost function AsCodec<V(!new)>(s: Schema<V>): Codec<Value<V>> {
    CodecFunctions(
      v => if Fits(s, v) then Encode(s, v) else [0],
      b => Decode(s, b),
      v => Encodable(s, v) && Canonical(s, v) == v,
      FirstOctets(s))
  }

  /** What the macros build from codecs that keep the contract keeps it too. */
  lemma ClosedUnderNesting<V(!new)>(s: Schema<V>)
    requires WellFormed(s)
    ensures Faithful(AsCodec(s))
    ensures forall v :: AsCodec(s).valid(v) <==> Encodable(s, v) && Canonical(s, v) == v
  {
    var c := AsCodec(s);
    forall v | c.valid(v) ensures c.i2d(v)[0] in c.firsts {
      EncodeFirst(s, v);
    }
    forall v, tail | c.valid(v) ensures c.d2i(c.i2d(v) + tail) == Some((v, |c.i2d(v)|)) {
      DecodeEncode(s, v, tail);
    }
  }

  // ----- Definite and indefinite forms -----

  /** The same program with every length definite. */
  function AsDefinite<V(!new)>(s: Schema<V>): Schema<V>
    decreases s
  {
    match s
    case Leaf(_) => s
    case Sequence(_, fs) => Sequence(Definite, AsDefiniteFields(fs))
    case SequenceOf(tag, e) => SequenceOf(tag, AsDefinite(e))
  }

  function AsDefiniteFields<V(!new)>(fs: seq<Field<V>>): seq<Field<V>>
    decreases fs
  {
    if fs == [] then [] else [AsDefiniteField(fs[0])] + AsDefiniteFields(fs[1..])
  }

  function AsDefiniteField<V(!new)>(f: Field<V>): Field<V>
    decreases f
  {
    Field(if f.rule.Exp? then f.rule.(form := Definite) else f.rule, AsDefinite(f.item))
  }

  /** What form a frame or a wrapper had is gone, and what was definite throughout is unchanged. */
  lemma FormErased<V(!new)>(fs: seq<Field<V>>, tag: TagNumber, item: Schema<V>)
    ensures AsDefinite(Sequence(Indefinite, fs)) == AsDefinite(Sequence(Definite, fs))
    ensures AsDefiniteField(Field(Exp(tag, Indefinite), item)) == AsDefiniteField(Field(Exp(tag, Definite), item))
  {
  }

  /** Neither a frame nor a wrapper in the program is indefinite. */
  predicate AllDefinite<V(!new)>(s: Schema<V>)
    decreases s
  {
    match s
    case Leaf(_) => true
    case Sequence(form, fs) => form.Definite? && AllDefiniteFields(fs)
    case SequenceOf(_, e) => AllDefinite(e)
  }

  predicate AllDefiniteFields<V(!new)>(fs: seq<Field<V>>)
    decreases fs
  {
    fs != [] ==> AllDefiniteField(fs[0]) && AllDefiniteFields(fs[1..])
  }

  predicate AllDefiniteField<V(!new)>(f: Field<V>)
    decreases f
  {
    (f.rule.Exp? ==> f.rule.form.Definite?) && AllDefinite(f.item)
  }

  lemma {:induction false} DefiniteExact<V(!new)>(s: Schema<V>)
    ensures AllDefinite(AsDefinite(s))
    ensures AsDefinite(s) == s <==> AllDefinite(s)
    decreases s
  {
    match s
    case Leaf(_) =>
    case Sequence(_, fs) => DefiniteFieldsExact(fs);
    case SequenceOf(_, e) => DefiniteExact(e);
  }

  lemma {:induction false} DefiniteFieldsExact<V(!new)>(fs: seq<Field<V>>)
    ensures AllDefiniteFields(AsDefiniteFields(fs))
    ensures AsDefiniteFields(fs) == fs <==> AllDefiniteFields(fs)
    decreases fs
  {
    hide AsDefiniteField, AllDefiniteField;
    if fs != [] {
      DefiniteFieldExact(fs[0]);
      DefiniteFieldsExact(fs[1..]);
      SameHeads(AsDefiniteField(fs[0]), AsDefiniteFields(fs[1..]), fs[0], fs[1..]);
      assert [fs[0]] + fs[1..] == fs;
    }
  }

  lemma {:induction false} DefiniteFieldExact<V(!new)>(f: Field<V>)
    ensures AllDefiniteField(AsDefiniteField(f))
    ensures AsDefiniteField(f) == f <==> AllDefiniteField(f)
    decreases f
  {
    hide AsDefinite, AllDefinite;
    DefiniteExact(f.item);
  }

  /** The decoder never asks which form the writer chose. */
  lemma {:induction false} DecodeIgnoresForm<V(!new)>(s: Schema<V>, b: seq<byte>)
    ensures Decode(AsDefinite(s), b) == Decode(s, b)
    decreases s, 1, |b|
  {
    hide Open, Contents, Close, DecodeFields, DecodeItems, AsDefiniteFields;
    match s
    case Leaf(_) =>
    case Sequence(_, fs) =>
      if Open(V_ASN1_SEQUENCE, b).Some? {
        DecodeFieldsIgnoresForm(fs, Contents(Open(V_ASN1_SEQUENCE, b).value, b));
      }
    case SequenceOf(tag, e) =>
      if Open(tag, b).Some? {
        var h := Open(tag, b).value;
        DecodeItemsIgnoresForm(e, Contents(h, b), h.inf == INDEFINITE);
      }
  }

  lemma {:induction false} DecodeItemsIgnoresForm<V(!new)>(e: Schema<V>, w: seq<byte>, indefinite: bool)
    ensures DecodeItems(AsDefinite(e), w, indefinite) == DecodeItems(e, w, indefinite)
    decreases e, 2, |w|
  {
    DecodeIgnoresForm(e, w);
    if Decode(e, w).Some? {
      DecodeItemsIgnoresForm(e, w[Decode(e, w).value.1..], indefinite);
    }
    SameItems(e, AsDefinite(e), w, indefinite);
  }

  lemma SameItems<V(!new)>(e1: Schema<V>, e2: Schema<V>, w: seq<byte>, indefinite: bool)
    requires Decode(e1, w) == Decode(e2, w)
    requires Decode(e1, w).Some? ==>
               var rest := w[Decode(e1, w).value.1..];
               DecodeItems(e1, rest, indefinite) == DecodeItems(e2, rest, indefinite)
    ensures DecodeItems(e1, w, indefinite) == DecodeItems(e2, w, indefinite)
  {
    hide Decode, Ended, Fits, FitsItems;
  }

  lemma {:induction false} DecodeFieldsIgnoresForm<V(!new)>(fs: seq<Field<V>>, w: seq<byte>)
    ensures DecodeFields(AsDefiniteFields(fs), w) == DecodeFields(fs, w)
    decreases fs, 0, 0
  {
    hide DecodeField, AsDefiniteField;
    if fs != [] {
      DecodeFieldIgnoresForm(fs[0], w);
      if DecodeField(fs[0], w).Some? {
        DecodeFieldsIgnoresForm(fs[1..], w[DecodeField(fs[0], w).value.1..]);
      }
    }
  }

  lemma {:induction false} DecodeFieldIgnoresForm<V(!new)>(f: Field<V>, w: seq<byte>)
    ensures DecodeField(AsDefiniteField(f), w) == DecodeField(f, w)
    decreases f, 0, 0
  {
    if Matches(f, w) {
      match f.rule
      case Imp(_, typ) => DecodeIgnoresForm(f.item, Retagged(w, typ));
      case Exp(_, _) => DecodeExplicitIgnoresForm(f.item, w);
      case _ => DecodeIgnoresForm(f.item, w);
    }
  }

  lemma {:induction false} DecodeExplicitIgnoresForm<V(!new)>(s: Schema<V>, w: seq<byte>)
    ensures DecodeExplicit(AsDefinite(s), w) == DecodeExplicit(s, w)
    decreases s, 3, 0
  {
    hide Decode, GetObject, AsDefinite, AtEndOfContents, Fits;
    if GetObject(w).Some? {
      var h := GetObject(w).value;
      if h.inf != INDEFINITE {
        DecodeIgnoresForm(s, w[h.size..h.size + h.length]);
      } else if 2 <= |w| - h.size {
        DecodeIgnoresForm(s, w[h.size..|w| - 2]);
      }
    }
  }

  /** Whichever wrappers and frames the writer made indefinite, at any depth, the reader returns
      the same value and consumes exactly what was written. */
  lemma FormsAgree<V(!new)>(writer: Schema<V>, reader: Schema<V>, v: Value<V>, tail: seq<byte>)
    requires AsDefinite(writer) == AsDefinite(reader)
    requires WellFormed(writer) && Encodable(writer, v)
    ensures Decode(reader, Encode(writer, v) + tail) == Some((Canonical(writer, v), |Encode(writer, v)|))
  {
    DecodeEncode(writer, v, tail);
    DecodeIgnoresForm(writer, Encode(writer, v) + tail);
    DecodeIgnoresForm(reader, Encode(writer, v) + tail);
  }

  // ----- Which programs give every value back -----

  /** A value comes back from a SEQUENCE, whatever follows it, if and only if no guard is misled. */
  lemma SequenceExact<V(!new)>(form: Form, fs: seq<Field<V>>, vs: seq<Option<Value<V>>>, tail: seq<byte>)
    requires SoundFields(fs) && Encodable(Sequence(form, fs), SeqValue(vs))
    ensures var b := Encode(Sequence(form, fs), SeqValue(vs));
            Decode(Sequence(form, fs), b + tail) == Some((SeqValue(CanonicalFields(fs, vs)), |b|))
            <==> GuardsAgree(fs, vs, AfterBody(form, tail))
  {
    hide Decode, DecodeFields, SoundFields, CompleteFields, FitsFields, GuardsAgree;
    FieldsExact(fs, vs, AfterBody(form, tail));
    SequenceRead(form, fs, EncodeFields(fs, vs), tail, CanonicalFields(fs, vs));
  }

  /** Every value goes through the program and back. */
  ghost predicate Transparent<V(!new)>(s: Schema<V>) {
    forall v :: Encodable(s, v) ==> Decode(s, Encode(s, v)) == Some((Canonical(s, v), |Encode(s, v)|))
  }

  /** Of the octets the fields may start with, a guard takes its own field's and none that may come
      in its place: those of the optional fields behind it, and of the mandatory one behind those. */
  ghost predicate GuardsTellApart<V(!new)>(fs: seq<Field<V>>) {
    forall i, j, o :: 0 <= i <= j < |fs| && InPlaceOf(fs, i, j) && o in FieldOctets(fs[j]) ==>
      (MatchesOctet(fs[i], o) <==> i == j)
  }

  /** Field j is what comes next when the optional field i and those between are absent. */
  predicate InPlaceOf<V(!new)>(fs: seq<Field<V>>, i: nat, j: nat)
    requires i <= j < |fs|
  {
    !fs[i].rule.Get? && AllOptional(fs[i..j])
  }

  /** A value in which field j starts with octet o, and of the others only the mandatory are there. */
  ghost predicate Lone<V(!new)>(form: Form, fs: seq<Field<V>>, j: nat, o: byte, vs: seq<Option<Value<V>>>)
    requires j < |fs|
  {
    && |vs| == |fs| && Encodable(Sequence(form, fs), SeqValue(vs))
    && (forall k :: 0 <= k < |fs| && k != j && !fs[k].rule.Get? ==> vs[k].None?)
    && LoneField(fs[j], vs[j], o)
  }

  ghost predicate LoneField<V(!new)>(f: Field<V>, ov: Option<Value<V>>, o: byte) {
    FitsField(f, ov) && Present(f.rule, ov) && EncodeField(f, ov) != [] && EncodeField(f, ov)[0] == o
  }

  /** A value in which only the mandatory fields are there. */
  ghost predicate Least<V(!new)>(form: Form, fs: seq<Field<V>>, vs: seq<Option<Value<V>>>) {
    && |vs| == |fs| && Encodable(Sequence(form, fs), SeqValue(vs))
    && forall k :: 0 <= k < |fs| && !fs[k].rule.Get? ==> vs[k].None?
  }

  /** The codecs do write every first octet they name, in some value that is not too long, and the
      optional fields may all be left out. */
  ghost predicate Exercised<V(!new)>(form: Form, fs: seq<Field<V>>) {
    && (exists vs :: Least(form, fs, vs))
    && forall j, o :: 0 <= j < |fs| && o in FieldOctets(fs[j]) ==> exists vs :: Lone(form, fs, j, o, vs)
  }

  /** The tag requirement of X.680, put to the guards, is exact: a SEQUENCE gives every value back, by
      itself or before any octets, if and only if its guards tell its fields apart, from one another
      and from what ends the contents.  Its items need only be such that they can be relied on, so the
      answer for an inner SEQUENCE is what the outer one asks for, at every depth. */
  lemma GuardsExact<V(!new)>(form: Form, fs: seq<Field<V>>)
    requires SoundFields(fs) && Exercised(form, fs)
    ensures Transparent(Sequence(form, fs)) <==> GuardsTellApart(fs) && ClearAfter(fs, AfterBody(form, []))
    ensures Dependable(Sequence(form, fs)) <==> GuardsTellApart(fs) && ClearAfter(fs, AfterBody(form, []))
  {
    hide SoundFields, MatchesOctet, FieldOctets, InPlaceOf, Lone, Least, Apart, ClearAfter;
    hide Fits, Complete, Encode, Decode, Canonical;
    var s := Sequence(form, fs);
    if GuardsTellApart(fs) && ClearAfter(fs, AfterBody(form, [])) {
      TellApartIsApart(fs);
      ApartIsDependable(form, fs);
      DependableIsTransparent(s);
    } else if GuardsTellApart(fs) {
      var vs :| Least(form, fs, vs);
      EndConfused(form, fs, vs);
      NotDependable(s);
    } else {
      var i, j, o :| 0 <= i <= j < |fs| && InPlaceOf(fs, i, j) && o in FieldOctets(fs[j])
                     && !(MatchesOctet(fs[i], o) <==> i == j);
      var vs :| Lone(form, fs, j, o, vs);
      AlikeFieldsConfused(form, fs, vs, i, j, o);
      NotDependable(s);
    }
  }

  lemma NotDependable<V(!new)>(s: Schema<V>)
    requires !Transparent(s)
    ensures !Dependable(s)
  {
    hide Transparent, Dependable;
    if Dependable(s) {
      DependableIsTransparent(s);
    }
  }

  lemma DependableIsTransparent<V(!new)>(s: Schema<V>)
    requires Dependable(s)
    ensures Transparent(s)
  {
    hide Dependable, Decode, Encode, Canonical, Fits, Complete;
    forall v | Encodable(s, v) ensures Decode(s, Encode(s, v)) == Some((Canonical(s, v), |Encode(s, v)|)) {
      Depend(s, v, []);
      assert Encode(s, v) + [] == Encode(s, v);
    }
  }

  lemma ApartIsDependable<V(!new)>(form: Form, fs: seq<Field<V>>)
    requires SoundFields(fs) && Apart(fs) && ClearAfter(fs, AfterBody(form, []))
    ensures Dependable(Sequence(form, fs))
  {
    hide SoundFields, Apart, ClearAfter, Fits, Complete, Encode, Decode, Canonical;
    var s := Sequence(form, fs);
    forall v | Fits(s, v) && Complete(s, v) ensures Encode(s, v)[0] in FirstOctets(s) {
      SequenceFirst(form, fs, v);
    }
    forall v, tail | Encodable(s, v)
      ensures Decode(s, Encode(s, v) + tail) == Some((Canonical(s, v), |Encode(s, v)|))
    {
      ReadsBack(form, fs, v, tail);
    }
  }

  lemma SequenceFirst<V(!new)>(form: Form, fs: seq<Field<V>>, v: Value<V>)
    requires Fits(Sequence(form, fs), v)
    ensures Encode(Sequence(form, fs), v)[0] in FirstOctets(Sequence(form, fs))
  {
    hide LengthOctets, EncodeFields;
  }

  /** A list of items that can be relied on can be relied on. */
  lemma ListDependable<V(!new)>(tag: Ident, e: Schema<V>)
    requires Dependable(e)
    ensures Dependable(SequenceOf(tag, e))
  {
    hide Fits, Complete, Encode, Decode, Canonical;
    var s := SequenceOf(tag, e);
    forall v | Fits(s, v) && Complete(s, v) ensures Encode(s, v)[0] in FirstOctets(s) {
      ListFirst(tag, e, v);
    }
    forall v, tail | Encodable(s, v)
      ensures Decode(s, Encode(s, v) + tail) == Some((Canonical(s, v), |Encode(s, v)|))
    {
      ListReadsBack(tag, e, v, tail);
    }
  }

  lemma ListFirst<V(!new)>(tag: Ident, e: Schema<V>, v: Value<V>)
    requires Fits(SequenceOf(tag, e), v)
    ensures Encode(SequenceOf(tag, e), v)[0] in FirstOctets(SequenceOf(tag, e))
  {
    hide LengthOctets, EncodeItems;
  }

  lemma ListReadsBack<V(!new)>(tag: Ident, e: Schema<V>, v: Value<V>, tail: seq<byte>)
    requires Dependable(e) && Encodable(SequenceOf(tag, e), v)
    ensures var s := SequenceOf(tag, e);
            Decode(s, Encode(s, v) + tail) == Some((Canonical(s, v), |Encode(s, v)|))
  {
    hide Dependable, Decode, DecodeItems, EncodeItems, CanonicalItems, FitsItems, CompleteItems;
    var body := EncodeItems(e, v.items);
    assert |body| < |Frame(tag, Definite, body)|;
    hide Frame;
    ItemsRoundTrip(e, v.items);
    SequenceOfRead(tag, e, body, tail, CanonicalItems(e, v.items));
  }

  lemma {:induction false} ClearAfterFirst<V(!new)>(fs: seq<Field<V>>, rest: seq<byte>, tail: seq<byte>)
    requires ClearAfter(fs, rest) && rest != []
    ensures ClearAfter(fs, rest + tail)
    decreases |fs|
  {
    hide MatchesOctet;
    if fs != [] {
      ClearAfterFirst(fs[1..], rest, tail);
    }
  }

  lemma ReadsBack<V(!new)>(form: Form, fs: seq<Field<V>>, v: Value<V>, tail: seq<byte>)
    requires SoundFields(fs) && Apart(fs) && ClearAfter(fs, AfterBody(form, []))
    requires Encodable(Sequence(form, fs), v)
    ensures var s := Sequence(form, fs);
            Decode(s, Encode(s, v) + tail) == Some((Canonical(s, v), |Encode(s, v)|))
  {
    hide SoundFields, Apart, ClearAfter, Decode, EncodeFields, CanonicalFields, GuardsAgree, FitsFields, CompleteFields;
    hide Frame;
    if form.Indefinite? {
      ClearAfterFirst(fs, AfterBody(form, []), tail);
      assert AfterBody(form, []) + tail == AfterBody(form, tail);
    }
    ApartGuards(fs, v.fields, AfterBody(form, tail));
    SequenceExact(form, fs, v.fields, tail);
  }

  /** If a guard the fields may end on takes what ends the contents, no value without optional fields
      comes back. */
  lemma EndConfused<V(!new)>(form: Form, fs: seq<Field<V>>, vs: seq<Option<Value<V>>>)
    requires SoundFields(fs) && Least(form, fs, vs) && !ClearAfter(fs, AfterBody(form, []))
    ensures !Transparent(Sequence(form, fs))
  {
    hide SoundFields, ClearAfter, Decode, Frame, EncodeFields, CanonicalFields, GuardsAgree;
    var s, v := Sequence(form, fs), SeqValue(vs);
    SequenceExact(form, fs, vs, []);
    assert Encode(s, v) + [] == Encode(s, v);
    if GuardsAgree(fs, vs, AfterBody(form, [])) {
      LeastIsClear(fs, vs, AfterBody(form, []));
    }
  }

  lemma {:induction false} LeastIsClear<V(!new)>(fs: seq<Field<V>>, vs: seq<Option<Value<V>>>, rest: seq<byte>)
    requires FitsFields(fs, vs) && GuardsAgree(fs, vs, rest)
    requires forall k :: 0 <= k < |fs| && !fs[k].rule.Get? ==> vs[k].None?
    ensures ClearAfter(fs, rest)
    decreases |fs|
  {
    hide Matches, FitsField, EncodeField;
    if fs != [] {
      LeastIsClear(fs[1..], vs[1..], rest);
      if AllOptional(fs) {
        NothingWritten(fs, vs);
        assert [] + rest == rest;
      }
    }
  }

  lemma {:induction false} NothingWritten<V(!new)>(fs: seq<Field<V>>, vs: seq<Option<Value<V>>>)
    requires FitsFields(fs, vs) && forall k :: 0 <= k < |fs| ==> vs[k].None?
    ensures EncodeFields(fs, vs) == []
    decreases |fs|
  {
    hide FitsField;
    if fs != [] {
      NotPresent(fs[0], vs[0]);
      NothingWritten(fs[1..], vs[1..]);
    }
  }

  lemma {:induction false} TellApartIsApart<V(!new)>(fs: seq<Field<V>>)
    requires GuardsTellApart(fs)
    ensures Apart(fs)
    decreases |fs|
  {
    hide GuardsTellApart, MatchesOctet, FieldOctets, RunOctets;
    if fs != [] {
      TellApartTail(fs);
      TellApartIsApart(fs[1..]);
      if !fs[0].rule.Get? {
        hide Apart;
        OwnOctets(fs);
        forall o | o in RunOctets(fs[1..]) ensures !MatchesOctet(fs[0], o) {
          OthersOctets(fs, o);
        }
      }
    }
  }

  lemma TellApartTail<V(!new)>(fs: seq<Field<V>>)
    requires fs != [] && GuardsTellApart(fs)
    ensures GuardsTellApart(fs[1..])
  {
    hide MatchesOctet, FieldOctets, InPlaceOf;
    var rest := fs[1..];
    forall i, j, o | 0 <= i <= j < |rest| && InPlaceOf(rest, i, j) && o in FieldOctets(rest[j])
      ensures MatchesOctet(rest[i], o) <==> i == j
    {
      InPlaceOfTail(fs, i, j);
      assert rest[i] == fs[i + 1] && rest[j] == fs[j + 1];
    }
  }

  lemma InPlaceOfTail<V(!new)>(fs: seq<Field<V>>, i: nat, j: nat)
    requires i <= j < |fs| - 1 && InPlaceOf(fs[1..], i, j)
    ensures InPlaceOf(fs, i + 1, j + 1)
  {
    assert fs[1..][i..j] == fs[i + 1..j + 1];
  }

  lemma OwnOctets<V(!new)>(fs: seq<Field<V>>)
    requires fs != [] && GuardsTellApart(fs) && !fs[0].rule.Get?
    ensures forall o :: o in FieldOctets(fs[0]) ==> MatchesOctet(fs[0], o)
  {
    hide MatchesOctet, FieldOctets;
    assert InPlaceOf(fs, 0, 0);
  }

  lemma OthersOctets<V(!new)>(fs: seq<Field<V>>, o: byte)
    requires fs != [] && GuardsTellApart(fs) && !fs[0].rule.Get? && o in RunOctets(fs[1..])
    ensures !MatchesOctet(fs[0], o)
  {
    hide MatchesOctet, FieldOctets, RunOctets;
    var j := RunOctetOf(fs[1..], o);
    assert fs[0..j + 1] == [fs[0]] + fs[1..][..j];
    assert InPlaceOf(fs, 0, j + 1);
    assert o in FieldOctets(fs[j + 1]);
  }

  /** The field that puts an octet at the start of a run. */
  lemma {:induction false} RunOctetOf<V(!new)>(fs: seq<Field<V>>, o: byte) returns (j: nat)
    requires o in RunOctets(fs)
    ensures j < |fs| && AllOptional(fs[..j]) && o in FieldOctets(fs[j])
    decreases |fs|
  {
    hide FieldOctets;
    if o in FieldOctets(fs[0]) {
      j := 0;
    } else {
      var k := RunOctetOf(fs[1..], o);
      j := k + 1;
      assert fs[..j] == [fs[0]] + fs[1..][..k];
    }
  }

  /** If a guard does not take its own field's octet, or takes that of a field in its place, a value
      with that field does not come back. */
  lemma AlikeFieldsConfused<V(!new)>(
    form: Form, fs: seq<Field<V>>, vs: seq<Option<Value<V>>>, i: nat, j: nat, o: byte)
    requires SoundFields(fs)
    requires i <= j < |fs| && InPlaceOf(fs, i, j) && Lone(form, fs, j, o, vs)
    requires !(MatchesOctet(fs[i], o) <==> i == j)
    ensures !Transparent(Sequence(form, fs))
  {
    hide SoundFields, MatchesOctet, Decode, Frame, EncodeFields, CanonicalFields, GuardsAgree;
    var s, v, rest := Sequence(form, fs), SeqValue(vs), AfterBody(form, []);
    SequenceExact(form, fs, vs, []);
    assert Encode(s, v) + [] == Encode(s, v);
    if GuardsAgree(fs, vs, rest) {
      GuardsAgreeAt(fs, vs, rest, i);
      NextWritten(fs, vs, i, j, o);
    }
  }

  lemma {:induction false} GuardsAgreeAt<V(!new)>(
    fs: seq<Field<V>>, vs: seq<Option<Value<V>>>, rest: seq<byte>, i: nat)
    requires i < |fs| && FitsFields(fs, vs) && GuardsAgree(fs, vs, rest)
    ensures FitsFields(fs[i..], vs[i..])
    ensures Matches(fs[i], EncodeFields(fs[i..], vs[i..]) + rest) <==> Present(fs[i].rule, vs[i])
    decreases |fs|
  {
    hide Matches, FitsField, EncodeFields;
    if i == 0 {
      assert fs[0..] == fs && vs[0..] == vs;
    } else {
      GuardsAgreeAt(fs[1..], vs[1..], rest, i - 1);
      assert fs[1..][i - 1..] == fs[i..] && vs[1..][i - 1..] == vs[i..];
    }
  }

  /** Where field i would stand, the octet of field j does. */
  lemma {:induction false} NextWritten<V(!new)>(
    fs: seq<Field<V>>, vs: seq<Option<Value<V>>>, i: nat, j: nat, o: byte)
    requires i <= j < |fs| == |vs| && AllOptional(fs[i..j]) && FitsFields(fs[i..], vs[i..])
    requires LoneField(fs[j], vs[j], o)
    requires forall k :: 0 <= k < |fs| && k != j && !fs[k].rule.Get? ==> vs[k].None?
    ensures |EncodeFields(fs[i..], vs[i..])| >= 1 && EncodeFields(fs[i..], vs[i..])[0] == o
    decreases j - i
  {
    hide EncodeField;
    var gs, ws := fs[i..], vs[i..];
    assert gs[1..] == fs[i + 1..] && ws[1..] == vs[i + 1..];
    assert EncodeFields(gs, ws) == EncodeField(gs[0], ws[0]) + EncodeFields(gs[1..], ws[1..]);
    if i == j {
      assert gs[0] == fs[j] && ws[0] == vs[j];
    } else {
      assert !fs[i..j][0].rule.Get? && fs[i..j][1..] == fs[i + 1..j];
      NotPresent(gs[0], ws[0]);
      NextWritten(fs, vs, i + 1, j, o);
    }
  }

  lemma NotPresent<V(!new)>(f: Field<V>, ov: Option<Value<V>>)
    requires FitsField(f, ov) && !Present(f.rule, ov)
    ensures EncodeField(f, ov) == []
  {
  }

  /** An optional field and behind it a mandatory one of the same type: no value without the optional
      one comes back, whatever follows. */
  lemma OptionalBeforeItself<V(!new)>(form: Form, item: Schema<V>, typ: TagNumber, x: Value<V>, tail: seq<byte>)
    requires Dependable(item) && forall o :: o in FirstOctets(item) ==> Tag(o) == typ
    requires var s := Sequence(form, [Field(Opt(typ), item), Field(Get, item)]);
             Encodable(s, SeqValue([None, Some(x)]))
    ensures var s := Sequence(form, [Field(Opt(typ), item), Field(Get, item)]);
            var v := SeqValue([None, Some(x)]);
            Decode(s, Encode(s, v) + tail) != Some((Canonical(s, v), |Encode(s, v)|))
  {
    hide Decode, FirstOctets, Encode, Fits, Complete, EncodeFields, Encodable, FitsFields, CanonicalFields;
    var fs, vs := [Field(Opt(typ), item), Field(Get, item)], [None, Some(x)];
    SecondField(form, fs, vs);
    FieldFirst(fs[1], vs[1]);
    var o := Encode(item, x)[0];
    assert fs[0..] == fs && vs[0..] == vs;
    NextWritten(fs, vs, 0, 1, o);
    SequenceExact(form, fs, vs, tail);
  }

  lemma SecondField<V(!new)>(form: Form, fs: seq<Field<V>>, vs: seq<Option<Value<V>>>)
    requires |fs| == 2 && Encodable(Sequence(form, fs), SeqValue(vs))
    ensures |vs| == 2 && FitsFields(fs, vs) && FitsField(fs[1], vs[1]) && CompleteField(fs[1], vs[1])
  {
    hide FitsField, CompleteField, Encode;
    assert FitsFields(fs, vs) && CompleteFields(fs, vs);
    assert FitsFields(fs[1..], vs[1..]) && CompleteFields(fs[1..], vs[1..]);
  }

  /** On any input: if a field's guard takes what comes next, the decoder puts a value in that field
      or in one before it, or fails. */
  lemma {:induction false} TaggedFieldTaken<V(!new)>(fs: seq<Field<V>>, w: seq<byte>, i: nat)
    requires i < |fs| && !fs[i].rule.Get? && Matches(fs[i], w)
    ensures DecodeFields(fs, w).Some? ==> exists m :: 0 <= m <= i && DecodeFields(fs, w).value.0[m].Some?
    decreases |fs|
  {
    hide Decode, DecodeExplicit, Retagged, MatchesOctet, DecodeFields;
    if DecodeField(fs[0], w).Some? {
      FieldsDecoded(fs, w);
      if !DecodeField(fs[0], w).value.0.Some? {
        assert !Matches(fs[0], w);
        assert w[0..] == w;
        TaggedFieldTaken(fs[1..], w, i - 1);
        if DecodeFields(fs, w).Some? {
          var m :| 0 <= m <= i - 1 && DecodeFields(fs[1..], w).value.0[m].Some?;
          assert DecodeFields(fs, w).value.0[m + 1].Some?;
        }
      } else if DecodeFields(fs, w).Some? {
        assert DecodeFields(fs, w).value.0[0].Some?;
      }
    } else {
      FirstFieldFails(fs, w);
    }
  }
}
