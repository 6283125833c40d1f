/**
  Programs of the M_ASN1_I2D_* and M_ASN1_D2I_* macros as data, and what they mean: `Encode` is
  the octets a value stands for, `Decode` the value read from a window of octets.
 */
module Schema {
  import opened Octets

  /** A d2i/i2d pair the macros call as `func` and `f`.  `valid` says which values it encodes
      faithfully, `firsts` are the octets what it writes of them may start with. */
  datatype CodecFunctions<!V> = CodecFunctions(
    i2d: V -> seq<byte>,
    d2i: seq<byte> -> Option<(V, nat)>,
    valid: V -> bool,
    firsts: set<byte>)

  /** The part of the contract that holds of any value and any input: i2d writes at least one
      octet; d2i fails or consumes between 1 and `length` octets. */
  ghost predicate Bounded<V(!new)>(c: CodecFunctions<V>) {
    && (forall v :: |c.i2d(v)| >= 1)
    && (forall b :: c.d2i(b).Some? ==> 1 <= c.d2i(b).value.1 <= |b|)
  }

  type Codec<!V(!new)> = c: CodecFunctions<V> | Bounded(c)
    witness CodecFunctions(_ => [0], _ => None, _ => false, {})

  /** The rest of the contract: d2i reads back what i2d wrote, whatever octets follow. */
  ghost predicate Faithful<V(!new)>(c: Codec<V>) {
    && (forall v :: c.valid(v) ==> c.i2d(v)[0] in c.firsts)
    && (forall v, tail :: c.valid(v) ==> c.d2i(c.i2d(v) + tail) == Some((v, |c.i2d(v)|)))
  }

  datatype Form = Definite | Indefinite

  /** A codec: a given one, a SEQUENCE of fields, or i2d_ASN1_SET/d2i_ASN1_SET over one. */
  datatype Schema<!V(!new)> =
    | Leaf(codec: Codec<V>)
    | Sequence(form: Form, fields: seq<Field<V>>)
    | SequenceOf(tag: Ident, elem: Schema<V>)

  datatype Field<!V(!new)> = Field(rule: Rule, item: Schema<V>)

  /** The macros that read and write one field. */
  datatype Rule =
    | Get                               // get; len, put
    | Opt(typ: TagNumber)               // get_opt; len_IMP_opt, put when present
    | Imp(tag: TagNumber, typ: TagNumber) // get_IMP_opt; len_IMP_opt, put_IMP_opt
    | SeqOpt                            // get_seq_opt, get_IMP_set_opt; len/put_[IMP_]SEQUENCE_opt
    | Exp(tag: TagNumber, form: Form)   // get_EXP_opt, get_EXP_set_opt; len/put_EXP_[SEQUENCE_]opt

  datatype Value<+V> =
    | LeafValue(v: V)
    | SeqValue(fields: seq<Option<Value<V>>>)
    | ListValue(items: seq<Value<V>>)

  // ----- Which values a program may be given -----

  /** The C type of the value: the shape of the structure the program walks over. */
  ghost predicate Fits<V(!new)>(s: Schema<V>, v: Value<V>)
    decreases s, 0
  {
    match s
    case Leaf(_) => v.LeafValue?
    case Sequence(_, fs) => v.SeqValue? && FitsFields(fs, v.fields)
    case SequenceOf(_, e) => v.ListValue? && FitsItems(e, v.items)
  }

  ghost predicate FitsItems<V(!new)>(e: Schema<V>, vs: seq<Value<V>>)
    decreases e, 1, |vs|
  {
    vs != [] ==> Fits(e, vs[0]) && FitsItems(e, vs[1..])
  }

  ghost predicate FitsFields<V(!new)>(fs: seq<Field<V>>, vs: seq<Option<Value<V>>>)
    decreases fs
  {
    && |fs| == |vs|
    && (fs != [] ==> FitsField(fs[0], vs[0]) && FitsFields(fs[1..], vs[1..]))
  }

  ghost predicate FitsField<V(!new)>(f: Field<V>, ov: Option<Value<V>>)
    decreases f
  {
    ov.Some? ==> Fits(f.item, ov.value)
  }

  /** Every mandatory component is there and every leaf is one its codec can write. */
  ghost predicate Complete<V(!new)>(s: Schema<V>, v: Value<V>)
    requires Fits(s, v)
    decreases s, 0
  {
    match s
    case Leaf(c) => c.valid(v.v)
    case Sequence(_, fs) => CompleteFields(fs, v.fields)
    case SequenceOf(_, e) => CompleteItems(e, v.items)
  }

  ghost predicate CompleteItems<V(!new)>(e: Schema<V>, vs: seq<Value<V>>)
    requires FitsItems(e, vs)
    decreases e, 1, |vs|
  {
    vs != [] ==> Complete(e, vs[0]) && CompleteItems(e, vs[1..])
  }

  ghost predicate CompleteFields<V(!new)>(fs: seq<Field<V>>, vs: seq<Option<Value<V>>>)
    requires FitsFields(fs, vs)
    decreases fs
  {
    fs != [] ==>
      CompleteField(fs[0], vs[0]) && CompleteFields(fs[1..], vs[1..])
  }

  ghost predicate CompleteField<V(!new)>(f: Field<V>, ov: Option<Value<V>>)
    requires FitsField(f, ov)
    decreases f
  {
    && (f.rule.Get? ==> ov.Some?)
    && (ov.Some? ==> Complete(f.item, ov.value))
  }

  /** The guard of the put macros: not NULL, and in the list variants not empty. */
  predicate Present<V>(r: Rule, ov: Option<Value<V>>) {
    ov.Some? && ((r.SeqOpt? || r.Exp?) && ov.value.ListValue? ==> ov.value.items != [])
  }

  // ----- Encoding -----

  function Frame(tag: Ident, form: Form, body: seq<byte>): seq<byte> {
    match form
    case Definite => ConstructedHeader(tag, |body|) + body
    case Indefinite => IndefiniteHeader(tag) + body + END_OF_CONTENTS
  }

  function Encode<V(!new)>(s: Schema<V>, v: Value<V>): (r: seq<byte>)
    requires Fits(s, v)
    ensures |r| >= 1
    decreases s, 1, 0
  {
    match s
    case Leaf(c) => c.i2d(v.v)
    case Sequence(form, fs) => Frame(V_ASN1_SEQUENCE, form, EncodeFields(fs, v.fields))
    case SequenceOf(tag, e) => Frame(tag, Definite, EncodeItems(e, v.items))
  }

  function EncodeItems<V(!new)>(e: Schema<V>, vs: seq<Value<V>>): seq<byte>
    requires FitsItems(e, vs)
    decreases e, 2, |vs|
  {
    if vs == [] then [] else Encode(e, vs[0]) + EncodeItems(e, vs[1..])
  }

  function EncodeFields<V(!new)>(fs: seq<Field<V>>, vs: seq<Option<Value<V>>>): seq<byte>
    requires FitsFields(fs, vs)
    decreases fs, 0, 0
  {
    if fs == [] then [] else EncodeField(fs[0], vs[0]) + EncodeFields(fs[1..], vs[1..])
  }

  function EncodeField<V(!new)>(f: Field<V>, ov: Option<Value<V>>): seq<byte>
    requires FitsField(f, ov)
    decreases f, 0, 0
  {
    if !Present(f.rule, ov) then []
    else
      var e := Encode(f.item, ov.value);
      match f.rule
      case Imp(tag, _) => [CONTEXT_SPECIFIC + tag + ConstructedBit(e[0])] + e[1..]
      case Exp(tag, form) => Frame(CONTEXT_SPECIFIC + tag, form, e)
      case _ => e
  }

  // ----- Decoding -----

  /** The header asn1_GetSequence and d2i_ASN1_SET accept: constructed, with the given tag. */
  function Open(tag: Ident, b: seq<byte>): (r: Option<Header>)
    ensures r.Some? ==> 2 <= r.value.size && r.value.size + r.value.length <= |b|
  {
    match GetObject(b)
    case Some(h) => if h.inf != 0 && h.tag == tag then Some(h) else None
    case None => None
  }

  /** The octets `c.p` may range over: to the end of the window when the length is indefinite. */
  function Contents(h: Header, b: seq<byte>): seq<byte>
    requires h.size + h.length <= |b|
  {
    if h.inf == INDEFINITE then b[h.size..] else b[h.size..h.size + h.length]
  }

  /** asn1_const_Finish after n octets of w: how many octets the contents and their end take. */
  function Close(h: Header, w: seq<byte>, n: nat): (r: Option<nat>)
    requires n <= |w|
    ensures r.Some? ==> n <= r.value <= |w|
  {
    if h.inf == INDEFINITE then (if AtEndOfContents(w[n..]) then Some(n + 2) else None)
    else if n == |w| then Some(n) else None
  }

  /** The value read from window b, and the octets consumed. */
  function Decode<V(!new)>(s: Schema<V>, b: seq<byte>): (r: Option<(Value<V>, nat)>)
    ensures r.Some? ==> 1 <= r.value.1 <= |b| && Fits(s, r.value.0)
    decreases s, 1, |b|
  {
    match s
    case Leaf(c) =>
      (match c.d2i(b)
       case None => None
       case Some((v, n)) => Some((LeafValue(v), n)))
    case Sequence(_, fs) =>
      (match DecodeSequence(fs, b)
       case None => None
       case Some((vs, n)) => Some((SeqValue(vs), n)))
    case SequenceOf(tag, e) =>
      match Open(tag, b)
      case None => None
      case Some(h) =>
        match DecodeItems(e, Contents(h, b), h.inf == INDEFINITE)
        case None => None
        case Some((vs, n)) => Some((ListValue(vs), h.size + n))
  }

  /** A SEQUENCE frame and the fields in it. */
  function DecodeSequence<V(!new)>(fs: seq<Field<V>>, b: seq<byte>): (r: Option<(seq<Option<Value<V>>>, nat)>)
    ensures r.Some? ==> 1 <= r.value.1 <= |b| && |r.value.0| == |fs| && FitsFields(fs, r.value.0)
    decreases fs, 1, 0
  {
    match Open(V_ASN1_SEQUENCE, b)
    case None => None
    case Some(h) =>
      match DecodeFields(fs, Contents(h, b))
      case None => None
      case Some((vs, n)) =>
        match Close(h, Contents(h, b), n)
        case None => None
        case Some(m) => Some((vs, h.size + m))
  }

  /** M_ASN1_D2I_end_sequence when w is left. */
  predicate Ended(indefinite: bool, w: seq<byte>) {
    if indefinite then AtEndOfContents(w) else w == []
  }

  /** Elements until M_ASN1_D2I_end_sequence holds. */
  function DecodeItems<V(!new)>(e: Schema<V>, w: seq<byte>, indefinite: bool)
    : (r: Option<(seq<Value<V>>, nat)>)
    ensures r.Some? ==> r.value.1 <= |w| && FitsItems(e, r.value.0)
    decreases e, 2, |w|
  {
    if Ended(indefinite, w) then Some(([], if indefinite then 2 else 0))
    else match Decode(e, w)
      case None => None
      case Some((v, n)) =>
        match DecodeItems(e, w[n..], indefinite)
        case None => None
        case Some((vs, m)) => Some(([v] + vs, n + m))
  }

  function DecodeFields<V(!new)>(fs: seq<Field<V>>, w: seq<byte>)
    : (r: Option<(seq<Option<Value<V>>>, nat)>)
    ensures r.Some? ==> r.value.1 <= |w| && |r.value.0| == |fs| && FitsFields(fs, r.value.0)
    decreases fs, 0, 0
  {
    if fs == [] then Some(([], 0))
    else match DecodeField(fs[0], w)
      case None => None
      case Some((ov, n)) =>
        match DecodeFields(fs[1..], w[n..])
        case None => None
        case Some((vs, m)) => Some(([ov] + vs, n + m))
  }

  /** The guard of an optional get macro on the next octet. */
  predicate MatchesOctet<V(!new)>(f: Field<V>, o: byte) {
    match f.rule
    case Get => true
    case Opt(typ) => Tag(o) == typ
    case Imp(tag, _) => Tag(o) == CONTEXT_SPECIFIC + tag
    case SeqOpt => f.item.SequenceOf? && o == f.item.tag + CONSTRUCTED
    case Exp(tag, _) => o == CONTEXT_SPECIFIC + tag + CONSTRUCTED
  }

  /** Mandatory fields are read without looking. */
  predicate Matches<V(!new)>(f: Field<V>, w: seq<byte>) {
    f.rule.Get? || (w != [] && MatchesOctet(f, w[0]))
  }

  /** The input as the codec of an IMPLICIT field sees it. */
  function Retagged(w: seq<byte>, typ: TagNumber): seq<byte>
    requires w != []
  {
    [ConstructedBit(w[0]) + typ] + w[1..]
  }

  function Filled<V>(r: Option<(Value<V>, nat)>): Option<(Option<Value<V>>, nat)> {
    match r
    case None => None
    case Some((v, n)) => Some((Some(v), n))
  }

  function DecodeField<V(!new)>(f: Field<V>, w: seq<byte>): (r: Option<(Option<Value<V>>, nat)>)
    ensures r.Some? ==> r.value.1 <= |w|
    ensures r.Some? ==> FitsField(f, r.value.0)
    decreases f, 0, 0
  {
    if !Matches(f, w) then Some((None, 0))
    else Filled(
      match f.rule
      case Imp(_, typ) => Decode(f.item, Retagged(w, typ))
      case Exp(_, _) => DecodeExplicit(f.item, w)
      case _ => Decode(f.item, w))
  }

  /** Inside an EXPLICIT wrapper: `Tlen` octets when definite, of which the inner codec may use
      fewer; all but the last two when indefinite, and then end-of-contents. */
  function DecodeExplicit<V(!new)>(s: Schema<V>, w: seq<byte>): (r: Option<(Value<V>, nat)>)
    ensures r.Some? ==> 1 <= r.value.1 <= |w| && Fits(s, r.value.0)
    decreases s, 3, 0
  {
    match GetObject(w)
    case None => None
    case Some(h) =>
      if h.inf == INDEFINITE then
        if |w| - h.size < 2 then None
        else
          match Decode(s, w[h.size..|w| - 2])
          case None => None
          case Some((v, n)) =>
            if AtEndOfContents(w[h.size + n..]) then Some((v, h.size + n + 2)) else None
      else
        match Decode(s, w[h.size..h.size + h.length])
        case None => None
        case Some((v, n)) => Some((v, h.size + n))
  }

  /** One step of `DecodeFields`, for proofs that hide the rest. */
  lemma FieldsDecoded<V(!new)>(fs: seq<Field<V>>, w: seq<byte>)
    requires fs != [] && DecodeField(fs[0], w).Some?
    ensures var (ov, n) := DecodeField(fs[0], w).value;
            DecodeFields(fs, w) == match DecodeFields(fs[1..], w[n..])
                                   case None => None
                                   case Some((vs, m)) => Some(([ov] + vs, n + m))
  {
    hide DecodeField, FitsFields;
  }

  // ----- What a frame must start with -----

  /** asn1_GetSequence on any octets: it accepts a readable header with the constructed bit and the tag
      asked for, and no other. */
  lemma OpenExact(tag: Ident, b: seq<byte>)
    ensures Open(tag, b).Some? <==> GetObject(b).Some? && b[0] == tag + CONSTRUCTED
    ensures Open(tag, b).Some? ==> Open(tag, b) == GetObject(b)
  {
    hide ParseLength;
  }

  lemma SequenceStarts<V(!new)>(form: Form, fs: seq<Field<V>>, b: seq<byte>)
    requires Decode(Sequence(form, fs), b).Some?
    ensures b[0] == V_ASN1_SEQUENCE + CONSTRUCTED
  {
    hide GetObject, Open, DecodeFields;
    OpenExact(V_ASN1_SEQUENCE, b);
  }

  lemma SequenceOfStarts<V(!new)>(tag: Ident, e: Schema<V>, b: seq<byte>)
    requires Decode(SequenceOf(tag, e), b).Some?
    ensures b[0] == tag + CONSTRUCTED
  {
    hide GetObject, Open, DecodeItems;
    OpenExact(tag, b);
  }
}
