/**
  EXPLICIT wrappers: a definite one is not checked to be used up.
 */
module Wrappers {
  import opened Octets
  import opened Schema
  import opened RoundTrip

  // ----- Elements, from their headers alone (ITU-T X.690, sections 8.1.3 and 8.1.5) -----

  /** How many octets the element at the start of b takes. */
  function Element(b: seq<byte>): (r: Option<nat>)
    ensures r.Some? ==> 2 <= r.value <= |b|
    decreases |b|, 0
  {
    match GetObject(b)
    case None => None
    case Some(h) => if h.inf == INDEFINITE then Plus(h.size, UntilEnd(b[h.size..])) else Some(h.size + h.length)
  }

  /** How many octets elements up to end-of-contents, and these two, take. */
  function UntilEnd(w: seq<byte>): (r: Option<nat>)
    ensures r.Some? ==> r.value <= |w|
    decreases |w|, 1
  {
    if AtEndOfContents(w) then Some(2)
    else match Element(w)
      case None => None
      case Some(n) => Plus(n, UntilEnd(w[n..]))
  }

  function Plus(n: nat, r: Option<nat>): Option<nat> {
    if r.None? then None else Some(n + r.value)
  }

  /** A codec that takes the element it is shown, and never an end-of-contents. */
  ghost predicate Delimits<V(!new)>(c: Codec<V>) {
    forall b :: c.d2i(b).Some? ==> !AtEndOfContents(b) && Element(b) == Some(c.d2i(b).value.1)
  }

  /** A program over such codecs. */
  ghost predicate Delimited<V(!new)>(s: Schema<V>)
    decreases s
  {
    match s
    case Leaf(c) => Delimits(c)
    case Sequence(_, fs) => DelimitedFields(fs)
    case SequenceOf(_, e) => Delimited(e)
  }

  ghost predicate DelimitedFields<V(!new)>(fs: seq<Field<V>>)
    decreases fs
  {
    fs != [] ==> DelimitedField(fs[0]) && DelimitedFields(fs[1..])
  }

  ghost predicate DelimitedField<V(!new)>(f: Field<V>)
    decreases f
  {
    Delimited(f.item)
  }

  // ----- How far a program goes, from headers and guards alone -----

  /** How many octets of b the program takes if it accepts them; no codec is asked.  Contents of
      indefinite length are walked field by field or element by element, and an EXPLICIT field goes
      as far as what is in its wrapper does. */
  function Extent<V(!new)>(s: Schema<V>, b: seq<byte>): (r: Option<nat>)
    ensures r.Some? ==> 1 <= r.value <= |b|
    decreases s, 1, |b|
  {
    match s
    case Leaf(_) => Element(b)
    case Sequence(_, fs) =>
      (match Open(V_ASN1_SEQUENCE, b)
       case None => None
       case Some(h) =>
         if h.inf == INDEFINITE then Plus(h.size, ThenTwo(b[h.size..], FieldsExtent(fs, b[h.size..])))
         else Some(h.size + h.length))
    case SequenceOf(tag, e) =>
      match Open(tag, b)
      case None => None
      case Some(h) =>
        if h.inf == INDEFINITE then Plus(h.size, ItemsExtent(e, b[h.size..])) else Some(h.size + h.length)
  }

  /** n octets of w, and end-of-contents behind them. */
  function ThenTwo(w: seq<byte>, n: Option<nat>): (r: Option<nat>)
    requires n.Some? ==> n.value <= |w|
    ensures r.Some? ==> r.value <= |w|
  {
    if n.Some? && AtEndOfContents(w[n.value..]) then Some(n.value + 2) else None
  }

  function ItemsExtent<V(!new)>(e: Schema<V>, w: seq<byte>): (r: Option<nat>)
    ensures r.Some? ==> r.value <= |w|
    decreases e, 2, |w|
  {
    if AtEndOfContents(w) then Some(2)
    else match Extent(e, w)
      case None => None
      case Some(n) => Plus(n, ItemsExtent(e, w[n..]))
  }

  function FieldsExtent<V(!new)>(fs: seq<Field<V>>, w: seq<byte>): (r: Option<nat>)
    ensures r.Some? ==> r.value <= |w|
    decreases fs, 0, 0
  {
    if fs == [] then Some(0)
    else match FieldExtent(fs[0], w)
      case None => None
      case Some(n) => Plus(n, FieldsExtent(fs[1..], w[n..]))
  }

  function FieldExtent<V(!new)>(f: Field<V>, w: seq<byte>): (r: Option<nat>)
    ensures r.Some? ==> r.value <= |w|
    decreases f, 0, 0
  {
    if !Matches(f, w) then Some(0)
    else match f.rule
      case Imp(_, typ) => Extent(f.item, Retagged(w, typ))
      case Exp(_, _) => ExplicitExtent(f.item, w)
      case _ => Extent(f.item, w)
  }

  function ExplicitExtent<V(!new)>(s: Schema<V>, w: seq<byte>): (r: Option<nat>)
    ensures r.Some? ==> r.value <= |w|
    decreases s, 3, 0
  {
    match GetObject(w)
    case None => None
    case Some(h) =>
      if h.inf != INDEFINITE then Plus(h.size, Extent(s, w[h.size..h.size + h.length]))
      else if |w| - h.size < 2 then None
      else Plus(h.size, ThenTwo(w[h.size..], Extent(s, w[h.size..|w| - 2])))
  }

  /** On every input it accepts, a program takes its extent. */
  lemma {:induction false} TakesExtent<V(!new)>(s: Schema<V>, b: seq<byte>)
    requires Delimited(s) && Decode(s, b).Some?
    ensures Extent(s, b) == Some(Decode(s, b).value.1)
    decreases s, 1, |b|
  {
    hide GetObject, Open, DecodeFields, DecodeItems, Element, Delimits, AtEndOfContents, FieldsExtent, ItemsExtent;
    match s
    case Leaf(c) => LeafTakesElement(c, b);
    case Sequence(_, fs) =>
      var h := Open(V_ASN1_SEQUENCE, b).value;
      if h.inf == INDEFINITE {
        FieldsTakeExtent(fs, b[h.size..]);
      }
    case SequenceOf(tag, e) =>
      var h := Open(tag, b).value;
      if h.inf == INDEFINITE {
        ItemsTakeExtent(e, b[h.size..]);
      } else {
        ItemsTakeAll(e, Contents(h, b));
      }
  }

  lemma {:induction false} ItemsTakeExtent<V(!new)>(e: Schema<V>, w: seq<byte>)
    requires Delimited(e) && DecodeItems(e, w, true).Some?
    ensures ItemsExtent(e, w) == Some(DecodeItems(e, w, true).value.1)
    decreases e, 2, |w|
  {
    hide Decode, Delimited, Extent, FitsItems, Fits, AtEndOfContents;
    if !AtEndOfContents(w) {
      FirstItemDecoded(e, w);
      hide DecodeItems;
      TakesExtent(e, w);
      ItemsTakeExtent(e, w[Decode(e, w).value.1..]);
    }
  }

  lemma FirstItemDecoded<V(!new)>(e: Schema<V>, w: seq<byte>)
    requires DecodeItems(e, w, true).Some? && !AtEndOfContents(w)
    ensures Decode(e, w).Some?
    ensures var n := Decode(e, w).value.1;
            DecodeItems(e, w[n..], true).Some?
            && DecodeItems(e, w, true).value.1 == n + DecodeItems(e, w[n..], true).value.1
  {
    hide Decode, FitsItems, Fits, AtEndOfContents;
  }

  lemma {:induction false} FieldsTakeExtent<V(!new)>(fs: seq<Field<V>>, w: seq<byte>)
    requires DelimitedFields(fs) && DecodeFields(fs, w).Some?
    ensures FieldsExtent(fs, w) == Some(DecodeFields(fs, w).value.1)
    decreases fs, 0, 0
  {
    hide DecodeField, DelimitedField, FieldExtent, FitsFields;
    if fs != [] {
      FieldTakesExtent(fs[0], w);
      FieldsTakeExtent(fs[1..], w[DecodeField(fs[0], w).value.1..]);
    }
  }

  lemma {:induction false} FieldTakesExtent<V(!new)>(f: Field<V>, w: seq<byte>)
    requires DelimitedField(f) && DecodeField(f, w).Some?
    ensures FieldExtent(f, w) == Some(DecodeField(f, w).value.1)
    decreases f, 0, 0
  {
    hide Decode, DecodeExplicit, Delimited, Extent, ExplicitExtent, Retagged, MatchesOctet;
    if Matches(f, w) {
      match f.rule
      case Imp(_, typ) => TakesExtent(f.item, Retagged(w, typ));
      case Exp(_, _) => ExplicitTakesExtent(f.item, w);
      case _ => TakesExtent(f.item, w);
    }
  }

  lemma {:induction false} ExplicitTakesExtent<V(!new)>(s: Schema<V>, w: seq<byte>)
    requires Delimited(s) && DecodeExplicit(s, w).Some?
    ensures ExplicitExtent(s, w) == Some(DecodeExplicit(s, w).value.1)
    decreases s, 3, 0
  {
    hide Decode, Delimited, GetObject, Extent, AtEndOfContents, Fits;
    var h := GetObject(w).value;
    if h.inf == INDEFINITE {
      TakesExtent(s, w[h.size..|w| - 2]);
      var n := Decode(s, w[h.size..|w| - 2]).value.1;
      assert w[h.size..][n..] == w[h.size + n..];
    } else {
      TakesExtent(s, w[h.size..h.size + h.length]);
    }
  }

  // ----- Inputs whose wrappers are tight, again from the headers alone -----

  /** In contents of indefinite length, every definite wrapper the program meets holds one element. */
  ghost predicate Tight<V(!new)>(s: Schema<V>, b: seq<byte>)
    decreases s, 1, |b|
  {
    match s
    case Leaf(_) => true
    case Sequence(_, fs) =>
      var h := Open(V_ASN1_SEQUENCE, b);
      h.Some? && h.value.inf == INDEFINITE ==> TightFields(fs, b[h.value.size..])
    case SequenceOf(tag, e) =>
      var h := Open(tag, b);
      h.Some? && h.value.inf == INDEFINITE ==> TightItems(e, b[h.value.size..])
  }

  ghost predicate TightItems<V(!new)>(e: Schema<V>, w: seq<byte>)
    decreases e, 2, |w|
  {
    !AtEndOfContents(w) ==>
      Tight(e, w) && (Element(w).Some? ==> TightItems(e, w[Element(w).value..]))
  }

  ghost predicate TightFields<V(!new)>(fs: seq<Field<V>>, w: seq<byte>)
    decreases fs, 0, 0
  {
    fs != [] ==>
      && TightField(fs[0], w)
      && (FieldElement(fs[0], w).Some? ==> TightFields(fs[1..], w[FieldElement(fs[0], w).value..]))
  }

  /** What a field takes: an element if its guard is true. */
  function FieldElement<V(!new)>(f: Field<V>, w: seq<byte>): (r: Option<nat>)
    ensures r.Some? ==> r.value <= |w|
  {
    if Matches(f, w) then Element(w) else Some(0)
  }

  ghost predicate TightField<V(!new)>(f: Field<V>, w: seq<byte>)
    decreases f, 0, 0
  {
    Matches(f, w) ==>
      match f.rule
      case Imp(_, typ) => Tight(f.item, Retagged(w, typ))
      case Exp(_, _) => TightExplicit(f.item, w)
      case _ => Tight(f.item, w)
  }

  ghost predicate TightExplicit<V(!new)>(s: Schema<V>, w: seq<byte>)
    decreases s, 3, 0
  {
    match GetObject(w)
    case None => true
    case Some(h) =>
      if h.inf == INDEFINITE then h.size + 2 <= |w| ==> Tight(s, w[h.size..|w| - 2])
      else
        var inner := w[h.size..h.size + h.length];
        Element(inner) == Some(|inner|) && Tight(s, inner)
  }

  // ----- How much a program takes -----

  /** On such an input such a program, if it accepts, takes exactly one element. */
  lemma {:induction false} TakesElement<V(!new)>(s: Schema<V>, b: seq<byte>)
    requires Delimited(s) && Tight(s, b) && Decode(s, b).Some?
    ensures !AtEndOfContents(b) && Element(b) == Some(Decode(s, b).value.1)
    decreases s, 1, |b|
  {
    hide GetObject, DecodeFields, DecodeItems, UntilEnd, Delimits, TightFields, TightItems;
    match s
    case Leaf(c) => LeafTakesElement(c, b);
    case Sequence(_, fs) =>
      var h := Open(V_ASN1_SEQUENCE, b).value;
      HeaderIsNoEnd(V_ASN1_SEQUENCE, b);
      if h.inf == INDEFINITE {
        FieldsTakeElements(fs, b[h.size..]);
        EndTakesTwo(b[h.size..][DecodeFields(fs, b[h.size..]).value.1..]);
      }
    case SequenceOf(tag, e) =>
      var h := Open(tag, b).value;
      HeaderIsNoEnd(tag, b);
      if h.inf == INDEFINITE {
        ItemsTakeElements(e, b[h.size..]);
      } else {
        ItemsTakeAll(e, Contents(h, b));
      }
  }

  lemma LeafTakesElement<V(!new)>(c: Codec<V>, b: seq<byte>)
    requires Delimits(c) && c.d2i(b).Some?
    ensures !AtEndOfContents(b) && Element(b) == Some(c.d2i(b).value.1)
  {
    hide Element, AtEndOfContents;
  }

  lemma HeaderIsNoEnd(tag: Ident, b: seq<byte>)
    requires Open(tag, b).Some?
    ensures !AtEndOfContents(b) && GetObject(b) == Open(tag, b)
  {
    hide ParseLength;
  }

  lemma EndTakesTwo(w: seq<byte>)
    requires AtEndOfContents(w)
    ensures UntilEnd(w) == Some(2)
  {
  }

  lemma {:induction false} FieldsTakeElements<V(!new)>(fs: seq<Field<V>>, w: seq<byte>)
    requires DelimitedFields(fs) && TightFields(fs, w) && DecodeFields(fs, w).Some?
    ensures var m := DecodeFields(fs, w).value.1;
            UntilEnd(w) == Plus(m, UntilEnd(w[m..]))
    decreases fs, 0, 0
  {
    hide UntilEnd, DecodeField, DelimitedField, FitsFields, FieldElement, TightField;
    if fs == [] {
      assert w[0..] == w;
    } else {
      FieldTakesElement(fs[0], w);
      var n := DecodeField(fs[0], w).value.1;
      FieldsTakeElements(fs[1..], w[n..]);
      var m := DecodeFields(fs[1..], w[n..]).value.1;
      assert w[n..][m..] == w[n + m..];
    }
  }

  lemma {:induction false} FieldTakesElement<V(!new)>(f: Field<V>, w: seq<byte>)
    requires DelimitedField(f) && TightField(f, w) && DecodeField(f, w).Some?
    ensures var n := DecodeField(f, w).value.1;
            FieldElement(f, w) == Some(n) && UntilEnd(w) == Plus(n, UntilEnd(w[n..]))
    decreases f, 0, 0
  {
    hide Decode, DecodeExplicit, Delimited, Element, Retagged, Tight, TightExplicit;
    if !Matches(f, w) {
      assert w[0..] == w;
    } else if f.rule.Imp? {
      TakesElement(f.item, Retagged(w, f.rule.typ));
      RetaggedElement(w, f.rule.tag, f.rule.typ);
    } else if f.rule.Exp? {
      ExplicitTakesElement(f.item, w);
    } else {
      TakesElement(f.item, w);
    }
  }

  lemma {:induction false} ExplicitTakesElement<V(!new)>(s: Schema<V>, w: seq<byte>)
    requires Delimited(s) && TightExplicit(s, w) && DecodeExplicit(s, w).Some?
    ensures Element(w) == Some(DecodeExplicit(s, w).value.1)
    decreases s, 3, 0
  {
    hide Decode, Delimited, GetObject, Tight, UntilEnd, AtEndOfContents;
    var h := GetObject(w).value;
    if h.inf == INDEFINITE {
      var contents := w[h.size..];
      var inner := w[h.size..|w| - 2];
      TakesElement(s, inner);
      var n := Decode(s, inner).value.1;
      hide Element;
      assert contents == inner + w[|w| - 2..];
      assert contents[n..] == w[h.size + n..];
      ThenEnd(inner, w[|w| - 2..], n);
      IndefiniteElement(w);
    } else {
      TakesElement(s, w[h.size..h.size + h.length]);
    }
  }

  lemma IndefiniteElement(w: seq<byte>)
    requires GetObject(w).Some? && GetObject(w).value.inf == INDEFINITE
    ensures var size := GetObject(w).value.size;
            Element(w) == Plus(size, UntilEnd(w[size..]))
  {
  }

  /** An element and the end-of-contents behind it. */
  lemma ThenEnd(b: seq<byte>, more: seq<byte>, n: nat)
    requires !AtEndOfContents(b) && Element(b) == Some(n) && AtEndOfContents((b + more)[n..])
    ensures UntilEnd(b + more) == Some(n + 2)
  {
    hide Element;
    ElementExtends(b, more);
  }

  /** What stands behind an element does not change where it ends. */
  lemma {:induction false} ElementExtends(b: seq<byte>, more: seq<byte>)
    requires Element(b).Some?
    ensures Element(b + more) == Element(b)
    decreases |b|, 0
  {
    hide GetObject, UntilEnd;
    HeaderExtends(b, more);
    var h := GetObject(b).value;
    if h.inf == INDEFINITE {
      UntilEndExtends(b[h.size..], more);
      assert (b + more)[h.size..] == b[h.size..] + more;
    }
  }

  lemma {:induction false} UntilEndExtends(w: seq<byte>, more: seq<byte>)
    requires UntilEnd(w).Some?
    ensures UntilEnd(w + more) == UntilEnd(w)
    decreases |w|, 1
  {
    hide Element;
    if !AtEndOfContents(w) {
      ElementExtends(w, more);
      var n := Element(w).value;
      UntilEndExtends(w[n..], more);
      assert (w + more)[n..] == w[n..] + more;
    }
  }

  lemma HeaderExtends(b: seq<byte>, more: seq<byte>)
    requires GetObject(b).Some?
    ensures GetObject(b + more) == GetObject(b)
  {
    hide BigEndian;
    var l, m := b[1..], (b + more)[1..];
    assert m == l + more;
    if l[0] > 128 {
      var k := l[0] - 128;
      assert m[1..1 + k] == l[1..1 + k];
    }
  }

  /** Retagging an element does not move its end. */
  lemma RetaggedElement(w: seq<byte>, tag: TagNumber, typ: TagNumber)
    requires w != [] && Tag(w[0]) == CONTEXT_SPECIFIC + tag
    ensures !AtEndOfContents(w) && Element(Retagged(w, typ)) == Element(w)
  {
    hide GetObject, UntilEnd, Retagged;
    RetaggedHeader(w, tag, typ);
    if GetObject(w).Some? {
      RetaggedRest(w, typ, GetObject(w).value.size);
    }
  }

  lemma RetaggedRest(w: seq<byte>, typ: TagNumber, n: nat)
    requires 1 <= n <= |w|
    ensures |Retagged(w, typ)| == |w| && Retagged(w, typ)[n..] == w[n..]
  {
  }

  lemma RetaggedHeader(w: seq<byte>, tag: TagNumber, typ: TagNumber)
    requires w != [] && Tag(w[0]) == CONTEXT_SPECIFIC + tag
    ensures var r := GetObject(Retagged(w, typ));
            match GetObject(w)
            case None => r == None
            case Some(h) => r == Some(h.(tag := typ))
  {
    hide ParseLength;
    var r := Retagged(w, typ);
    SplitIdentifier(typ, w[0]);
    assert r[1..] == w[1..];
  }

  lemma {:induction false} ItemsTakeElements<V(!new)>(e: Schema<V>, w: seq<byte>)
    requires Delimited(e) && TightItems(e, w) && DecodeItems(e, w, true).Some?
    ensures UntilEnd(w) == Some(DecodeItems(e, w, true).value.1)
    decreases e, 2, |w|
  {
    hide Decode, Delimited, Element, FitsItems, Tight;
    if !AtEndOfContents(w) {
      TakesElement(e, w);
      ItemsTakeElements(e, w[Decode(e, w).value.1..]);
    }
  }

  lemma {:induction false} ItemsTakeAll<V(!new)>(e: Schema<V>, w: seq<byte>)
    requires DecodeItems(e, w, false).Some?
    ensures DecodeItems(e, w, false).value.1 == |w|
    decreases |w|
  {
    hide Decode, FitsItems;
    if w != [] {
      ItemsTakeAll(e, w[Decode(e, w).value.1..]);
    }
  }

  // ----- What is written is one element -----

  /** By its headers, what a well-formed program writes is exactly one element, whatever follows it, and
      every wrapper in it is tight. */
  lemma WrittenElement<V(!new)>(s: Schema<V>, v: Value<V>, tail: seq<byte>)
    requires WellFormed(s) && Delimited(s) && Encodable(s, v)
    ensures Tight(s, Encode(s, v) + tail)
    ensures !AtEndOfContents(Encode(s, v) + tail) && Element(Encode(s, v) + tail) == Some(|Encode(s, v)|)
    decreases s, 2, 0
  {
    hide WellFormed, Delimited, Tight, Element, Decode, Encode, Fits, Complete, Canonical;
    DecodeEncode(s, v, tail);
    WrittenTight(s, v, tail);
    TakesElement(s, Encode(s, v) + tail);
  }

  lemma {:induction false} WrittenTight<V(!new)>(s: Schema<V>, v: Value<V>, tail: seq<byte>)
    requires WellFormed(s) && Delimited(s) && Encodable(s, v)
    ensures Tight(s, Encode(s, v) + tail)
    decreases s, 1, 0
  {
    match s
    case Leaf(_) =>
    case Sequence(form, fs) =>
      hide Open, Frame, Contents, TightFields, EncodeFields, CompleteFields, FitsFields, WellFormedFields;
      var body := EncodeFields(fs, v.fields);
      FrameRead(V_ASN1_SEQUENCE, form, body, tail);
      if form.Indefinite? {
        var b := Encode(s, v) + tail;
        var h := Open(V_ASN1_SEQUENCE, b).value;
        assert b[h.size..] == body + AfterBody(form, tail) by { IndefiniteFrameRead(V_ASN1_SEQUENCE, body, tail); }
        EndIsClear(fs, AfterBody(form, tail));
        FieldsTight(fs, v.fields, AfterBody(form, tail));
      }
    case SequenceOf(tag, e) =>
      hide Open, Frame, Contents, TightItems, EncodeItems;
      FrameRead(tag, Definite, EncodeItems(e, v.items), tail);
  }

  lemma {:induction false} FieldsTight<V(!new)>(fs: seq<Field<V>>, vs: seq<Option<Value<V>>>, rest: seq<byte>)
    requires WellFormedFields(fs) && DelimitedFields(fs)
    requires FitsFields(fs, vs) && CompleteFields(fs, vs) && |EncodeFields(fs, vs)| <= INT_MAX
    requires ClearAfter(fs, rest)
    ensures TightFields(fs, EncodeFields(fs, vs) + rest)
    decreases fs, 0, 0
  {
    if fs != [] {
      hide WellFormedField, DelimitedField, FitsField, CompleteField, EncodeField, TightField, FieldElement;
      hide Matches, TellsApart, MatchesOctet;
      var head, more := EncodeField(fs[0], vs[0]), EncodeFields(fs[1..], vs[1..]) + rest;
      FieldsTight(fs[1..], vs[1..], rest);
      WellFormedApart(fs);
      ApartGuards(fs, vs, rest);
      assert EncodeFields(fs, vs) + rest == head + more;
      FieldTight(fs[0], vs[0], more);
      DropHead(head, more);
    }
  }

  lemma {:induction false} FieldTight<V(!new)>(f: Field<V>, ov: Option<Value<V>>, more: seq<byte>)
    requires WellFormedField(f) && DelimitedField(f) && FitsField(f, ov) && CompleteField(f, ov)
    requires |EncodeField(f, ov)| <= INT_MAX
    requires Matches(f, EncodeField(f, ov) + more) <==> Present(f.rule, ov)
    ensures var w := EncodeField(f, ov) + more;
            TightField(f, w) && FieldElement(f, w) == Some(|EncodeField(f, ov)|)
    decreases f, 1, 0
  {
    hide EncodeField, WellFormedField, DelimitedField, FitsField, CompleteField, TightField, DecodeField;
    hide Matches, FieldElement, SoundField;
    var w := EncodeField(f, ov) + more;
    if Present(f.rule, ov) {
      PresentTight(f, ov, more);
    } else {
      AbsentTight(f, w);
    }
    WellFormedSound(f);
    FieldRoundTrip(f, ov, more);
    FieldTakesElement(f, w);
  }

  lemma AbsentTight<V(!new)>(f: Field<V>, w: seq<byte>)
    requires !Matches(f, w)
    ensures TightField(f, w)
  {
    hide MatchesOctet;
  }

  lemma {:induction false} PresentTight<V(!new)>(f: Field<V>, ov: Option<Value<V>>, more: seq<byte>)
    requires WellFormedField(f) && DelimitedField(f) && FitsField(f, ov) && CompleteField(f, ov)
    requires |EncodeField(f, ov)| <= INT_MAX && Present(f.rule, ov)
    ensures TightField(f, EncodeField(f, ov) + more)
    decreases f, 0, 0
  {
    hide WellFormed, Delimited, Fits, Complete, Encode, Frame, Tight, TightExplicit, Retagged, MatchesOctet;
    match f.rule
    case Imp(_, _) =>
      WrittenTight(f.item, ov.value, more);
      RetaggedBack(f, ov, more);
    case Exp(tag, form) => WrappedTight(f.item, ov.value, CONTEXT_SPECIFIC + tag, form, more);
    case _ => WrittenTight(f.item, ov.value, more);
  }

  lemma RetaggedBack<V(!new)>(f: Field<V>, ov: Option<Value<V>>, more: seq<byte>)
    requires f.rule.Imp? && WellFormedField(f) && FitsField(f, ov) && CompleteField(f, ov) && Present(f.rule, ov)
    ensures Retagged(EncodeField(f, ov) + more, f.rule.typ) == Encode(f.item, ov.value) + more
  {
    hide WellFormed, Fits, Complete, Encode, FirstOctets;
    var e := Encode(f.item, ov.value);
    EncodeFirst(f.item, ov.value);
    SplitIdentifier(CONTEXT_SPECIFIC + f.rule.tag, e[0]);
    assert [e[0]] + (e[1..] + more) == e + more;
  }

  lemma {:induction false} WrappedTight<V(!new)>(s: Schema<V>, v: Value<V>, tag: Ident, form: Form, more: seq<byte>)
    requires WellFormed(s) && Delimited(s) && Fits(s, v) && Complete(s, v)
    requires |Frame(tag, form, Encode(s, v))| <= INT_MAX
    ensures TightExplicit(s, Frame(tag, form, Encode(s, v)) + more)
    decreases s, 3, 0
  {
    hide WellFormed, Delimited, Fits, Complete, Encode, Tight, Element, GetObject;
    var e := Encode(s, v);
    BodyInFrame(tag, form, e);
    hide Frame;
    FrameRead(tag, form, e, more);
    var w := Frame(tag, form, e) + more;
    var h := GetObject(w).value;
    match form {
      case Definite =>
        WrittenElement(s, v, []);
        assert e + [] == e;
        assert w[h.size..h.size + h.length] == e by { DefiniteFrameRead(tag, e, more); }
      case Indefinite =>
        var cut := (END_OF_CONTENTS + more)[..|more|];
        WrittenElement(s, v, cut);
        assert w[h.size..|w| - 2] == e + cut by {
          IndefiniteFrameRead(tag, e, more);
          assert w[2..|w| - 2] == w[2..][..|w| - 4];
        }
    }
  }

  lemma BodyInFrame(tag: Ident, form: Form, body: seq<byte>)
    ensures |body| < |Frame(tag, form, body)|
  {
  }

  // ----- What a wrapper may be left with -----

  predicate UsedUp<V(!new)>(s: Schema<V>, w: seq<byte>)
    requires GetObject(w).Some? && DecodeExplicit(s, w).Some?
  {
    DecodeExplicit(s, w).value.1 == GetObject(w).value.size + GetObject(w).value.length
  }

  lemma WrapperTakes<V(!new)>(s: Schema<V>, w: seq<byte>)
    requires GetObject(w).Some? && GetObject(w).value.inf != INDEFINITE
    requires DecodeExplicit(s, w).Some?
    ensures var h := GetObject(w).value;
            var inner := w[h.size..h.size + h.length];
            |inner| == h.length && Decode(s, inner).Some? && (UsedUp(s, w) <==> Decode(s, inner).value.1 == |inner|)
  {
    hide GetObject, Decode;
  }

  lemma LastTwo(w: seq<byte>, end: nat)
    requires end <= |w| && AtEndOfContents(w[end..])
    ensures w[end..] == END_OF_CONTENTS <==> end + 2 == |w|
  {
  }

  /** How many octets a SEQUENCE takes. */
  lemma SequenceTakes<V(!new)>(form: Form, fs: seq<Field<V>>, b: seq<byte>)
    requires Decode(Sequence(form, fs), b).Some?
    ensures GetObject(b).Some?
    ensures var h, n := GetObject(b).value, Decode(Sequence(form, fs), b).value.1;
            if h.inf != INDEFINITE then n == h.size + h.length
            else
              && DecodeFields(fs, b[h.size..]).Some?
              && var end := h.size + DecodeFields(fs, b[h.size..]).value.1;
                 AtEndOfContents(b[end..]) && n == end + 2
  {
    hide GetObject, DecodeFields, AtEndOfContents, FitsFields;
    HeaderIsNoEnd(V_ASN1_SEQUENCE, b);
    var h := GetObject(b).value;
    if h.inf == INDEFINITE {
      var m := DecodeFields(fs, b[h.size..]).value.1;
      assert b[h.size..][m..] == b[h.size + m..];
    }
  }

  /** How many octets a list with a definite length takes. */
  lemma SequenceOfTakes<V(!new)>(tag: Ident, e: Schema<V>, b: seq<byte>)
    requires Decode(SequenceOf(tag, e), b).Some?
    ensures GetObject(b).Some?
    ensures var h, n := GetObject(b).value, Decode(SequenceOf(tag, e), b).value.1;
            h.inf != INDEFINITE ==> n == h.size + h.length
  {
    hide GetObject, DecodeItems, FitsItems;
    HeaderIsNoEnd(tag, b);
    var h := Open(tag, b).value;
    if h.inf != INDEFINITE {
      ItemsTakeAll(e, Contents(h, b));
    }
  }

  /** Whether a definite wrapper is used up can be read off the headers in it, before any codec is
      asked: exactly when what is in it extends to its end.  That holds on every input, however loose
      the wrappers inside are, if only the codecs take the element they are shown. */
  lemma DefiniteWrapperUsedUp<V(!new)>(s: Schema<V>, w: seq<byte>)
    requires GetObject(w).Some? && GetObject(w).value.inf != INDEFINITE
    requires DecodeExplicit(s, w).Some?
    ensures var h := GetObject(w).value;
            var inner := w[h.size..h.size + h.length];
            Delimited(s) ==> (UsedUp(s, w) <==> Extent(s, inner) == Some(|inner|))
  {
    hide GetObject, Delimited, Decode, Extent;
    WrapperTakes(s, w);
    var h := GetObject(w).value;
    if Delimited(s) {
      TakesExtent(s, w[h.size..h.size + h.length]);
    }
  }

  /** Whatever the codecs: around a SEQUENCE or list of definite length, exactly when that length
      reaches the wrapper's end; around a SEQUENCE of indefinite length, exactly when the
      end-of-contents behind its last field are the wrapper's last two octets. */
  lemma WrappedFrameUsedUp<V(!new)>(s: Schema<V>, w: seq<byte>)
    requires !s.Leaf?
    requires GetObject(w).Some? && GetObject(w).value.inf != INDEFINITE
    requires DecodeExplicit(s, w).Some?
    ensures var h := GetObject(w).value;
            var inner := w[h.size..h.size + h.length];
            && GetObject(inner).Some?
            && var h2 := GetObject(inner).value;
               && (h2.inf != INDEFINITE ==> (UsedUp(s, w) <==> h2.size + h2.length == h.length))
               && (s.Sequence? && h2.inf == INDEFINITE ==>
                     && DecodeFields(s.fields, inner[h2.size..]).Some?
                     && var end := h2.size + DecodeFields(s.fields, inner[h2.size..]).value.1;
                        AtEndOfContents(inner[end..]) && (UsedUp(s, w) <==> inner[end..] == END_OF_CONTENTS))
  {
    hide GetObject, DecodeFields, Decode, AtEndOfContents;
    var h := GetObject(w).value;
    var inner := w[h.size..h.size + h.length];
    WrapperTakes(s, w);
    if s.Sequence? {
      SequenceTakes(s.form, s.fields, inner);
      var h2 := GetObject(inner).value;
      if h2.inf == INDEFINITE {
        var end := h2.size + DecodeFields(s.fields, inner[h2.size..]).value.1;
        LastTwo(inner, end);
      }
    } else {
      SequenceOfTakes(s.tag, s.elem, inner);
    }
  }

  /** Where the wrappers inside are tight, exactly when the contents are one element. */
  lemma TightWrapperUsedUp<V(!new)>(s: Schema<V>, w: seq<byte>)
    requires GetObject(w).Some? && GetObject(w).value.inf != INDEFINITE
    requires DecodeExplicit(s, w).Some?
    ensures var h := GetObject(w).value;
            var inner := w[h.size..h.size + h.length];
            Delimited(s) && Tight(s, inner) ==> (UsedUp(s, w) <==> Element(inner) == Some(|inner|))
  {
    hide GetObject, Element, Delimited, Decode, Tight;
    WrapperTakes(s, w);
    var h := GetObject(w).value;
    var inner := w[h.size..h.size + h.length];
    if Delimited(s) && Tight(s, inner) {
      TakesElement(s, inner);
    }
  }

  /** A field written inside the wrapper of the one before it is accepted as if it stood after it. */
  lemma FieldInsideWrapperAccepted<V(!new)>(
    item: Schema<V>, x: Value<V>, tag: TagNumber, g: Field<V>, y: Option<Value<V>>)
    requires Dependable(item) && Encodable(item, x)
    requires SoundField(g) && (!g.rule.Get? ==> OwnGuard(g))
    requires FitsField(g, y) && CompleteField(g, y) && |EncodeField(g, y)| <= INT_MAX
    requires |Encode(item, x) + EncodeField(g, y)| <= INT_MAX
    ensures var contents := Encode(item, x) + EncodeField(g, y);
            var b := ConstructedHeader(CONTEXT_SPECIFIC + tag, |contents|) + contents;
            DecodeFields([Field(Exp(tag, Definite), item), g], b)
            == Some(([Some(Canonical(item, x)), CanonicalField(g, y)], |b|))
  {
    hide Decode, DecodeField, DecodeFields, ConstructedHeader, Encode, EncodeField, Canonical, CanonicalField;
    hide Dependable, Fits, Complete;
    var f := Field(Exp(tag, Definite), item);
    var e, e2 := Encode(item, x), EncodeField(g, y);
    var h := ConstructedHeader(CONTEXT_SPECIFIC + tag, |e + e2|);
    var b := h + (e + e2);
    Depend(item, x, e2);
    LastFieldRead(g, y);
    LongWrapperRead(f, e, e2, Canonical(item, x));
    assert b[|h| + |e|..] == e2;
    DecodeTwoFields(f, g, b);
  }

  /** A field with nothing behind it comes back. */
  lemma LastFieldRead<V(!new)>(f: Field<V>, ov: Option<Value<V>>)
    requires SoundField(f) && (!f.rule.Get? ==> OwnGuard(f))
    requires FitsField(f, ov) && CompleteField(f, ov) && |EncodeField(f, ov)| <= INT_MAX
    ensures DecodeField(f, EncodeField(f, ov)) == Some((CanonicalField(f, ov), |EncodeField(f, ov)|))
  {
    hide DecodeField, EncodeField, CanonicalField, SoundField, FieldOctets, MatchesOctet, FitsField, CompleteField;
    var e := EncodeField(f, ov);
    assert e + [] == e;
    FieldRoundTrip(f, ov, []);
    if Present(f.rule, ov) {
      FieldFirst(f, ov);
    } else {
      NotGet(f, ov);
    }
  }

  lemma LongWrapperRead<V(!new)>(f: Field<V>, e: seq<byte>, e2: seq<byte>, v: Value<V>)
    requires f.rule.Exp? && Decode(f.item, e + e2) == Some((v, |e|)) && |e + e2| <= INT_MAX
    ensures var h := ConstructedHeader(CONTEXT_SPECIFIC + f.rule.tag, |e + e2|);
            DecodeField(f, h + (e + e2)) == Some((Some(v), |h| + |e|))
  {
    hide Decode, GetObject, LengthOctets;
    var h := ConstructedHeader(CONTEXT_SPECIFIC + f.rule.tag, |e + e2|);
    DefiniteHeaderRead(CONTEXT_SPECIFIC + f.rule.tag, |e + e2|, e + e2);
    assert (h + (e + e2))[|h|..|h| + |e + e2|] == e + e2;
  }

  lemma DecodeTwoFields<V(!new)>(f: Field<V>, g: Field<V>, w: seq<byte>)
    requires DecodeField(f, w).Some?
    requires DecodeField(g, w[DecodeField(f, w).value.1..]).Some?
    ensures var (x, n) := DecodeField(f, w).value;
            var (y, m) := DecodeField(g, w[n..]).value;
            DecodeFields([f, g], w) == Some(([x, y], n + m))
  {
    hide DecodeField;
    assert [f, g][1..] == [g] && [g][1..] == [];
    var (x, n) := DecodeField(f, w).value;
    var (y, m) := DecodeField(g, w[n..]).value;
    assert DecodeFields<V>([], w[n..][m..]) == Some(([], 0));
    assert DecodeFields([g], w[n..]) == Some(([y] + [], m + 0));
    assert [x] + ([y] + []) == [x, y];
  }
}
