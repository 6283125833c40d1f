/**
  Programs that start with M_ASN1_D2I_begin: no header says how long they are, and their guards ask
  only whether `c.slen` is zero.
 */
module Bare {
  import opened Octets
  import opened Schema
  import opened RoundTrip
  import opened Objects
  import opened Decoder

  // ----- Where the guards look -----

  /** The offsets at which a run of get macros reads M_ASN1_next, when `c.p` is at offset p, w are the
      octets it was given and `c.slen` is slen: an optional macro looks wherever `c.slen` is not zero,
      and the first macro that fails ends the run. */
  ghost function Peeks<V(!new)>(fs: seq<Field<V>>, w: seq<byte>, p: nat, slen: int): set<nat>
    decreases |fs|
  {
    if fs == [] then {}
    else
      (if !fs[0].rule.Get? && slen != 0 then {p} else {})
      + match DecodeField(fs[0], w)
        case None => {}
        case Some((_, n)) => Peeks(fs[1..], w[n..], p + n, slen - n)
  }

  /** Every look is at an octet of the contents. */
  ghost predicate LooksInside<V(!new)>(fs: seq<Field<V>>, w: seq<byte>, slen: int) {
    forall k :: k in Peeks(fs, w, 0, slen) ==> k < slen
  }

  /** Whatever the length and whatever the octets, the guards of a bare run look only at its contents
      if and only if the length is not negative, or no guard comes before the first codec. */
  lemma GuardsLookInside<V(!new)>(fs: seq<Field<V>>, w: seq<byte>, length: int)
    requires |w| == if length < 0 then 0 else length
    ensures LooksInside(fs, w, length) <==> 0 <= length || NoGuardFirst(fs)
  {
    hide DecodeField;
    if 0 <= length {
      RunLooksInside(fs, w, 0);
    } else if fs != [] {
      if fs[0].rule.Get? {
        NothingToGet(fs[0], w);
      } else {
        assert 0 in Peeks(fs, w, 0, length);
      }
    }
  }

  lemma {:induction false} RunLooksInside<V(!new)>(fs: seq<Field<V>>, w: seq<byte>, p: nat)
    ensures forall k :: k in Peeks(fs, w, p, |w|) ==> k < p + |w|
    decreases |fs|
  {
    hide DecodeField;
    if fs != [] && DecodeField(fs[0], w).Some? {
      var n := DecodeField(fs[0], w).value.1;
      RunLooksInside(fs[1..], w[n..], p + n);
    }
  }

  lemma NothingToGet<V(!new)>(f: Field<V>, w: seq<byte>)
    requires f.rule.Get? && w == []
    ensures DecodeField(f, w) == None
  {
    assert Decode(f.item, w).None?;
  }

  // ----- The negative length of a truncated wrapper -----

  /** The Tlen that get_EXP_opt computes for a wrapper of indefinite length. */
  function IndefiniteTlen(w: seq<byte>): int
    requires GetObject(w).Some?
  {
    |w| - GetObject(w).value.size - 2
  }

  /** It is negative when fewer than four octets are left, header included. */
  lemma TlenSign(w: seq<byte>)
    requires GetObject(w).Some? && GetObject(w).value.inf == INDEFINITE
    ensures GetObject(w).value.size == 2
    ensures IndefiniteTlen(w) < 0 <==> |w| < 4
  {
  }

  /** So a bare program inside such a wrapper looks only at its contents if and only if four octets
      are left or no guard comes before its first codec. */
  lemma WrappedGuardsLookInside<V(!new)>(fs: seq<Field<V>>, w: seq<byte>)
    requires GetObject(w).Some? && GetObject(w).value.inf == INDEFINITE
    ensures var Tlen := IndefiniteTlen(w);
            LooksInside(fs, Window(w, GetObject(w).value.size, Tlen), Tlen) <==> 4 <= |w| || NoGuardFirst(fs)
  {
    hide GetObject, LooksInside;
    TlenSign(w);
    var Tlen := IndefiniteTlen(w);
    GuardsLookInside(fs, Window(w, GetObject(w).value.size, Tlen), Tlen);
  }

  /** The octets A0 80 and nothing behind them: the guard of an EXPLICIT field takes them, Tlen is -2,
      and a bare program in the wrapper that starts with a guard looks behind the input. */
  lemma TruncatedWrapper<V(!new)>(item: Schema<V>, form: Form, fs: seq<Field<V>>)
    requires !NoGuardFirst(fs)
    ensures var w := [0xa0, 0x80];
            && Matches(Field(Exp(0, form), item), w)
            && GetObject(w) == Some(Header(2, INDEFINITE, 0, CONTEXT_SPECIFIC))
            && IndefiniteTlen(w) == -2
            && 0 in Peeks(fs, Window(w, 2, -2), 0, -2)
  {
    hide DecodeField;
    var w: seq<byte> := [0xa0, 0x80];
    assert IndefiniteHeader(CONTEXT_SPECIFIC) + [] == w;
    IndefiniteHeaderRead(CONTEXT_SPECIFIC, []);
  }

  // ----- Round trip -----

  /** Read into a new object with memory to spare, the fields come back, and *pp stops behind them,
      if and only if no guard is misled by what is written or by what follows. */
  lemma BareExact<V(!new)>(
    form: Form, fs: seq<Field<V>>, vs: seq<Option<Value<V>>>, rest: seq<byte>,
    a: Slot<V>, ret: Option<Obj<V>>, moved: int, a': Slot<V>)
    requires SoundFields(fs) && FitsFields(fs, vs) && CompleteFields(fs, vs)
    requires |EncodeFields(fs, vs)| <= INT_MAX && a.Held().None?
    requires Returned(Sequence(form, fs), AsStructure(DecodeFields(fs, EncodeFields(fs, vs) + rest)), a, true,
                      ret, moved, a')
    ensures ret.Some? && Content(ret.value) == SeqValue(CanonicalFields(fs, vs)) && moved == |EncodeFields(fs, vs)|
            <==> GuardsAgree(fs, vs, rest)
  {
    hide DecodeFields, EncodeFields, CanonicalFields, GuardsAgree, SoundFields, FitsFields, CompleteFields;
    hide Content, Fits, Ids;
    FieldsExact(fs, vs, rest);
  }

  /** In a well-formed program that is so for all values, whatever follows that no guard the run may
      end on takes. */
  lemma BareRoundTrip<V(!new)>(
    form: Form, fs: seq<Field<V>>, vs: seq<Option<Value<V>>>, rest: seq<byte>,
    a: Slot<V>, ret: Option<Obj<V>>, moved: int, a': Slot<V>)
    requires WellFormedFields(fs) && FitsFields(fs, vs) && CompleteFields(fs, vs) && ClearAfter(fs, rest)
    requires |EncodeFields(fs, vs)| <= INT_MAX && a.Held().None?
    requires Returned(Sequence(form, fs), AsStructure(DecodeFields(fs, EncodeFields(fs, vs) + rest)), a, true,
                      ret, moved, a')
    ensures ret.Some? && Content(ret.value) == SeqValue(CanonicalFields(fs, vs)) && moved == |EncodeFields(fs, vs)|
  {
    hide DecodeFields, EncodeFields, CanonicalFields, GuardsAgree, SoundFields, FitsFields, CompleteFields;
    hide WellFormedFields, ClearAfter, Returned, Content, Apart;
    WellFormedApart(fs);
    ApartGuards(fs, vs, rest);
    BareExact(form, fs, vs, rest, a, ret, moved, a');
  }
}
