/**
  The guards of the optional get macros, put to the header file's masks and to what the put macros write.
 */
module Guards {
  import opened Octets
  import opened Schema
  import opened RoundTrip

  /** On all 256 octets, the guards of get_opt and get_IMP_opt compare the octet without its constructed
      bit, those of get_EXP_opt, get_seq_opt and get_IMP_set_opt all of it. */
  lemma GuardsAreMasks<V(!new)>(f: Field<V>, o: bv8, t: bv8)
    requires match f.rule
             case Get => true
             case Opt(typ) => typ == t as int
             case Imp(tag, _) => tag == t as int
             case SeqOpt => f.item.SequenceOf? && f.item.tag == t as int
             case Exp(tag, _) => tag == t as int
    ensures MatchesOctet(f, o as int) <==>
              match f.rule
              case Get => true
              case Opt(_) => o & 0xdf == t
              case Imp(_, _) => o & 0xdf == 0x80 | t
              case SeqOpt => o == 0x20 | t
              case Exp(_, _) => o == 0x20 | 0x80 | t
  {
    hide Tag, ConstructedBit;
    match f.rule
    case Get =>
    case Opt(_) => TagIs(o, t);
    case Imp(_, _) => TagIsContext(o, t);
    case SeqOpt => OctetIsList(o, t);
    case Exp(_, _) => OctetIsWrapper(o, t);
  }

  lemma TagIs(o: bv8, t: bv8)
    ensures o & 0xdf == t <==> Tag(o as int) == t as int
  {
    MasksAgree(o);
    SameOctet(o & 0xdf, t);
  }

  lemma TagIsContext(o: bv8, t: bv8)
    requires t < 31
    ensures o & 0xdf == 0x80 | t <==> Tag(o as int) == CONTEXT_SPECIFIC + t as int
  {
    RetaggingAgrees(t, 0);
    assert 0x80 | t | (0 & 0x20) == 0x80 | t;
    TagIs(o, 0x80 | t);
  }

  lemma OctetIsList(o: bv8, t: bv8)
    requires (t as int / 32) % 2 == 0
    ensures o == 0x20 | t <==> o as int == t as int + CONSTRUCTED
  {
    ConstructedAgrees(t);
    SameOctet(o, 0x20 | t);
  }

  lemma OctetIsWrapper(o: bv8, t: bv8)
    requires t < 31
    ensures o == 0x20 | 0x80 | t <==> o as int == CONTEXT_SPECIFIC + t as int + CONSTRUCTED
  {
    RetaggingAgrees(t, 0x20);
    assert 0x20 | 0x80 | t == 0x80 | t | (0x20 & 0x20);
    SameOctet(o, 0x20 | 0x80 | t);
  }

  lemma SameOctet(x: bv8, y: bv8)
    ensures x == y <==> x as int == y as int
  {
    assert (x as int) as bv8 == x && (y as int) as bv8 == y;
  }

  /** `V_ASN1_CONSTRUCTED|t` for a class and tag number t */
  lemma ConstructedAgrees(t: bv8)
    requires (t as int / 32) % 2 == 0
    ensures (0x20 | t) as int == t as int + CONSTRUCTED
  {
    MasksAgree(t);
    assert t & 0x20 == 0;
    assert t as int == (t >> 6) as int * 64 + ((t >> 5) & 1) as int * 32 + (t & 0x1f) as int;
    var u := 0x20 | t;
    assert u as int == (u >> 6) as int * 64 + ((u >> 5) & 1) as int * 32 + (u & 0x1f) as int;
    assert u >> 6 == t >> 6 && (u >> 5) & 1 == 1 && u & 0x1f == t & 0x1f;
  }

  /** A guard takes what its own put macro writes, whatever the tag and the item; that of get_opt does if
      the item's type is the one it names. */
  lemma GuardTakesOwn<V(!new)>(f: Field<V>)
    ensures f.rule.SeqOpt? && f.item.SequenceOf? ==> OwnGuard(f)
    ensures f.rule.Imp? || f.rule.Exp? ==> OwnGuard(f)
    ensures f.rule.Opt? ==> ((forall o :: o in FirstOctets(f.item) ==> Tag(o) == f.rule.typ) <==> OwnGuard(f))
    ensures f.rule.SeqOpt? || f.rule.Imp? || f.rule.Exp? ==> !MatchesOctet(f, 0)
  {
    if f.rule.Imp? {
      hide FirstOctets;
      forall o | o in FieldOctets(f) ensures MatchesOctet(f, o) {
        var x :| x in FirstOctets(f.item) && o == CONTEXT_SPECIFIC + f.rule.tag + ConstructedBit(x);
        SplitIdentifier(CONTEXT_SPECIFIC + f.rule.tag, x);
      }
    } else if f.rule.Opt? {
      hide FirstOctets, Tag;
      assert FieldOctets(f) == FirstOctets(f.item);
      assert forall o :: MatchesOctet(f, o) <==> Tag(o) == f.rule.typ;
    }
  }

  /** So an optional list reads back under every tag, and an EXPLICIT field over every well-formed item. */
  lemma OnlyFieldWellFormed<V(!new)>(form: Form, f: Field<V>)
    requires WellFormed(f.item) && ((f.rule.SeqOpt? && f.item.SequenceOf?) || f.rule.Exp?)
    ensures WellFormed(Sequence(form, [f]))
  {
    hide FieldOctets, MatchesOctet;
    GuardTakesOwn(f);
    var rest := [f][1..];
    assert rest == [] && RunOctets(rest) == {} && WellFormedFields(rest);
    assert WellFormedFields([f]);
  }
}
