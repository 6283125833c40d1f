/**
  The M_ASN1_D2I_* macros: a context moved over the input, which IMPLICIT fields overwrite while
  they are read, and an object filled in as the fields arrive.
 */
module Decoder {
  import opened Octets
  import opened Schema
  import opened Objects

  /** The octets at p that a d2i function given this length may read. */
  ghost function Window(b: seq<byte>, p: nat, length: int): seq<byte>
    requires 0 < length ==> p + length <= |b|
  {
    if length <= 0 then [] else b[p..p + length]
  }

  /** The object a call leaves behind: in the caller's slot, or returned when there is none. */
  ghost function Left<V>(a: Slot<V>, ret: Option<Obj<V>>): Option<Obj<V>> {
    if a.Null? then ret else a.obj
  }

  /** What a d2i call with `*a` in slot a and octets w in its window comes to.  It fails exactly
      when w does not start with an encoding or an allocation was refused.  On success *pp moves
      past the encoding and *a is the result; on failure *pp has not moved and *a is NULL if it was.
      Always, *a keeps its type, the object the caller put there and every object below it. */
  ghost predicate Outcome<V(!new)>(
    s: Schema<V>, w: seq<byte>, a: Slot<V>, granted: bool,
    ret: Option<Obj<V>>, moved: int, a': Slot<V>)
  {
    Returned(s, Decode(s, w), a, granted, ret, moved, a')
  }

  /** The same when what is there to read comes to `decoded`. */
  ghost predicate Returned<V(!new)>(
    s: Schema<V>, decoded: Option<(Value<V>, nat)>, a: Slot<V>, granted: bool,
    ret: Option<Obj<V>>, moved: int, a': Slot<V>)
  {
    var left := Left(a', ret);
    && (ret.Some? <==> decoded.Some? && granted)
    && (ret.Some? ==>
          && moved == decoded.value.1
          && a' == (if a.Null? then Null else To(ret))
          && Content(ret.value) == Merge(ContentField(a.Held()), decoded.value.0))
    && (ret.None? ==> moved == 0 && a'.Null? == a.Null? && (a.Held().None? ==> a' == a))
    && (left.Some? ==> Fits(s, Content(left.value)))
    && (a.Held().Some? ==> left.Some? && left.value.id == a.Held().value.id)
    && IdsField(a.Held()) <= IdsField(left)
  }

  /** The same for one field of the structure being filled, when its octets decode to `decoded`. */
  ghost predicate FieldOutcome<V(!new)>(
    s: Schema<V>, decoded: Option<(Option<Value<V>>, nat)>, slot: Option<Obj<V>>, granted: bool,
    ok: bool, moved: int, slot': Option<Obj<V>>)
  {
    && (ok <==> decoded.Some? && granted)
    && (ok ==> moved == decoded.value.1 && ContentField(slot') == MergeField(ContentField(slot), decoded.value.0))
    && (slot'.Some? ==> Fits(s, Content(slot'.value)))
    && IdsField(slot) <= IdsField(slot')
  }

  /** And for a run of fields. */
  ghost predicate FieldsOutcome<V(!new)>(
    fs: seq<Field<V>>, decoded: Option<(seq<Option<Value<V>>>, nat)>, slots: seq<Option<Obj<V>>>, granted: bool,
    ok: bool, moved: int, slots': seq<Option<Obj<V>>>)
  {
    && (ok <==> decoded.Some? && granted)
    && FitsFields(fs, ContentFields(slots'))
    && |slots'| == |slots| == |fs|
    && (ok ==>
          && moved == decoded.value.1 && |decoded.value.0| == |fs|
          && ContentFields(slots') == MergeFields(ContentFields(slots), decoded.value.0))
    && IdsFields(slots) <= IdsFields(slots')
  }

  /** And for the elements of a list. */
  ghost predicate ItemsOutcome<V(!new)>(
    e: Schema<V>, decoded: Option<(seq<Value<V>>, nat)>, items: seq<Obj<V>>, granted: bool,
    ok: bool, moved: int, items': seq<Obj<V>>)
  {
    && (ok <==> decoded.Some? && granted)
    && FitsItems(e, ContentItems(items'))
    && (ok ==> moved == decoded.value.1 && ContentItems(items') == ContentItems(items) + decoded.value.0)
    && IdsItems(items) <= IdsItems(items')
  }

  /** The run reads M_ASN1_next only after a codec has succeeded. */
  predicate NoGuardFirst<V(!new)>(fs: seq<Field<V>>) {
    fs == [] || fs[0].rule.Get?
  }

  /** ASN1_const_CTX; pointers are offsets into the input. */
  class Context {
    var p: nat
    var q: nat
    var slen: int
    var inf: int
    var eos: bool
    var max: Option<int>

    /** M_ASN1_D2I_vars and M_ASN1_D2I_Init */
    constructor (pp: nat, length: int)
      ensures p == pp && !eos
      ensures max == if length == 0 then None else Some(pp + length)
    {
      p, q, slen, inf, eos := pp, pp, 0, 0, false;
      max := if length == 0 then None else Some(pp + length);
    }

    /** The cursor and what is left lie in the input, and in what the caller allowed. */
    ghost predicate Inside(b: seq<byte>)
      reads this
    {
      0 <= slen && p + slen <= |b| && (max.Some? ==> p + slen <= max.value)
    }

    /** What is left between the cursor and the end of the contents; `c.slen` is negative only where
        M_ASN1_D2I_begin was handed a negative length. */
    ghost function Rest(b: seq<byte>): seq<byte>
      requires Inside(b) || slen < 0
      reads this
    {
      if slen < 0 then [] else b[p..p + slen]
    }

    /** M_ASN1_D2I_start_sequence: asn1_GetSequence, with the tag d2i_ASN1_SET may ask for. */
    method GetSequence(buf: array<byte>, ghost b: seq<byte>, length: int, tag: Ident) returns (ok: bool)
      requires buf[..] == b
      requires 0 < length ==> p + length <= |b| && max == Some(p + length)
      modifies this`p, this`slen, this`inf
      ensures ok <==> Open(tag, Window(b, old(p), length)).Some?
      ensures ok ==>
                var w := Window(b, old(p), length);
                var h := Open(tag, w).value;
                && inf == h.inf && p == old(p) + h.size
                && Inside(b) && Rest(b) == Contents(h, w)
    {
      hide GetObject, Open;
      var w := if length <= 0 then [] else buf[p..p + length];
      assert w == Window(b, p, length);
      OpenExact(tag, w);
      var r := GetObject(w);
      ok := r.Some? && w[0] == tag + CONSTRUCTED;
      if ok {
        var h := r.value;
        inf, p := h.inf, p + h.size;
        slen := if h.inf == INDEFINITE then length - h.size else h.length;
      }
    }

    /** M_ASN1_D2I_begin: no surrounding SEQUENCE, and no look at the length. */
    method Begin(ghost b: seq<byte>, length: int)
      requires p <= |b| && (0 < length ==> p + length <= |b|)
      requires max == if length == 0 then None else Some(p + length)
      modifies this`slen
      ensures slen == length && (0 <= length ==> Inside(b))
      ensures Rest(b) == Window(b, p, length)
    {
      slen := length;
    }

    /** ASN1_const_check_infinite_end(&c.p, len) */
    method CheckInfiniteEnd(buf: array<byte>, ghost b: seq<byte>, len: int) returns (ok: bool)
      requires buf[..] == b && 0 <= len && p + len <= |b|
      modifies this`p
      ensures ok <==> AtEndOfContents(b[old(p)..old(p) + len])
      ensures p == old(p) + if ok then 2 else 0
    {
      ok := 2 <= len && buf[p] == 0 && buf[p + 1] == 0;
      if ok {
        p := p + 2;
      }
    }

    /** M_ASN1_D2I_end_sequence; a true answer in indefinite form has stepped over the end. */
    method EndSequence(buf: array<byte>, ghost b: seq<byte>, ghost w: seq<byte>) returns (end: bool)
      requires buf[..] == b && Inside(b) && w == Rest(b)
      modifies this`p, this`eos
      ensures end <==> Ended(inf == INDEFINITE, w)
      ensures inf == INDEFINITE ==> eos == end
      ensures p == old(p) + if end && inf == INDEFINITE then 2 else 0
    {
      if inf != INDEFINITE {
        end := slen <= 0;
      } else {
        end := CheckInfiniteEnd(buf, b, slen);
        eos := end;
      }
    }

    /** asn1_const_Finish */
    method Finish(buf: array<byte>, ghost b: seq<byte>, ghost w: seq<byte>) returns (ok: bool)
      requires buf[..] == b && Inside(b) && w == Rest(b) && !eos
      modifies this`p
      ensures ok <==> if inf == INDEFINITE then AtEndOfContents(w) else w == []
      ensures ok ==> p == old(p) + if inf == INDEFINITE then 2 else 0
    {
      if inf == INDEFINITE && !eos {
        ok := CheckInfiniteEnd(buf, b, slen);
        if !ok {
          return;
        }
      }
      ok := inf == INDEFINITE || slen == 0;
    }

    // ----- The get macros -----

    /** M_ASN1_D2I_get, get_imp_set: one codec at the cursor. */
    method Get<V(!new)>(s: Schema<V>, buf: array<byte>, ghost b: seq<byte>, slot: Option<Obj<V>>, heap: Heap)
      returns (ok: bool, slot': Option<Obj<V>>)
      requires buf[..] == b && (Inside(b) || slen < 0) && heap.Valid() && IdsField(slot) <= heap.live
      requires slot.Some? ==> Fits(s, Content(slot.value))
      modifies this`p, this`q, this`slen, buf, heap
      ensures buf[..] == b && heap.Valid() && heap.refused >= old(heap.refused)
      ensures FieldOutcome(s, Filled(Decode(s, old(Rest(b)))), slot, heap.refused == old(heap.refused),
                           ok, p - old(p), slot')
      ensures ok ==> Inside(b) && p + slen == old(p + slen)
      ensures q == old(p)
      ensures Balanced(old(heap.live), IdsField(slot), heap.live, IdsField(slot'))
      decreases s, 2, 0
    {
      hide Decode, Fits, Content, Merge, Ids, IdsField, Balanced, Outcome, FieldOutcome, Filled;
      q := p;
      ghost var w := Rest(b);
      assert w == Window(b, p, slen);
      var ret, pp, a := D2I(s, buf, b, p, slen, To(slot), heap);
      CodecOutcome(s, w, slot, heap.refused == old(heap.refused), ret, pp - p, a);
      ok, slot', p := ret.Some?, a.obj, pp;
      if ok {
        slen := slen - (p - q);
      }
    }

    /** M_ASN1_D2I_get_imp: the codec's own tag is written over the one in the input, and the
        input restored, on either exit. */
    method GetImp<V(!new)>(
      s: Schema<V>, typ: TagNumber, buf: array<byte>, ghost b: seq<byte>, slot: Option<Obj<V>>, heap: Heap)
      returns (ok: bool, slot': Option<Obj<V>>)
      requires buf[..] == b && Inside(b) && slen != 0 && heap.Valid() && IdsField(slot) <= heap.live
      requires slot.Some? ==> Fits(s, Content(slot.value))
      modifies this`p, this`q, this`slen, buf, heap
      ensures buf[..] == b && heap.Valid() && heap.refused >= old(heap.refused)
      ensures FieldOutcome(s, Filled(Decode(s, Retagged(old(Rest(b)), typ))), slot,
                           heap.refused == old(heap.refused), ok, p - old(p), slot')
      ensures ok ==> Inside(b) && p + slen == old(p + slen)
      ensures Balanced(old(heap.live), IdsField(slot), heap.live, IdsField(slot'))
      decreases s, 3, 0
    {
      hide Decode, FieldOutcome, Retagged, Ids;
      var tmp := buf[p];
      buf[p] := ConstructedBit(tmp) + typ;
      RetaggedAt(b, p, slen, typ);
      ghost var b' := b[p := ConstructedBit(tmp) + typ];
      ok, slot' := Get(s, buf, b', slot, heap);
      buf[q] := tmp;
      assert b'[q := tmp] == b;
    }

    /** M_ASN1_D2I_get_EXP_opt, get_EXP_set_opt past the guard. */
    method GetExp<V(!new)>(s: Schema<V>, buf: array<byte>, ghost b: seq<byte>, slot: Option<Obj<V>>, heap: Heap)
      returns (ok: bool, slot': Option<Obj<V>>)
      requires buf[..] == b && Inside(b) && heap.Valid() && IdsField(slot) <= heap.live
      requires slot.Some? ==> Fits(s, Content(slot.value))
      modifies this`p, this`q, this`slen, buf, heap
      ensures buf[..] == b && heap.Valid() && heap.refused >= old(heap.refused)
      ensures FieldOutcome(s, Filled(DecodeExplicit(s, old(Rest(b)))), slot,
                           heap.refused == old(heap.refused), ok, p - old(p), slot')
      ensures ok ==> Inside(b) && p + slen == old(p + slen)
      ensures Balanced(old(heap.live), IdsField(slot), heap.live, IdsField(slot'))
      decreases s, 3, 0
    {
      hide DecodeExplicit, GetObject, Fits, FieldOutcome, IdsField, Balanced;
      q := p;
      var header := GetObject(buf[p..p + slen]);
      if header.None? {
        ExplicitNeedsHeader(s, Rest(b), slot, true, 0);
        Unchanged(heap.live, IdsField(slot));
        return false, slot;
      }
      p := p + header.value.size;
      ok, slot' := GetInWrapper(s, header.value, buf, b, b[q..q + slen], slot, heap);
    }

    /** The same macro past its ASN1_get_object, which found h in the octets w at c.q. */
    method GetInWrapper<V(!new)>(
      s: Schema<V>, h: Header, buf: array<byte>, ghost b: seq<byte>, ghost w: seq<byte>,
      slot: Option<Obj<V>>, heap: Heap)
      returns (ok: bool, slot': Option<Obj<V>>)
      requires buf[..] == b && 0 <= slen && q + slen <= |b| && w == b[q..q + slen]
      requires GetObject(w) == Some(h) && p == q + h.size
      requires heap.Valid() && IdsField(slot) <= heap.live
      requires slot.Some? ==> Fits(s, Content(slot.value))
      modifies this`p, this`slen, buf, heap
      ensures buf[..] == b && heap.Valid() && heap.refused >= old(heap.refused)
      ensures FieldOutcome(s, Filled(DecodeExplicit(s, w)), slot, heap.refused == old(heap.refused), ok, p - q, slot')
      ensures ok ==> 0 <= slen && p + slen == q + |w|
      ensures Balanced(old(heap.live), IdsField(slot), heap.live, IdsField(slot'))
      decreases s, 2, 0
    {
      hide Decode, DecodeExplicit, GetObject, Fits, Outcome, FieldOutcome, ExplicitWindow, IdsField;
      hide Window, AtEndOfContents, Filled, Balanced, Content;
      var Tlen := if h.inf == INDEFINITE then slen - (p - q) - 2 else h.length;
      WindowInside(b, q, slen, h);
      var ret, pp, a := D2I(s, buf, b, p, Tlen, To(slot), heap);
      ghost var granted, n := heap.refused == old(heap.refused), pp - p;
      ReservedForEnd(s, w, h, slot, granted, ret, n, a);
      ok, slot', p := false, a.obj, pp;
      if ret.Some? {
        ok := EndWrapper(buf, b, w, h.inf == INDEFINITE);
      }
      ExplicitOutcome(s, w, h, slot, granted, ret, n, a, ok, p - q);
    }

    /** The end of get_EXP_opt: end-of-contents when the wrapper is indefinite, and `c.slen`. */
    method EndWrapper(buf: array<byte>, ghost b: seq<byte>, ghost w: seq<byte>, indefinite: bool) returns (ok: bool)
      requires buf[..] == b && 0 <= q <= p && p + (if indefinite then 2 else 0) <= q + slen <= |b|
      requires w == b[q..q + slen]
      modifies this`p, this`slen
      ensures ok <==> indefinite ==> AtEndOfContents(w[old(p) - q..])
      ensures ok ==> p == old(p) + (if indefinite then 2 else 0) && 0 <= slen && p + slen == q + |w|
      ensures !ok ==> p == old(p)
    {
      hide AtEndOfContents;
      SliceRest(b, q, q + slen, p - q, w);
      ok := true;
      if indefinite {
        ok := CheckInfiniteEnd(buf, b, slen - (p - q));
      }
      if ok {
        slen := slen - (p - q);
      }
    }

    /** One get macro, guard and all. */
    method GetField<V(!new)>(f: Field<V>, buf: array<byte>, ghost b: seq<byte>, slot: Option<Obj<V>>, heap: Heap)
      returns (ok: bool, slot': Option<Obj<V>>)
      requires buf[..] == b && (Inside(b) || (slen < 0 && f.rule.Get?)) && heap.Valid() && IdsField(slot) <= heap.live
      requires slot.Some? ==> Fits(f.item, Content(slot.value))
      modifies this`p, this`q, this`slen, buf, heap
      ensures buf[..] == b && heap.Valid() && heap.refused >= old(heap.refused)
      ensures FieldOutcome(f.item, DecodeField(f, old(Rest(b))), slot, heap.refused == old(heap.refused),
                           ok, p - old(p), slot')
      ensures ok ==> Inside(b) && p + slen == old(p + slen)
      ensures Balanced(old(heap.live), IdsField(slot), heap.live, IdsField(slot'))
      decreases f, 0, 0
    {
      hide Decode, DecodeExplicit, Fits, Content, Merge, Ids, Retagged, Tag;
      assert slen > 0 ==> Rest(b)[0] == buf[p];
      if !f.rule.Get? {
        var taken := false;
        if slen != 0 {
          taken := match f.rule
            case Get => true
            case Opt(typ) => Tag(buf[p]) == typ
            case Imp(tag, _) => Tag(buf[p]) == CONTEXT_SPECIFIC + tag
            case SeqOpt => f.item.SequenceOf? && buf[p] == f.item.tag + CONSTRUCTED
            case Exp(tag, _) => buf[p] == CONTEXT_SPECIFIC + tag + CONSTRUCTED;
          assert taken == MatchesOctet(f, buf[p]);
        }
        if !taken {
          return true, slot;
        }
      }
      hide MatchesOctet;
      match f.rule
      case Imp(_, typ) => ok, slot' := GetImp(f.item, typ, buf, b, slot, heap);
      case Exp(_, _) => ok, slot' := GetExp(f.item, buf, b, slot, heap);
      case _ => ok, slot' := Get(f.item, buf, b, slot, heap);
    }

    /** The get macros of a program, up to the first that fails. */
    method GetFields<V(!new)>(
      fs: seq<Field<V>>, buf: array<byte>, ghost b: seq<byte>, slots: seq<Option<Obj<V>>>, heap: Heap)
      returns (ok: bool, slots': seq<Option<Obj<V>>>)
      requires buf[..] == b && heap.Valid() && IdsFields(slots) <= heap.live
      requires Inside(b) || (slen < 0 && NoGuardFirst(fs))
      requires FitsFields(fs, ContentFields(slots))
      modifies this`p, this`q, this`slen, buf, heap
      ensures buf[..] == b && heap.Valid() && heap.refused >= old(heap.refused)
      ensures FieldsOutcome(fs, DecodeFields(fs, old(Rest(b))), slots, heap.refused == old(heap.refused),
                            ok, p - old(p), slots')
      ensures ok && old(Inside(b)) ==> Inside(b)
      ensures ok ==> p + slen == old(p + slen)
      ensures Balanced(old(heap.live), IdsFields(slots), heap.live, IdsFields(slots'))
      decreases fs, 0, 0
    {
      hide DecodeField, DecodeFields, Fits, FitsFields, ContentFields, FieldOutcome, FieldsOutcome;
      hide Balanced, IdsFields;
      assert slen < 0 ==> fs == [] || fs[0].rule.Get?;
      hide NoGuardFirst;
      FirstSlot(fs, slots);
      if fs == [] {
        NoFields(Rest(b), slots, true);
        Unchanged(heap.live, IdsFields(slots));
        return true, slots;
      }
      ghost var w, p0, slen0, live0 := Rest(b), p, slen, heap.live;
      var head;
      ok, head := GetField(fs[0], buf, b, slots[0], heap);
      if !ok {
        slots' := [head] + slots[1..];
        HeadFailed(fs, w, slots, heap.refused == old(heap.refused), p - p0, head, live0, heap.live);
        return;
      }
      HeadMoved(fs[0], w, slots[0], heap.refused == old(heap.refused), p - p0, head);
      TailLive(slots, head, live0, heap.live);
      assert 0 <= slen0;
      SliceRest(b, p0, p0 + slen0, p - p0, w);
      ghost var p1, live1 := p, heap.live;
      var tail;
      ok, tail := GetFields(fs[1..], buf, b, slots[1..], heap);
      slots' := [head] + tail;
      TailJoined(fs, w, slots, p1 - p0, head, heap.refused == old(heap.refused), ok, p - p1, tail,
                 live0, live1, heap.live);
    }

    /** One codec at the cursor with a NULL first argument. */
    method GetNew<V(!new)>(s: Schema<V>, buf: array<byte>, ghost b: seq<byte>, ghost w: seq<byte>, heap: Heap)
      returns (ok: bool, x: Option<Obj<V>>)
      requires buf[..] == b && Inside(b) && w == Rest(b) && heap.Valid()
      modifies this`p, this`q, this`slen, buf, heap
      ensures buf[..] == b && heap.Valid() && heap.refused >= old(heap.refused)
      ensures ok <==> Decode(s, w).Some? && heap.refused == old(heap.refused)
      ensures ok ==>
                && p == old(p) + Decode(s, w).value.1 && Inside(b) && p + slen == old(p + slen)
                && x.Some? && Fits(s, Content(x.value)) && Content(x.value) == Decode(s, w).value.0
                && Balanced(old(heap.live), multiset{}, heap.live, Ids(x.value))
      ensures !ok ==> Balanced(old(heap.live), multiset{}, heap.live, multiset{})
      decreases s, 1, 1
    {
      hide Decode, Fits, Content, Ids, IdsField, Outcome, Balanced;
      NoId<V>();
      q := p;
      var ret, pp, a := D2I(s, buf, b, p, slen, Null, heap);
      ElementOutcome(s, w, heap.refused == old(heap.refused), ret, pp - p, a);
      ok, x, p := ret.Some?, ret, pp;
      if ok {
        slen := slen - (p - q);
      }
    }

    /** One element, appended to the list. */
    method GetItem<V(!new)>(
      e: Schema<V>, buf: array<byte>, ghost b: seq<byte>, ghost w: seq<byte>, items: seq<Obj<V>>, heap: Heap)
      returns (ok: bool, items': seq<Obj<V>>)
      requires buf[..] == b && Inside(b) && w == Rest(b) && heap.Valid() && IdsItems(items) <= heap.live
      requires FitsItems(e, ContentItems(items))
      modifies this`p, this`q, this`slen, buf, heap
      ensures buf[..] == b && heap.Valid() && heap.refused >= old(heap.refused)
      ensures ok <==> Decode(e, w).Some? && heap.refused == old(heap.refused)
      ensures ok ==>
                && p == old(p) + Decode(e, w).value.1 && Inside(b) && p + slen == old(p + slen)
                && FitsItems(e, ContentItems(items')) && IdsItems(items') <= heap.live
                && Appended(items, items', Decode(e, w).value.0)
      ensures !ok ==> items' == items
      ensures Balanced(old(heap.live), IdsItems(items), heap.live, IdsItems(items'))
      decreases e, 1, 2
    {
      hide Decode, Fits, FitsItems, Content, ContentItems, Ids, IdsItems, Balanced;
      ghost var live0 := heap.live;
      var x;
      ok, x := GetNew(e, buf, b, w, heap);
      if ok {
        items' := items + [x.value];
        ItemAppended(e, items, x.value);
        GatherOne(live0, IdsItems(items), heap.live, Ids(x.value));
      } else {
        items' := items;
        GatherNothing(live0, IdsItems(items), heap.live);
      }
    }

    /** Elements until M_ASN1_D2I_end_sequence, each appended to the list. */
    method GetItems<V(!new)>(
      e: Schema<V>, buf: array<byte>, ghost b: seq<byte>, ghost w: seq<byte>, items: seq<Obj<V>>, heap: Heap)
      returns (ok: bool, items': seq<Obj<V>>)
      requires buf[..] == b && Inside(b) && w == Rest(b) && heap.Valid() && IdsItems(items) <= heap.live
      requires FitsItems(e, ContentItems(items))
      modifies this`p, this`q, this`slen, this`eos, buf, heap
      ensures buf[..] == b && heap.Valid() && heap.refused >= old(heap.refused)
      ensures ItemsOutcome(e, DecodeItems(e, w, inf == INDEFINITE), items,
                           heap.refused == old(heap.refused), ok, p - old(p), items')
      ensures Balanced(old(heap.live), IdsItems(items), heap.live, IdsItems(items'))
      decreases e, 2, slen, 1
    {
      hide Decode, DecodeItems, FitsItems, ContentItems, IdsItems, Ended, Balanced, ItemsOutcome;
      ghost var indefinite := inf == INDEFINITE;
      var end := EndSequence(buf, b, w);
      if end {
        NoMoreItems(e, w, indefinite, items);
        Unchanged(heap.live, IdsItems(items));
        return true, items;
      }
      ok, items' := GetMoreItems(e, buf, b, w, indefinite, items, heap);
    }

    /** One element, then the rest. */
    method GetMoreItems<V(!new)>(
      e: Schema<V>, buf: array<byte>, ghost b: seq<byte>, ghost w: seq<byte>, ghost indefinite: bool,
      items: seq<Obj<V>>, heap: Heap)
      returns (ok: bool, items': seq<Obj<V>>)
      requires buf[..] == b && Inside(b) && w == Rest(b) && heap.Valid() && IdsItems(items) <= heap.live
      requires FitsItems(e, ContentItems(items))
      requires indefinite == (inf == INDEFINITE) && !Ended(indefinite, w)
      modifies this`p, this`q, this`slen, this`eos, buf, heap
      ensures buf[..] == b && heap.Valid() && heap.refused >= old(heap.refused)
      ensures ItemsOutcome(e, DecodeItems(e, w, indefinite), items,
                           heap.refused == old(heap.refused), ok, p - old(p), items')
      ensures Balanced(old(heap.live), IdsItems(items), heap.live, IdsItems(items'))
      decreases e, 2, slen, 0
    {
      hide Decode, DecodeItems, FitsItems, ContentItems, IdsItems, Ended, Balanced, ItemsOutcome, Appended;
      ghost var p0, live0 := p, heap.live;
      var more;
      ok, more := GetItem(e, buf, b, w, items, heap);
      if !ok {
        ItemFailed(e, w, indefinite, items, heap.refused == old(heap.refused), p - p0);
        return false, items;
      }
      ghost var p1, live1, n, rest := p, heap.live, p - p0, w[p - p0..];
      SliceRest(b, p0, p0 + |w|, n, w);
      ok, items' := GetItems(e, buf, b, rest, more, heap);
      ghost var granted, m := heap.refused == old(heap.refused), p - p1;
      ItemsJoined(e, w, indefinite, items, more, n, rest, granted, ok, m, items');
      BalancedTwice(live0, IdsItems(items), live1, IdsItems(more), heap.live, IdsItems(items'));
    }
  }

  /** From a call of a codec with a field as its first argument to the field. */
  lemma CodecOutcome<V(!new)>(
    s: Schema<V>, w: seq<byte>, slot: Option<Obj<V>>, granted: bool, ret: Option<Obj<V>>, n: int, a: Slot<V>)
    requires Outcome(s, w, To(slot), granted, ret, n, a)
    ensures a.To? && Left(a, ret) == a.obj && 0 <= n <= |w| && (ret.Some? ==> 1 <= n)
    ensures FieldOutcome(s, Filled(Decode(s, w)), slot, granted, ret.Some?, n, a.obj)
  {
    hide Decode, Fits, Content, Merge, Ids, IdsField;
  }

  // ----- Outcomes of lists -----

  lemma {:induction false} FitsAppend<V(!new)>(e: Schema<V>, vs: seq<Value<V>>, v: Value<V>)
    requires FitsItems(e, vs) && Fits(e, v)
    ensures FitsItems(e, vs + [v])
    decreases |vs|
  {
    if vs == [] {
      assert (vs + [v])[1..] == [];
    } else {
      FitsAppend(e, vs[1..], v);
      assert (vs + [v])[1..] == vs[1..] + [v];
    }
  }

  lemma NoMoreItems<V(!new)>(e: Schema<V>, w: seq<byte>, indefinite: bool, items: seq<Obj<V>>)
    requires Ended(indefinite, w) && FitsItems(e, ContentItems(items))
    ensures ItemsOutcome(e, DecodeItems(e, w, indefinite), items, true, true, if indefinite then 2 else 0, items)
  {
    assert ContentItems(items) + [] == ContentItems(items);
  }

  lemma ItemFailed<V(!new)>(
    e: Schema<V>, w: seq<byte>, indefinite: bool, items: seq<Obj<V>>, granted: bool, moved: int)
    requires !Ended(indefinite, w) && FitsItems(e, ContentItems(items))
    requires Decode(e, w).None? || !granted
    ensures ItemsOutcome(e, DecodeItems(e, w, indefinite), items, granted, false, moved, items)
  {
    hide Decode, Ended, ContentItems, FitsItems;
  }

  lemma ItemAppended<V(!new)>(e: Schema<V>, items: seq<Obj<V>>, x: Obj<V>)
    requires FitsItems(e, ContentItems(items)) && Fits(e, Content(x))
    ensures FitsItems(e, ContentItems(items + [x])) && Appended(items, items + [x], Content(x))
    ensures IdsItems(items + [x]) == IdsItems(items) + Ids(x)
  {
    hide FitsItems, ContentItems, IdsItems;
    IdsItemsAppend(items, x);
    FitsAppend(e, ContentItems(items), Content(x));
  }

  /** A list grown by one object that stands for v. */
  ghost predicate Appended<V>(items: seq<Obj<V>>, more: seq<Obj<V>>, v: Value<V>) {
    && ContentItems(more) == ContentItems(items) + [v]
    && IdsItems(items) <= IdsItems(more)
  }

  lemma ItemsJoined<V(!new)>(
    e: Schema<V>, w: seq<byte>, indefinite: bool, items: seq<Obj<V>>, more: seq<Obj<V>>, n: nat, rest: seq<byte>,
    granted: bool, ok: bool, m: int, items': seq<Obj<V>>)
    requires !Ended(indefinite, w) && Decode(e, w).Some? && n == Decode(e, w).value.1 && rest == w[n..]
    requires Appended(items, more, Decode(e, w).value.0)
    requires ItemsOutcome(e, DecodeItems(e, rest, indefinite), more, granted, ok, m, items')
    ensures ItemsOutcome(e, DecodeItems(e, w, indefinite), items, granted, ok, n + m, items')
  {
    hide Decode, Ended, ContentItems, FitsItems, IdsItems;
    var v := Decode(e, w).value.0;
    if ok {
      var vs := DecodeItems(e, rest, indefinite).value.0;
      assert ContentItems(items) + [v] + vs == ContentItems(items) + ([v] + vs);
    }
  }

  lemma GatherNothing(live0: multiset<int>, ids: multiset<int>, live1: multiset<int>)
    requires Balanced(live0, multiset{}, live1, multiset{})
    ensures Balanced(live0, ids, live1, ids)
  {
    assert live1 == live1 + multiset{} == live0 + multiset{} == live0;
  }

  lemma GatherOne(live0: multiset<int>, ids: multiset<int>, live1: multiset<int>, one: multiset<int>)
    requires Balanced(live0, multiset{}, live1, one) && ids <= live0
    ensures ids + one <= live1 && Balanced(live0, ids, live1, ids + one)
  {
    assert live1 == live1 + multiset{} == live0 + one;
  }

  lemma BalancedTwice(
    live0: multiset<int>, ids0: multiset<int>, live1: multiset<int>, ids1: multiset<int>,
    live2: multiset<int>, ids2: multiset<int>)
    requires Balanced(live0, ids0, live1, ids1) && Balanced(live1, ids1, live2, ids2)
    ensures Balanced(live0, ids0, live2, ids2)
  {
    forall i ensures (live2 + ids0)[i] == (live0 + ids2)[i] {
      assert (live1 + ids0)[i] == (live0 + ids1)[i];
      assert (live2 + ids1)[i] == (live1 + ids2)[i];
    }
  }

  /** A call with a NULL first argument either returns a new object or leaves nothing. */
  lemma ElementOutcome<V(!new)>(e: Schema<V>, r: seq<byte>, granted: bool, ret: Option<Obj<V>>, n: int, a: Slot<V>)
    requires Outcome(e, r, Null, granted, ret, n, a)
    ensures a.Null? && (ret.Some? ==> IdsField(ret) == Ids(ret.value))
    ensures ret.Some? <==> Decode(e, r).Some? && granted
    ensures ret.Some? ==>
              && n == Decode(e, r).value.1 && Fits(e, Content(ret.value))
              && Content(ret.value) == Decode(e, r).value.0
  {
  }

  // ----- Outcomes of runs of fields -----

  lemma FirstSlot<V(!new)>(fs: seq<Field<V>>, slots: seq<Option<Obj<V>>>)
    requires FitsFields(fs, ContentFields(slots))
    ensures |fs| == |slots|
    ensures fs != [] ==>
              && (slots[0].Some? ==> Fits(fs[0].item, Content(slots[0].value)))
              && FitsFields(fs[1..], ContentFields(slots[1..]))
              && IdsFields(slots) == IdsField(slots[0]) + IdsFields(slots[1..])
  {
    hide Fits, Content, Ids;
  }

  lemma SlotsCons<V(!new)>(head: Option<Obj<V>>, tail: seq<Option<Obj<V>>>)
    ensures IdsFields([head] + tail) == IdsField(head) + IdsFields(tail)
    ensures ContentFields([head] + tail) == [ContentField(head)] + ContentFields(tail)
  {
    assert ([head] + tail)[1..] == tail;
  }

  lemma SlotsFit<V(!new)>(fs: seq<Field<V>>, head: Option<Obj<V>>, tail: seq<Option<Obj<V>>>)
    requires fs != [] && (head.Some? ==> Fits(fs[0].item, Content(head.value)))
    requires FitsFields(fs[1..], ContentFields(tail))
    ensures FitsFields(fs, ContentFields([head] + tail))
  {
    hide Fits, Content;
    SlotsCons(head, tail);
    assert ([ContentField(head)] + ContentFields(tail))[1..] == ContentFields(tail);
  }

  lemma MergeCons<V>(slots: seq<Option<Obj<V>>>, ov: Option<Value<V>>, vs: seq<Option<Value<V>>>)
    requires |slots| == 1 + |vs|
    ensures MergeFields(ContentFields(slots), [ov] + vs)
         == [MergeField(ContentField(slots[0]), ov)] + MergeFields(ContentFields(slots[1..]), vs)
  {
    hide Content, MergeField;
    assert ([ov] + vs)[1..] == vs;
    assert ContentFields(slots)[1..] == ContentFields(slots[1..]);
  }

  lemma NoFields<V(!new)>(w: seq<byte>, slots: seq<Option<Obj<V>>>, granted: bool)
    requires FitsFields([], ContentFields(slots)) && granted
    ensures FieldsOutcome([], DecodeFields([], w), slots, granted, true, 0, slots)
  {
  }

  lemma FirstFailed<V(!new)>(
    fs: seq<Field<V>>, w: seq<byte>, slots: seq<Option<Obj<V>>>, granted: bool, n: int, head: Option<Obj<V>>, m: int)
    requires fs != [] && FitsFields(fs, ContentFields(slots)) && |fs| == |slots|
    requires FieldOutcome(fs[0].item, DecodeField(fs[0], w), slots[0], granted, false, n, head)
    ensures FieldsOutcome(fs, DecodeFields(fs, w), slots, granted, false, m, [head] + slots[1..])
  {
    hide DecodeField, Fits, Content, IdsField, IdsFields, FitsFields, ContentFields, MergeFields;
    FirstSlot(fs, slots);
    SlotsCons(head, slots[1..]);
    SlotsFit(fs, head, slots[1..]);
  }

  lemma HeadFailed<V(!new)>(
    fs: seq<Field<V>>, w: seq<byte>, slots: seq<Option<Obj<V>>>, granted: bool, n: int, head: Option<Obj<V>>,
    live0: multiset<int>, live1: multiset<int>)
    requires fs != [] && FitsFields(fs, ContentFields(slots)) && |fs| == |slots|
    requires FieldOutcome(fs[0].item, DecodeField(fs[0], w), slots[0], granted, false, n, head)
    requires Balanced(live0, IdsField(slots[0]), live1, IdsField(head))
    ensures FieldsOutcome(fs, DecodeFields(fs, w), slots, granted, false, n, [head] + slots[1..])
    ensures Balanced(live0, IdsFields(slots), live1, IdsFields([head] + slots[1..]))
  {
    hide DecodeField, DecodeFields, FieldOutcome, FieldsOutcome, IdsField, IdsFields, FitsFields, Balanced;
    FirstSlot(fs, slots);
    SlotsCons(head, slots[1..]);
    FirstFailed(fs, w, slots, granted, n, head, n);
    Unchanged(live1, IdsFields(slots[1..]));
    BalancedChain(live0, IdsField(slots[0]), live1, IdsField(head),
                  IdsFields(slots[1..]), live1, IdsFields(slots[1..]));
  }

  lemma TailLive<V>(slots: seq<Option<Obj<V>>>, head: Option<Obj<V>>, live0: multiset<int>, live1: multiset<int>)
    requires slots != [] && IdsFields(slots) <= live0
    requires Balanced(live0, IdsField(slots[0]), live1, IdsField(head))
    ensures IdsFields(slots[1..]) <= live1
  {
    hide IdsField, Balanced;
    FrameIds(live0, IdsField(slots[0]), live1, IdsField(head), IdsFields(slots[1..]));
  }

  lemma TailJoined<V(!new)>(
    fs: seq<Field<V>>, w: seq<byte>, slots: seq<Option<Obj<V>>>, n: nat, head: Option<Obj<V>>,
    granted: bool, ok: bool, m: int, tail: seq<Option<Obj<V>>>,
    live0: multiset<int>, live1: multiset<int>, live2: multiset<int>)
    requires fs != [] && FitsFields(fs, ContentFields(slots)) && |fs| == |slots| && n <= |w|
    requires FieldOutcome(fs[0].item, DecodeField(fs[0], w), slots[0], true, true, n, head)
    requires FieldsOutcome(fs[1..], DecodeFields(fs[1..], w[n..]), slots[1..], granted, ok, m, tail)
    requires Balanced(live0, IdsField(slots[0]), live1, IdsField(head))
    requires Balanced(live1, IdsFields(slots[1..]), live2, IdsFields(tail))
    ensures FieldsOutcome(fs, DecodeFields(fs, w), slots, granted, ok, n + m, [head] + tail)
    ensures Balanced(live0, IdsFields(slots), live2, IdsFields([head] + tail))
  {
    hide DecodeField, DecodeFields, FieldOutcome, FieldsOutcome, IdsField, IdsFields, FitsFields, Balanced;
    FirstSlot(fs, slots);
    SlotsCons(head, tail);
    Joined(fs, w, slots, n, head, granted, ok, m, tail);
    BalancedChain(live0, IdsField(slots[0]), live1, IdsField(head), IdsFields(slots[1..]), live2, IdsFields(tail));
  }

  lemma HeadMoved<V(!new)>(
    f: Field<V>, w: seq<byte>, slot: Option<Obj<V>>, granted: bool, n: int, head: Option<Obj<V>>)
    requires FieldOutcome(f.item, DecodeField(f, w), slot, granted, true, n, head)
    ensures granted && 0 <= n <= |w|
  {
    hide DecodeField;
  }

  lemma Joined<V(!new)>(
    fs: seq<Field<V>>, w: seq<byte>, slots: seq<Option<Obj<V>>>, n: nat, head: Option<Obj<V>>,
    granted: bool, ok: bool, m: int, tail: seq<Option<Obj<V>>>)
    requires fs != [] && FitsFields(fs, ContentFields(slots)) && |fs| == |slots| && n <= |w|
    requires FieldOutcome(fs[0].item, DecodeField(fs[0], w), slots[0], true, true, n, head)
    requires FieldsOutcome(fs[1..], DecodeFields(fs[1..], w[n..]), slots[1..], granted, ok, m, tail)
    ensures FieldsOutcome(fs, DecodeFields(fs, w), slots, granted, ok, n + m, [head] + tail)
  {
    hide DecodeField, DecodeFields, Fits, Content, IdsField, IdsFields, FitsFields, ContentFields;
    hide MergeFields, MergeField;
    SlotsFit(fs, head, tail);
    JoinedIds(fs, slots, head, tail);
    JoinedContent(fs, w, slots, n, head, granted, ok, m, tail);
  }

  lemma JoinedIds<V(!new)>(
    fs: seq<Field<V>>, slots: seq<Option<Obj<V>>>, head: Option<Obj<V>>, tail: seq<Option<Obj<V>>>)
    requires fs != [] && FitsFields(fs, ContentFields(slots)) && |fs| == |slots|
    requires IdsField(slots[0]) <= IdsField(head) && IdsFields(slots[1..]) <= IdsFields(tail)
    ensures IdsFields(slots) <= IdsFields([head] + tail)
  {
    hide IdsField, IdsFields, FitsFields, ContentFields;
    FirstSlot(fs, slots);
    SlotsCons(head, tail);
    SubsetsAdd(IdsField(slots[0]), IdsField(head), IdsFields(slots[1..]), IdsFields(tail));
  }

  lemma JoinedContent<V(!new)>(
    fs: seq<Field<V>>, w: seq<byte>, slots: seq<Option<Obj<V>>>, n: nat, head: Option<Obj<V>>,
    granted: bool, ok: bool, m: int, tail: seq<Option<Obj<V>>>)
    requires fs != [] && |fs| == |slots| && n <= |w|
    requires DecodeField(fs[0], w).Some? && n == DecodeField(fs[0], w).value.1
    requires ContentField(head) == MergeField(ContentField(slots[0]), DecodeField(fs[0], w).value.0)
    requires ok <==> DecodeFields(fs[1..], w[n..]).Some? && granted
    requires ok ==>
               && |slots[1..]| == |DecodeFields(fs[1..], w[n..]).value.0|
               && m == DecodeFields(fs[1..], w[n..]).value.1
               && ContentFields(tail) == MergeFields(ContentFields(slots[1..]), DecodeFields(fs[1..], w[n..]).value.0)
    ensures ok <==> DecodeFields(fs, w).Some? && granted
    ensures ok ==>
              && n + m == DecodeFields(fs, w).value.1
              && |slots| == |DecodeFields(fs, w).value.0|
              && ContentFields([head] + tail) == MergeFields(ContentFields(slots), DecodeFields(fs, w).value.0)
  {
    hide DecodeField, DecodeFields, ContentFields, MergeFields, MergeField, ContentField;
    FieldsDecoded(fs, w);
    SlotsCons(head, tail);
    if ok {
      MergeCons(slots, DecodeField(fs[0], w).value.0, DecodeFields(fs[1..], w[n..]).value.0);
    }
  }

  lemma SubsetsAdd(a: multiset<int>, b: multiset<int>, c: multiset<int>, d: multiset<int>)
    requires a <= b && c <= d
    ensures a + c <= b + d
  {
  }

  lemma Unchanged(live: multiset<int>, ids: multiset<int>)
    ensures Balanced(live, ids, live, ids)
  {
  }

  lemma BalancedChain(
    live0: multiset<int>, head0: multiset<int>, live1: multiset<int>, head1: multiset<int>,
    tail0: multiset<int>, live2: multiset<int>, tail1: multiset<int>)
    requires Balanced(live0, head0, live1, head1)
    requires Balanced(live1, tail0, live2, tail1)
    ensures Balanced(live0, head0 + tail0, live2, head1 + tail1)
  {
    forall i ensures (live2 + (head0 + tail0))[i] == (live0 + (head1 + tail1))[i] {
      assert (live1 + head0)[i] == (live0 + head1)[i];
      assert (live2 + tail0)[i] == (live1 + tail1)[i];
    }
  }

  lemma RetaggedAt(b: seq<byte>, p: nat, slen: int, typ: TagNumber)
    requires 0 < slen && p + slen <= |b|
    ensures b[p := ConstructedBit(b[p]) + typ][p..p + slen] == Retagged(b[p..p + slen], typ)
  {
  }

  /** What the codec inside an EXPLICIT wrapper may read. */
  ghost function ExplicitWindow(h: Header, w: seq<byte>): seq<byte>
    requires h.size + h.length <= |w|
  {
    if h.inf != INDEFINITE then w[h.size..h.size + h.length]
    else if |w| - h.size < 2 then []
    else w[h.size..|w| - 2]
  }

  lemma SliceRest(b: seq<byte>, p: nat, end: nat, n: nat, w: seq<byte>)
    requires p + n <= end <= |b| && w == b[p..end]
    ensures b[p + n..end] == w[n..]
  {
  }

  lemma SubSlice(b: seq<byte>, p: nat, slen: int, i: nat, j: nat)
    requires p <= p + slen <= |b| && i <= j <= slen
    ensures b[p + i..p + j] == b[p..p + slen][i..j]
  {
    var w := b[p..p + slen];
    assert |b[p + i..p + j]| == |w[i..j]|;
    forall k | 0 <= k < j - i ensures b[p + i..p + j][k] == w[i..j][k] {
      assert w[i..j][k] == w[i + k] == b[p + (i + k)];
    }
  }

  lemma WindowInside(b: seq<byte>, p: nat, slen: int, h: Header)
    requires 0 <= slen && p + slen <= |b| && h.size + h.length <= slen
    ensures var Tlen := if h.inf == INDEFINITE then slen - h.size - 2 else h.length;
            Window(b, p + h.size, Tlen) == ExplicitWindow(h, b[p..p + slen])
  {
    var Tlen := if h.inf == INDEFINITE then slen - h.size - 2 else h.length;
    if 0 <= Tlen {
      SubSlice(b, p, slen, h.size, h.size + Tlen);
    }
  }

  lemma ExplicitNeedsHeader<V(!new)>(s: Schema<V>, w: seq<byte>, slot: Option<Obj<V>>, granted: bool, moved: int)
    requires GetObject(w).None?
    requires slot.Some? ==> Fits(s, Content(slot.value))
    ensures FieldOutcome(s, Filled(DecodeExplicit(s, w)), slot, granted, false, moved, slot)
  {
  }

  /** When the call inside an EXPLICIT wrapper succeeds, at least two octets are left for the
      end-of-contents of an indefinite one. */
  lemma ReservedForEnd<V(!new)>(
    s: Schema<V>, w: seq<byte>, h: Header, slot: Option<Obj<V>>, granted: bool,
    ret: Option<Obj<V>>, n: int, a: Slot<V>)
    requires GetObject(w) == Some(h)
    requires Outcome(s, ExplicitWindow(h, w), To(slot), granted, ret, n, a)
    ensures a.To? && 0 <= n
    ensures ret.Some? ==> h.size + n + (if h.inf == INDEFINITE then 2 else 0) <= |w|
  {
    hide Decode, Fits, Content, Merge, IdsField, GetObject;
  }

  /** From the call inside an EXPLICIT wrapper to the field. */
  lemma ExplicitOutcome<V(!new)>(
    s: Schema<V>, w: seq<byte>, h: Header, slot: Option<Obj<V>>, granted: bool,
    ret: Option<Obj<V>>, n: int, a: Slot<V>, ok: bool, moved: int)
    requires GetObject(w) == Some(h)
    requires Outcome(s, ExplicitWindow(h, w), To(slot), granted, ret, n, a) && a.To?
    requires ok ==> ret.Some?
    requires ret.Some? ==>
               && 0 <= n && h.size + n <= |w|
               && (ok <==> h.inf == INDEFINITE ==> AtEndOfContents(w[h.size + n..]))
    requires ok ==> moved == h.size + n + if h.inf == INDEFINITE then 2 else 0
    ensures FieldOutcome(s, Filled(DecodeExplicit(s, w)), slot, granted, ok, moved, a.obj)
  {
    ExplicitDecoded(s, w, h);
    hide DecodeExplicit, Decode, Fits, Content, Merge, Ids, IdsField, GetObject, ExplicitWindow, AtEndOfContents;
  }

  lemma ExplicitDecoded<V(!new)>(s: Schema<V>, w: seq<byte>, h: Header)
    requires GetObject(w) == Some(h)
    ensures Decode(s, ExplicitWindow(h, w)).None? ==> DecodeExplicit(s, w) == None
    ensures Decode(s, ExplicitWindow(h, w)).Some? ==>
              var (v, n) := Decode(s, ExplicitWindow(h, w)).value;
              && h.size + n <= |w| && (h.inf == INDEFINITE ==> h.size + n + 2 <= |w|)
              && DecodeExplicit(s, w) ==
                 if h.inf != INDEFINITE then Some((v, h.size + n))
                 else if AtEndOfContents(w[h.size + n..]) then Some((v, h.size + n + 2))
                 else None
  {
    hide Decode, GetObject;
  }

  // ----- Entry and exit -----

  /** M_ASN1_D2I_Finish: on success *a, when there is one, points to the result; on failure the
      result is freed exactly when it is not the object *a pointed to. */
  method Leave<V(!new)>(ok: bool, a: Slot<V>, obj: Obj<V>, heap: Heap)
    returns (ret: Option<Obj<V>>, a': Slot<V>)
    requires heap.Valid() && Ids(obj) <= heap.live
    modifies heap
    ensures heap.Valid() && heap.refused == old(heap.refused)
    ensures ok ==> ret == Some(obj) && a' == (if a.Null? then Null else To(ret)) && heap.live == old(heap.live)
    ensures !ok ==> ret == None
    ensures !ok && (a.Held().None? || a.Held().value.id != obj.id) ==>
              a' == a && heap.live == old(heap.live) - Ids(obj)
    ensures !ok && a.Held().Some? && a.Held().value.id == obj.id ==>
              a' == To(Some(obj)) && heap.live == old(heap.live)
  {
    if ok {
      ret := Some(obj);
      a' := if a.Null? then Null else To(ret);
    } else {
      ret := None;
      if a.Held().None? || a.Held().value.id != obj.id {
        heap.Free(obj);
        a' := a;
      } else {
        a' := To(Some(obj));
      }
    }
  }

  lemma FrameIds(
    live0: multiset<int>, before: multiset<int>, live1: multiset<int>, after: multiset<int>, others: multiset<int>)
    requires Balanced(live0, before, live1, after) && before + others <= live0
    ensures after + others <= live1
  {
    forall i ensures (after + others)[i] <= live1[i] {
      assert (live1 + before)[i] == (live0 + after)[i];
      assert (before + others)[i] <= live0[i];
    }
  }

  // ----- d2i functions -----

  /** `type *d2i(type **a, const unsigned char **pp, long length)`: whatever happens, the input is
      as it was, and no object is lost, freed twice, or freed while the caller owns it. */
  method D2I<V(!new)>(s: Schema<V>, buf: array<byte>, ghost b: seq<byte>, pp: nat, length: int, a: Slot<V>, heap: Heap)
    returns (ret: Option<Obj<V>>, pp': nat, a': Slot<V>)
    requires buf[..] == b && (0 < length ==> pp + length <= |b|)
    requires heap.Valid() && IdsField(a.Held()) <= heap.live
    requires a.Held().Some? ==> Fits(s, Content(a.Held().value))
    modifies buf, heap
    ensures buf[..] == b
    ensures heap.Valid() && heap.refused >= old(heap.refused)
    ensures Outcome(s, Window(b, pp, length), a, heap.refused == old(heap.refused), ret, pp' - pp, a')
    ensures Balanced(old(heap.live), IdsField(a.Held()), heap.live, IdsField(Left(a', ret)))
    decreases s, 1, 0
  {
    match s
    case Leaf(c) => ret, pp', a' := D2ILeaf(c, buf, b, pp, length, a, heap);
    case Sequence(form, fs) => ret, pp', a' := D2ISequence(form, fs, buf, b, pp, length, a, heap);
    case SequenceOf(tag, e) => ret, pp', a' := D2ISet(tag, e, buf, b, pp, length, a, heap);
  }

  /** A codec given from outside, called through the same interface. */
  method D2ILeaf<V(!new)>(
    c: Codec<V>, buf: array<byte>, ghost b: seq<byte>, pp: nat, length: int, a: Slot<V>, heap: Heap)
    returns (ret: Option<Obj<V>>, pp': nat, a': Slot<V>)
    requires buf[..] == b && (0 < length ==> pp + length <= |b|)
    requires heap.Valid() && IdsField(a.Held()) <= heap.live
    requires a.Held().Some? ==> Fits(Leaf(c), Content(a.Held().value))
    modifies heap
    ensures heap.Valid() && heap.refused >= old(heap.refused)
    ensures Outcome(Leaf(c), Window(b, pp, length), a, heap.refused == old(heap.refused), ret, pp' - pp, a')
    ensures Balanced(old(heap.live), IdsField(a.Held()), heap.live, IdsField(Left(a', ret)))
  {
    var obj: Obj<V>;
    ret, pp', a' := None, pp, a;
    var w := if length <= 0 then [] else buf[pp..pp + length];
    assert w == Window(b, pp, length);
    var r := c.d2i(w);
    if r.None? {
      return;
    }
    var (v, n) := r.value;
    if a.Held().None? {
      var id := heap.Alloc();
      if id.None? {
        return;
      }
      obj := LeafObj(id.value, v);
    } else {
      obj := LeafObj(a.Held().value.id, v);
    }
    pp' := pp + n;
    ret, a' := Leave(true, a, obj, heap);
  }

  /** M_ASN1_D2I_vars, and Finish with what is between in `ReadSequence`. */
  method D2ISequence<V(!new)>(
    form: Form, fs: seq<Field<V>>, buf: array<byte>, ghost b: seq<byte>, pp: nat, length: int, a: Slot<V>, heap: Heap)
    returns (ret: Option<Obj<V>>, pp': nat, a': Slot<V>)
    requires buf[..] == b && (0 < length ==> pp + length <= |b|)
    requires heap.Valid() && IdsField(a.Held()) <= heap.live
    requires a.Held().Some? ==> Fits(Sequence(form, fs), Content(a.Held().value))
    modifies buf, heap
    ensures buf[..] == b
    ensures heap.Valid() && heap.refused >= old(heap.refused)
    ensures Outcome(Sequence(form, fs), Window(b, pp, length), a, heap.refused == old(heap.refused), ret, pp' - pp, a')
    ensures ret.Some? ==> 0 < length && b[pp] == V_ASN1_SEQUENCE + CONSTRUCTED
    ensures Balanced(old(heap.live), IdsField(a.Held()), heap.live, IdsField(Left(a', ret)))
    decreases fs, 2, 0
  {
    hide DecodeSequence, FieldsOutcome, Balanced, Returned, Blank, Fits, FitsFields, ContentFields, IdsFields, Window;
    hide Ids, IdsField, Content, Decode, AsStructure;
    ghost var live0, decoded := heap.live, DecodeSequence(fs, Window(b, pp, length));
    StructureDecoded(form, fs, Window(b, pp, length));
    var got, slots := SequenceVars(form, fs, a, heap);
    if got.None? {
      Unchanged(live0, IdsField(a.Held()));
      RefusedOutcome(Sequence(form, fs), AsStructure(decoded), a);
      return None, pp, a;
    }
    var id := got.value;
    ghost var live1 := heap.live;
    var ok, slots';
    ok, pp', slots' := ReadSequence(fs, buf, b, pp, length, slots, heap);
    ghost var granted := heap.refused == old(heap.refused);
    FrameIds(live1, IdsFields(slots), heap.live, IdsFields(slots'), multiset{id});
    ret, a' := LeaveSequence(form, fs, decoded, a, id, slots, slots', granted, ok, pp' - pp, live0, live1, heap);
    if ret.Some? {
      Accepted(Sequence(form, fs), Window(b, pp, length), a, granted, ret, pp' - pp, a');
      SequenceStarts(form, fs, Window(b, pp, length));
      WindowStarts(b, pp, length);
    }
  }

  /** M_ASN1_D2I_Finish of a structure. */
  method LeaveSequence<V(!new)>(
    form: Form, fs: seq<Field<V>>, ghost decoded: Option<(seq<Option<Value<V>>>, nat)>, a: Slot<V>, id: int,
    ghost slots: seq<Option<Obj<V>>>, slots': seq<Option<Obj<V>>>, ghost granted: bool, ok: bool, ghost moved: int,
    ghost live0: multiset<int>, ghost live1: multiset<int>, heap: Heap)
    returns (ret: Option<Obj<V>>, a': Slot<V>)
    requires a.Held().None? ==>
               && slots == Blank(|fs|) && IdsFields(slots) == multiset{} && IdsField(a.Held()) == multiset{}
               && live1 == live0 + multiset{id}
    requires a.Held().Some? ==>
               && a.Held().value == SeqObj(id, slots) && live1 == live0
               && IdsField(a.Held()) == multiset{id} + IdsFields(slots)
    requires FieldsOutcome(fs, decoded, slots, granted, ok, moved, slots')
    requires !ok ==> moved == 0
    requires heap.Valid() && IdsFields(slots') + multiset{id} <= heap.live
    requires Balanced(live1, IdsFields(slots), heap.live, IdsFields(slots'))
    modifies heap
    ensures heap.Valid() && heap.refused == old(heap.refused)
    ensures Returned(Sequence(form, fs), AsStructure(decoded), a, granted, ret, moved, a')
    ensures Balanced(live0, IdsField(a.Held()), heap.live, IdsField(Left(a', ret)))
  {
    hide AsStructure, FieldsOutcome, Balanced, Returned, Blank, IdsFields, Ids, IdsField;
    ghost var live2 := heap.live;
    SeqIds(id, slots');
    ret, a' := Leave(ok, a, SeqObj(id, slots'), heap);
    SequenceOutcome(form, fs, decoded, a, id, slots, slots', granted, ok, moved, ret, a');
    ExitBalanced(a.Held().None?, ok, id, IdsField(a.Held()), IdsFields(slots), IdsFields(slots'),
                 IdsField(Left(a', ret)), live0, live1, live2, heap.live);
  }

  /** M_ASN1_D2I_vars: *a if there is one, else a new structure. */
  method SequenceVars<V(!new)>(form: Form, fs: seq<Field<V>>, a: Slot<V>, heap: Heap)
    returns (id: Option<int>, slots: seq<Option<Obj<V>>>)
    requires heap.Valid() && IdsField(a.Held()) <= heap.live
    requires a.Held().Some? ==> Fits(Sequence(form, fs), Content(a.Held().value))
    modifies heap
    ensures heap.Valid()
    ensures id.None? ==> a.Held().None? && heap.live == old(heap.live) && heap.refused == old(heap.refused) + 1
    ensures id.Some? ==>
              && heap.refused == old(heap.refused)
              && FitsFields(fs, ContentFields(slots)) && IdsFields(slots) + multiset{id.value} <= heap.live
    ensures id.Some? && a.Held().None? ==>
              && slots == Blank(|fs|) && IdsFields(slots) == multiset{} && IdsField(a.Held()) == multiset{}
              && heap.live == old(heap.live) + multiset{id.value}
    ensures a.Held().Some? ==>
              && id.Some? && a.Held().value == SeqObj(id.value, slots) && heap.live == old(heap.live)
              && IdsField(a.Held()) == multiset{id.value} + IdsFields(slots)
  {
    if a.Held().None? {
      slots := Blank(|fs|);
      id := heap.Alloc();
      BlankIsEmpty(fs);
    } else {
      HeldSequence(form, fs, a.Held().value);
      id, slots := Some(a.Held().value.id), a.Held().value.fields;
    }
  }

  lemma NoId<V>()
    ensures IdsField<V>(None) == multiset{}
  {
  }

  /** What an object held or allocated here, and freed if it was allocated in vain, adds up to. */
  lemma ExitBalanced(
    own: bool, ok: bool, id: int,
    held: multiset<int>, ids0: multiset<int>, ids1: multiset<int>, left: multiset<int>,
    live0: multiset<int>, live1: multiset<int>, live2: multiset<int>, live3: multiset<int>)
    requires own ==> held == multiset{} && ids0 == multiset{} && live1 == live0 + multiset{id}
    requires !own ==> held == multiset{id} + ids0 && live1 == live0
    requires Balanced(live1, ids0, live2, ids1)
    requires !ok && own ==> left == multiset{} && live3 == live2 - (multiset{id} + ids1)
    requires ok || !own ==> left == multiset{id} + ids1 && live3 == live2
    ensures Balanced(live0, held, live3, left)
  {
    if own {
      assert live2 == live2 + multiset{} == live0 + multiset{id} + ids1 == live0 + (multiset{id} + ids1);
    } else {
      Unchanged(live1, multiset{id});
      BalancedChain(live1, multiset{id}, live1, multiset{id}, ids0, live2, ids1);
    }
  }

  lemma Accepted<V(!new)>(
    s: Schema<V>, w: seq<byte>, a: Slot<V>, granted: bool, ret: Option<Obj<V>>, moved: int, a': Slot<V>)
    requires Outcome(s, w, a, granted, ret, moved, a') && ret.Some?
    ensures Decode(s, w).Some? && w != []
  {
    hide Decode, Fits, Content, Merge, Ids;
  }

  lemma WindowStarts(b: seq<byte>, pp: nat, length: int)
    requires (0 < length ==> pp + length <= |b|) && Window(b, pp, length) != []
    ensures 0 < length && Window(b, pp, length)[0] == b[pp]
  {
  }

  lemma RefusedOutcome<V(!new)>(s: Schema<V>, decoded: Option<(Value<V>, nat)>, a: Slot<V>)
    requires a.Held().None?
    ensures Returned(s, decoded, a, false, None, 0, a)
  {
  }

  lemma HeldSequence<V(!new)>(form: Form, fs: seq<Field<V>>, o: Obj<V>)
    requires Fits(Sequence(form, fs), Content(o))
    ensures o.SeqObj? && FitsFields(fs, ContentFields(o.fields))
    ensures IdsField(Some(o)) == multiset{o.id} + IdsFields(o.fields)
  {
  }

  lemma SeqIds<V>(id: int, slots: seq<Option<Obj<V>>>)
    ensures Ids(SeqObj(id, slots)) == IdsField(Some(SeqObj(id, slots))) == multiset{id} + IdsFields(slots)
  {
  }

  lemma {:induction false} MergeBlank<V(!new)>(vs: seq<Option<Value<V>>>)
    ensures |ContentFields(Blank<V>(|vs|))| == |vs|
    ensures MergeFields(ContentFields(Blank<V>(|vs|)), vs) == vs
    decreases |vs|
  {
    if vs != [] {
      MergeBlank(vs[1..]);
      var blank := Blank<V>(|vs|);
      assert blank[0] == None && blank[1..] == Blank<V>(|vs[1..]|);
      assert ContentFields(blank)[1..] == ContentFields(blank[1..]);
      assert MergeField(None, vs[0]) == vs[0];
    }
  }

  /** The fields read, as a structure. */
  ghost function AsStructure<V>(decoded: Option<(seq<Option<Value<V>>>, nat)>): Option<(Value<V>, nat)> {
    match decoded
    case None => None
    case Some((vs, n)) => Some((SeqValue(vs), n))
  }

  lemma StructureDecoded<V(!new)>(form: Form, fs: seq<Field<V>>, w: seq<byte>)
    ensures Decode(Sequence(form, fs), w) == AsStructure(DecodeSequence(fs, w))
  {
  }

  lemma SequenceOutcome<V(!new)>(
    form: Form, fs: seq<Field<V>>, decoded: Option<(seq<Option<Value<V>>>, nat)>, a: Slot<V>, id: int,
    slots: seq<Option<Obj<V>>>, slots': seq<Option<Obj<V>>>, granted: bool, ok: bool, moved: int,
    ret: Option<Obj<V>>, a': Slot<V>)
    requires a.Held().None? ==> slots == Blank(|fs|)
    requires a.Held().Some? ==> a.Held().value == SeqObj(id, slots)
    requires FieldsOutcome(fs, decoded, slots, granted, ok, moved, slots')
    requires !ok ==> moved == 0
    requires ret == if ok then Some(SeqObj(id, slots')) else None
    requires a' == if ok then (if a.Null? then Null else To(ret))
                   else if a.Held().None? then a else To(Some(SeqObj(id, slots')))
    ensures Returned(Sequence(form, fs), AsStructure(decoded), a, granted, ret, moved, a')
  {
    hide ContentFields, IdsFields, FitsFields, Blank, MergeFields;
    if a.Held().Some? {
      SubsetsAdd(multiset{id}, multiset{id}, IdsFields(slots), IdsFields(slots'));
      var left := Left(a', ret);
      assert left == Some(SeqObj(id, slots'));
      assert IdsField(a.Held()) == multiset{id} + IdsFields(slots);
      assert IdsField(left) == multiset{id} + IdsFields(slots');
      assert Fits(Sequence(form, fs), Content(left.value));
      assert ret.None? ==> moved == 0 && a'.Null? == a.Null?;
      if ok {
        var v := AsStructure(decoded).value.0;
        assert ContentField(a.Held()) == Some(SeqValue(ContentFields(slots)));
        assert Content(ret.value) == SeqValue(ContentFields(slots'));
        assert Merge(ContentField(a.Held()), v) == SeqValue(MergeFields(ContentFields(slots), v.fields));
      }
    } else if ok {
      MergeBlank(decoded.value.0);
    }
  }

  /** M_ASN1_D2I_Init, start_sequence, the get macros, and the check in Finish. */
  method ReadSequence<V(!new)>(
    fs: seq<Field<V>>, buf: array<byte>, ghost b: seq<byte>, pp: nat, length: int,
    slots: seq<Option<Obj<V>>>, heap: Heap)
    returns (ok: bool, pp': nat, slots': seq<Option<Obj<V>>>)
    requires buf[..] == b && (0 < length ==> pp + length <= |b|)
    requires heap.Valid() && IdsFields(slots) <= heap.live
    requires FitsFields(fs, ContentFields(slots))
    modifies buf, heap
    ensures buf[..] == b
    ensures heap.Valid() && heap.refused >= old(heap.refused)
    ensures FieldsOutcome(fs, DecodeSequence(fs, Window(b, pp, length)), slots,
                          heap.refused == old(heap.refused), ok, pp' - pp, slots')
    ensures !ok ==> pp' == pp
    ensures Balanced(old(heap.live), IdsFields(slots), heap.live, IdsFields(slots'))
    decreases fs, 1, 0
  {
    hide DecodeSequence, DecodeFields, Open, Contents, FitsFields, FieldsOutcome, Balanced, AtEndOfContents;
    hide Window, IdsFields, NoGuardFirst, GetObject, ContentFields;
    ghost var w := Window(b, pp, length);
    var c := new Context(pp, length);
    pp', slots' := pp, slots;
    ok := c.GetSequence(buf, b, length, V_ASN1_SEQUENCE);
    if !ok {
      NotASequence(fs, w, slots, heap.refused == old(heap.refused));
      Unchanged(heap.live, IdsFields(slots));
      return;
    }
    ghost var h := Open(V_ASN1_SEQUENCE, w).value;
    ghost var start, w1 := c.p, Contents(h, w);
    var read;
    read, slots' := c.GetFields(fs, buf, b, slots, heap);
    ghost var n := c.p - start;
    ok := read;
    if read {
      FieldsMoved(fs, b, start, w1, slots, heap.refused == old(heap.refused), n, slots');
      ok := c.Finish(buf, b, w1[n..]);
      pp' := if ok then c.p else pp;
    }
    SequenceFinished(fs, w, slots, heap.refused == old(heap.refused), read, n, slots', ok, pp' - pp);
  }

  /** M_ASN1_D2I_Init, begin and the get macros.  A negative length is safe only if no guard comes
      before the first codec, which fails on it. */
  method ReadBare<V(!new)>(
    fs: seq<Field<V>>, buf: array<byte>, ghost b: seq<byte>, pp: nat, length: int,
    slots: seq<Option<Obj<V>>>, heap: Heap)
    returns (ok: bool, pp': nat, slots': seq<Option<Obj<V>>>)
    requires buf[..] == b && pp <= |b| && (0 < length ==> pp + length <= |b|)
    requires 0 <= length || NoGuardFirst(fs)
    requires heap.Valid() && IdsFields(slots) <= heap.live
    requires FitsFields(fs, ContentFields(slots))
    modifies buf, heap
    ensures buf[..] == b
    ensures heap.Valid() && heap.refused >= old(heap.refused)
    ensures FieldsOutcome(fs, DecodeFields(fs, Window(b, pp, length)), slots,
                          heap.refused == old(heap.refused), ok, pp' - pp, slots')
    ensures !ok ==> pp' == pp
    ensures Balanced(old(heap.live), IdsFields(slots), heap.live, IdsFields(slots'))
  {
    hide DecodeFields, FitsFields, Balanced, IdsFields, ContentFields, Window, FieldsOutcome;
    var c := new Context(pp, length);
    c.Begin(b, length);
    ok, slots' := c.GetFields(fs, buf, b, slots, heap);
    pp' := if ok then c.p else pp;
    FailedNowhere(fs, DecodeFields(fs, Window(b, pp, length)), slots, heap.refused == old(heap.refused),
                  ok, c.p - pp, slots');
  }

  lemma FailedNowhere<V(!new)>(
    fs: seq<Field<V>>, decoded: Option<(seq<Option<Value<V>>>, nat)>, slots: seq<Option<Obj<V>>>, granted: bool,
    ok: bool, moved: int, slots': seq<Option<Obj<V>>>)
    requires FieldsOutcome(fs, decoded, slots, granted, ok, moved, slots')
    ensures FieldsOutcome(fs, decoded, slots, granted, ok, if ok then moved else 0, slots')
  {
  }

  /** A function made of M_ASN1_D2I_vars, Init, begin, the get macros and Finish_nolen, which looks
      at no length: *pp moves to where the last field ended. */
  method D2IBare<V(!new)>(
    form: Form, fs: seq<Field<V>>, buf: array<byte>, ghost b: seq<byte>, pp: nat, length: int, a: Slot<V>, heap: Heap)
    returns (ret: Option<Obj<V>>, pp': nat, a': Slot<V>)
    requires buf[..] == b && pp <= |b| && (0 < length ==> pp + length <= |b|)
    requires 0 <= length || NoGuardFirst(fs)
    requires heap.Valid() && IdsField(a.Held()) <= heap.live
    requires a.Held().Some? ==> Fits(Sequence(form, fs), Content(a.Held().value))
    modifies buf, heap
    ensures buf[..] == b
    ensures heap.Valid() && heap.refused >= old(heap.refused)
    ensures Returned(Sequence(form, fs), AsStructure(DecodeFields(fs, Window(b, pp, length))), a,
                     heap.refused == old(heap.refused), ret, pp' - pp, a')
    ensures Balanced(old(heap.live), IdsField(a.Held()), heap.live, IdsField(Left(a', ret)))
  {
    hide DecodeFields, FieldsOutcome, Balanced, Returned, Blank, Fits, FitsFields, ContentFields, IdsFields, Window;
    hide Ids, IdsField, Content, AsStructure;
    ghost var live0, decoded := heap.live, DecodeFields(fs, Window(b, pp, length));
    var got, slots := SequenceVars(form, fs, a, heap);
    if got.None? {
      Unchanged(live0, IdsField(a.Held()));
      RefusedOutcome(Sequence(form, fs), AsStructure(decoded), a);
      return None, pp, a;
    }
    var id := got.value;
    ghost var live1 := heap.live;
    var ok, slots';
    ok, pp', slots' := ReadBare(fs, buf, b, pp, length, slots, heap);
    ghost var granted := heap.refused == old(heap.refused);
    FrameIds(live1, IdsFields(slots), heap.live, IdsFields(slots'), multiset{id});
    ret, a' := LeaveSequence(form, fs, decoded, a, id, slots, slots', granted, ok, pp' - pp, live0, live1, heap);
  }

  lemma NotASequence<V(!new)>(fs: seq<Field<V>>, w: seq<byte>, slots: seq<Option<Obj<V>>>, granted: bool)
    requires Open(V_ASN1_SEQUENCE, w).None?
    requires FitsFields(fs, ContentFields(slots))
    ensures FieldsOutcome(fs, DecodeSequence(fs, w), slots, granted, false, 0, slots)
  {
  }

  /** Behind the fields what is left of the contents is what is left of the input. */
  lemma FieldsMoved<V(!new)>(
    fs: seq<Field<V>>, b: seq<byte>, start: nat, w: seq<byte>, slots: seq<Option<Obj<V>>>, granted: bool,
    n: int, slots': seq<Option<Obj<V>>>)
    requires FieldsOutcome(fs, DecodeFields(fs, w), slots, granted, true, n, slots')
    requires start + |w| <= |b| && w == b[start..start + |w|]
    ensures 0 <= n <= |w| && b[start + n..start + |w|] == w[n..]
  {
    hide DecodeFields;
    SliceRest(b, start, start + |w|, n, w);
  }

  lemma SequenceFinished<V(!new)>(
    fs: seq<Field<V>>, w: seq<byte>, slots: seq<Option<Obj<V>>>, granted: bool,
    read: bool, n: int, slots': seq<Option<Obj<V>>>, ok: bool, moved: int)
    requires Open(V_ASN1_SEQUENCE, w).Some?
    requires var h := Open(V_ASN1_SEQUENCE, w).value;
             var w1 := Contents(h, w);
             && FieldsOutcome(fs, DecodeFields(fs, w1), slots, granted, read, n, slots')
             && (read ==> 0 <= n <= |w1| && (ok <==> Close(h, w1, n).Some?))
             && (ok ==> read && moved == h.size + Close(h, w1, n).value)
    ensures FieldsOutcome(fs, DecodeSequence(fs, w), slots, granted, ok, moved, slots')
  {
    hide DecodeFields, Open, Contents, Close, FitsFields, ContentFields, MergeFields, IdsFields;
  }

  /** d2i_ASN1_SET: M_ASN1_D2I_vars, and the list with what is between in `ReadSet`. */
  method D2ISet<V(!new)>(
    tag: Ident, e: Schema<V>, buf: array<byte>, ghost b: seq<byte>, pp: nat, length: int, a: Slot<V>, heap: Heap)
    returns (ret: Option<Obj<V>>, pp': nat, a': Slot<V>)
    requires buf[..] == b && (0 < length ==> pp + length <= |b|)
    requires heap.Valid() && IdsField(a.Held()) <= heap.live
    requires a.Held().Some? ==> Fits(SequenceOf(tag, e), Content(a.Held().value))
    modifies buf, heap
    ensures buf[..] == b
    ensures heap.Valid() && heap.refused >= old(heap.refused)
    ensures Outcome(SequenceOf(tag, e), Window(b, pp, length), a, heap.refused == old(heap.refused), ret, pp' - pp, a')
    ensures ret.Some? ==> 0 < length && b[pp] == tag + CONSTRUCTED
    ensures Balanced(old(heap.live), IdsField(a.Held()), heap.live, IdsField(Left(a', ret)))
    decreases e, 4, 0
  {
    hide DecodeItems, ItemsOutcome, Balanced, Returned, Fits, FitsItems, ContentItems, IdsItems, Window, SetDecoded;
    hide Ids, IdsField, Content, Decode;
    ghost var live0 := heap.live;
    var got, items := SetVars(tag, e, a, heap);
    if got.None? {
      Unchanged(live0, IdsField(a.Held()));
      RefusedOutcome(SequenceOf(tag, e), Decode(SequenceOf(tag, e), Window(b, pp, length)), a);
      return None, pp, a;
    }
    var id := got.value;
    ghost var live1 := heap.live;
    var ok, items';
    ok, pp', items' := ReadSet(tag, e, buf, b, pp, length, items, heap);
    ghost var granted := heap.refused == old(heap.refused);
    FrameIds(live1, IdsItems(items), heap.live, IdsItems(items'), multiset{id});
    ghost var w := Window(b, pp, length);
    ret, a' := LeaveSet(tag, e, w, a, id, items, items', granted, ok, pp' - pp, live0, live1, heap);
    if ret.Some? {
      Accepted(SequenceOf(tag, e), w, a, granted, ret, pp' - pp, a');
      SequenceOfStarts(tag, e, w);
      WindowStarts(b, pp, length);
    }
  }

  /** The exits of d2i_ASN1_SET. */
  method LeaveSet<V(!new)>(
    tag: Ident, e: Schema<V>, ghost w: seq<byte>, a: Slot<V>, id: int, ghost items: seq<Obj<V>>,
    items': seq<Obj<V>>, ghost granted: bool, ok: bool, ghost moved: int,
    ghost live0: multiset<int>, ghost live1: multiset<int>, heap: Heap)
    returns (ret: Option<Obj<V>>, a': Slot<V>)
    requires a.Held().None? ==>
               && items == [] && IdsItems(items) == multiset{} && IdsField(a.Held()) == multiset{}
               && live1 == live0 + multiset{id}
    requires a.Held().Some? ==>
               && a.Held().value == ListObj(id, items) && live1 == live0
               && IdsField(a.Held()) == multiset{id} + IdsItems(items)
    requires ItemsOutcome(e, SetDecoded(tag, e, w), items, granted, ok, moved, items')
    requires !ok ==> moved == 0
    requires heap.Valid() && IdsItems(items') + multiset{id} <= heap.live
    requires Balanced(live1, IdsItems(items), heap.live, IdsItems(items'))
    modifies heap
    ensures heap.Valid() && heap.refused == old(heap.refused)
    ensures Outcome(SequenceOf(tag, e), w, a, granted, ret, moved, a')
    ensures Balanced(live0, IdsField(a.Held()), heap.live, IdsField(Left(a', ret)))
  {
    hide SetDecoded, ItemsOutcome, Balanced, Outcome, IdsItems, Ids, IdsField;
    ghost var live2 := heap.live;
    SetIds(id, items');
    ret, a' := Leave(ok, a, ListObj(id, items'), heap);
    SetOutcome(tag, e, w, a, id, items, items', granted, ok, moved, ret, a');
    ExitBalanced(a.Held().None?, ok, id, IdsField(a.Held()), IdsItems(items), IdsItems(items'), IdsField(Left(a', ret)),
                 live0, live1, live2, heap.live);
  }

  /** The list *a points to, or a new one. */
  method SetVars<V(!new)>(tag: Ident, e: Schema<V>, a: Slot<V>, heap: Heap)
    returns (id: Option<int>, items: seq<Obj<V>>)
    requires heap.Valid() && IdsField(a.Held()) <= heap.live
    requires a.Held().Some? ==> Fits(SequenceOf(tag, e), Content(a.Held().value))
    modifies heap
    ensures heap.Valid()
    ensures id.None? ==> a.Held().None? && heap.live == old(heap.live) && heap.refused == old(heap.refused) + 1
    ensures id.Some? ==>
              && heap.refused == old(heap.refused)
              && FitsItems(e, ContentItems(items)) && IdsItems(items) + multiset{id.value} <= heap.live
    ensures id.Some? && a.Held().None? ==>
              && items == [] && IdsItems(items) == multiset{} && IdsField(a.Held()) == multiset{}
              && heap.live == old(heap.live) + multiset{id.value}
    ensures a.Held().Some? ==>
              && id.Some? && a.Held().value == ListObj(id.value, items) && heap.live == old(heap.live)
              && IdsField(a.Held()) == multiset{id.value} + IdsItems(items)
  {
    if a.Held().None? {
      items := [];
      id := heap.Alloc();
      NoItems(e);
    } else {
      HeldSet(tag, e, a.Held().value);
      id, items := Some(a.Held().value.id), a.Held().value.items;
    }
  }

  ghost function SetDecoded<V(!new)>(tag: Ident, e: Schema<V>, w: seq<byte>): Option<(seq<Value<V>>, nat)> {
    match Decode(SequenceOf(tag, e), w)
    case Some((ListValue(vs), n)) => Some((vs, n))
    case _ => None
  }

  lemma NoItems<V(!new)>(e: Schema<V>)
    ensures IdsItems<V>([]) == multiset{} && FitsItems(e, ContentItems<V>([]))
  {
  }

  lemma HeldSet<V(!new)>(tag: Ident, e: Schema<V>, o: Obj<V>)
    requires Fits(SequenceOf(tag, e), Content(o))
    ensures o.ListObj? && FitsItems(e, ContentItems(o.items))
    ensures IdsField(Some(o)) == multiset{o.id} + IdsItems(o.items)
  {
  }

  lemma SetIds<V>(id: int, items: seq<Obj<V>>)
    ensures Ids(ListObj(id, items)) == IdsField(Some(ListObj(id, items))) == multiset{id} + IdsItems(items)
  {
  }

  lemma SetOutcome<V(!new)>(
    tag: Ident, e: Schema<V>, w: seq<byte>, a: Slot<V>, id: int, items: seq<Obj<V>>, items': seq<Obj<V>>,
    granted: bool, ok: bool, moved: int, ret: Option<Obj<V>>, a': Slot<V>)
    requires a.Held().None? ==> items == []
    requires a.Held().Some? ==> a.Held().value == ListObj(id, items)
    requires ItemsOutcome(e, SetDecoded(tag, e, w), items, granted, ok, moved, items')
    requires !ok ==> moved == 0
    requires ret == if ok then Some(ListObj(id, items')) else None
    requires a' == if ok then (if a.Null? then Null else To(ret))
                   else if a.Held().None? then a else To(Some(ListObj(id, items')))
    ensures Outcome(SequenceOf(tag, e), w, a, granted, ret, moved, a')
  {
    hide IdsItems, FitsItems, DecodeItems, Open;
    assert Content(ListObj(id, items')) == ListValue(ContentItems(items'));
    assert Decode(SequenceOf(tag, e), w).Some? ==> Decode(SequenceOf(tag, e), w).value.0.ListValue?;
    if a.Held().Some? {
      SubsetsAdd(multiset{id}, multiset{id}, IdsItems(items), IdsItems(items'));
      SetIds(id, items);
      SetIds(id, items');
      assert Left(a', ret) == Some(ListObj(id, items'));
      if ok {
        var v := Decode(SequenceOf(tag, e), w).value.0;
        assert ContentField(a.Held()) == Some(ListValue(ContentItems(items)));
        assert Merge(ContentField(a.Held()), v) == ListValue(ContentItems(items) + v.items);
      }
    } else if ok {
      assert [] + SetDecoded(tag, e, w).value.0 == SetDecoded(tag, e, w).value.0;
    }
  }

  /** d2i_ASN1_SET between its Init and its end. */
  method ReadSet<V(!new)>(
    tag: Ident, e: Schema<V>, buf: array<byte>, ghost b: seq<byte>, pp: nat, length: int,
    items: seq<Obj<V>>, heap: Heap)
    returns (ok: bool, pp': nat, items': seq<Obj<V>>)
    requires buf[..] == b && (0 < length ==> pp + length <= |b|)
    requires heap.Valid() && IdsItems(items) <= heap.live
    requires FitsItems(e, ContentItems(items))
    modifies buf, heap
    ensures buf[..] == b
    ensures heap.Valid() && heap.refused >= old(heap.refused)
    ensures ItemsOutcome(e, SetDecoded(tag, e, Window(b, pp, length)), items,
                         heap.refused == old(heap.refused), ok, pp' - pp, items')
    ensures !ok ==> pp' == pp
    ensures Balanced(old(heap.live), IdsItems(items), heap.live, IdsItems(items'))
    decreases e, 3, 0
  {
    hide DecodeItems, Open, Contents, FitsItems, ItemsOutcome, Balanced, Window, IdsItems, SetDecoded;
    ghost var w := Window(b, pp, length);
    var c := new Context(pp, length);
    pp', items' := pp, items;
    ok := c.GetSequence(buf, b, length, tag);
    if !ok {
      NotASet(tag, e, w, items, heap.refused == old(heap.refused));
      Unchanged(heap.live, IdsItems(items));
      return;
    }
    ghost var start := c.p;
    ok, items' := c.GetItems(e, buf, b, c.Rest(b), items, heap);
    pp' := if ok then c.p else pp;
    SetFinished(tag, e, w, items, heap.refused == old(heap.refused), ok, c.p - start, items');
  }

  lemma NotASet<V(!new)>(tag: Ident, e: Schema<V>, w: seq<byte>, items: seq<Obj<V>>, granted: bool)
    requires Open(tag, w).None?
    requires FitsItems(e, ContentItems(items))
    ensures ItemsOutcome(e, SetDecoded(tag, e, w), items, granted, false, 0, items)
  {
  }

  lemma SetFinished<V(!new)>(
    tag: Ident, e: Schema<V>, w: seq<byte>, items: seq<Obj<V>>, granted: bool, ok: bool, n: int, items': seq<Obj<V>>)
    requires Open(tag, w).Some?
    requires var h := Open(tag, w).value;
             ItemsOutcome(e, DecodeItems(e, Contents(h, w), h.inf == INDEFINITE), items, granted, ok, n, items')
    ensures ItemsOutcome(e, SetDecoded(tag, e, w), items, granted, ok,
                         if ok then Open(tag, w).value.size + n else 0, items')
  {
    hide DecodeItems, Open, Contents, FitsItems, IdsItems;
  }
}
