/**
  What a caller of a d2i function may rely on: who owns what, and what an object passed in for
  reuse holds afterwards.
 */
module Reuse {
  import opened Octets
  import opened Schema
  import opened RoundTrip
  import opened Objects
  import opened Decoder

  /** With no object passed in, a failed call leaves the heap as it was and a successful one adds
      exactly the tree it returns. */
  lemma NothingLeaks<V(!new)>(
    s: Schema<V>, w: seq<byte>, a: Slot<V>, granted: bool, ret: Option<Obj<V>>, moved: int, a': Slot<V>,
    live0: multiset<int>, live1: multiset<int>)
    requires Outcome(s, w, a, granted, ret, moved, a')
    requires Balanced(live0, IdsField(a.Held()), live1, IdsField(Left(a', ret)))
    requires a.Held().None?
    ensures ret.None? ==> live1 == live0 && a' == a
    ensures ret.Some? ==> live1 == live0 + Ids(ret.value) && a' == (if a.Null? then Null else To(ret))
  {
    hide Decode, Content, Merge, Fits;
    assert live1 == live1 + multiset{};
    assert live0 == live0 + multiset{};
  }

  /** An object the caller passed in is still there, with every object it had, on either exit. */
  lemma CallerKeepsObject<V(!new)>(
    s: Schema<V>, w: seq<byte>, o: Obj<V>, granted: bool, ret: Option<Obj<V>>, moved: int, a': Slot<V>,
    live0: multiset<int>, live1: multiset<int>)
    requires Outcome(s, w, To(Some(o)), granted, ret, moved, a')
    requires Balanced(live0, Ids(o), live1, IdsField(Left(a', ret)))
    requires Ids(o) <= live0
    ensures a'.To? && a'.obj.Some? && a'.obj.value.id == o.id
    ensures Ids(o) <= Ids(a'.obj.value) <= live1
    ensures ret.Some? ==> ret == a'.obj
  {
    hide Decode, Content, Merge, Fits, Ids;
    forall i ensures Ids(a'.obj.value)[i] <= live1[i] {
      assert (live1 + Ids(o))[i] == (live0 + Ids(a'.obj.value))[i];
    }
  }

  /** Reading into a new object gives back what was written. */
  lemma FreshRoundTrip<V(!new)>(
    s: Schema<V>, v: Value<V>, tail: seq<byte>, a: Slot<V>, ret: Option<Obj<V>>, moved: int, a': Slot<V>)
    requires WellFormed(s) && Fits(s, v) && Complete(s, v) && |Encode(s, v)| <= INT_MAX
    requires Outcome(s, Encode(s, v) + tail, a, true, ret, moved, a') && a.Held().None?
    ensures ret.Some? && Content(ret.value) == Canonical(s, v) && moved == |Encode(s, v)|
  {
    hide Decode, Encode, Content, Canonical, WellFormed, Fits, Complete;
    DecodeEncode(s, v, tail);
  }

  /** Nothing in p would show through where v says absent. */
  predicate NothingStale<V>(p: Option<Value<V>>, v: Value<V>)
    decreases v
  {
    p.Some? ==>
      match v
      case LeafValue(_) => true
      case SeqValue(vs) => p.value.SeqValue? && |p.value.fields| == |vs| ==> NoFieldStale(p.value.fields, vs)
      case ListValue(_) => p.value.ListValue? ==> p.value.items == []
  }

  predicate NoFieldStale<V>(ps: seq<Option<Value<V>>>, vs: seq<Option<Value<V>>>)
    requires |ps| == |vs|
    decreases vs
  {
    vs != [] ==> FieldNotStale(ps[0], vs[0]) && NoFieldStale(ps[1..], vs[1..])
  }

  predicate FieldNotStale<V>(p: Option<Value<V>>, ov: Option<Value<V>>)
    decreases ov
  {
    match ov
    case None => p.None?
    case Some(v) => NothingStale(p, v)
  }

  /** Decoding v into an object that held p leaves v there exactly when, wherever v has no value,
      p had none, at every depth, and lists started empty. */
  lemma {:induction false} ReuseExact<V>(p: Option<Value<V>>, v: Value<V>)
    ensures Merge(p, v) == v <==> NothingStale(p, v)
    decreases v
  {
    if p.Some? {
      match v
      case LeafValue(_) =>
      case SeqValue(vs) =>
        if p.value.SeqValue? && |p.value.fields| == |vs| {
          ReuseFieldsExact(p.value.fields, vs);
        }
      case ListValue(xs) =>
        if p.value.ListValue? {
          assert |p.value.items + xs| == |p.value.items| + |xs|;
          assert [] + xs == xs;
        }
    }
  }

  lemma {:induction false} ReuseFieldsExact<V>(ps: seq<Option<Value<V>>>, vs: seq<Option<Value<V>>>)
    requires |ps| == |vs|
    ensures MergeFields(ps, vs) == vs <==> NoFieldStale(ps, vs)
    decreases vs
  {
    if vs != [] {
      ReuseFieldExact(ps[0], vs[0]);
      ReuseFieldsExact(ps[1..], vs[1..]);
      var r := MergeFields(ps, vs);
      assert r[0] == MergeField(ps[0], vs[0]) && r[1..] == MergeFields(ps[1..], vs[1..]);
      assert r == [r[0]] + r[1..] && vs == [vs[0]] + vs[1..];
    }
  }

  lemma {:induction false} ReuseFieldExact<V>(p: Option<Value<V>>, ov: Option<Value<V>>)
    ensures MergeField(p, ov) == ov <==> FieldNotStale(p, ov)
    decreases ov
  {
    match ov
    case None =>
    case Some(v) => ReuseExact(p, v);
  }

  /** So reading into an object that is reused gives back what was written on that condition only. */
  lemma ReuseRoundTrip<V(!new)>(
    s: Schema<V>, v: Value<V>, tail: seq<byte>, a: Slot<V>, ret: Option<Obj<V>>, moved: int, a': Slot<V>)
    requires WellFormed(s) && Fits(s, v) && Complete(s, v) && |Encode(s, v)| <= INT_MAX
    requires Outcome(s, Encode(s, v) + tail, a, true, ret, moved, a')
    ensures ret.Some? && moved == |Encode(s, v)|
    ensures Content(ret.value) == Canonical(s, v) <==> NothingStale(ContentField(a.Held()), Canonical(s, v))
  {
    hide Decode, Encode, Content, Canonical, WellFormed, Fits, Complete;
    DecodeEncode(s, v, tail);
    ReuseExact(ContentField(a.Held()), Canonical(s, v));
  }

  // ----- When it does not -----

  lemma {:induction false} StaleAt<V>(ps: seq<Option<Value<V>>>, vs: seq<Option<Value<V>>>, i: nat)
    requires i < |ps| == |vs| && ps[i].Some? && vs[i].None?
    ensures !NoFieldStale(ps, vs)
    decreases |vs|
  {
    hide FieldNotStale;
    if i == 0 {
      assert !FieldNotStale(ps[0], vs[0]) by { NotStaleNone(ps[0]); }
    } else {
      StaleAt(ps[1..], vs[1..], i - 1);
    }
  }

  lemma NotStaleNone<V>(p: Option<Value<V>>)
    ensures FieldNotStale(p, None) <==> p.None?
  {
  }

  lemma {:induction false} HeldAt<V>(slots: seq<Option<Obj<V>>>, i: nat)
    requires i < |slots|
    ensures ContentFields(slots)[i] == ContentField(slots[i])
    decreases |slots|
  {
    hide ContentField;
    if i != 0 {
      HeldAt(slots[1..], i - 1);
    }
  }

  lemma {:induction false} CanonicalAt<V(!new)>(fs: seq<Field<V>>, vs: seq<Option<Value<V>>>, i: nat)
    requires FitsFields(fs, vs) && i < |fs| && !Present(fs[i].rule, vs[i])
    ensures CanonicalFields(fs, vs)[i] == None
    decreases |fs|
  {
    hide FitsField, Present;
    if i != 0 {
      CanonicalAt(fs[1..], vs[1..], i - 1);
    }
  }

  /** A field the encoding leaves out and the object has: the old value shows through. */
  lemma StaleFieldShows<V(!new)>(
    form: Form, fs: seq<Field<V>>, vs: seq<Option<Value<V>>>, tail: seq<byte>,
    id: int, slots: seq<Option<Obj<V>>>, i: nat, ret: Option<Obj<V>>, moved: int, a': Slot<V>)
    requires WellFormedFields(fs) && FitsFields(fs, vs) && CompleteFields(fs, vs)
    requires |Encode(Sequence(form, fs), SeqValue(vs))| <= INT_MAX
    requires i < |fs| == |slots| && !Present(fs[i].rule, vs[i]) && slots[i].Some?
    requires Outcome(Sequence(form, fs), Encode(Sequence(form, fs), SeqValue(vs)) + tail,
                     To(Some(SeqObj(id, slots))), true, ret, moved, a')
    ensures ret.Some? && Content(ret.value) != Canonical(Sequence(form, fs), SeqValue(vs))
  {
    hide Decode, EncodeFields, ContentFields, CanonicalFields, WellFormedFields, FitsFields, CompleteFields, Outcome;
    hide NoFieldStale;
    var a := To(Some(SeqObj(id, slots)));
    ReuseRoundTrip(Sequence(form, fs), SeqValue(vs), tail, a, ret, moved, a');
    assert ContentField(a.Held()) == Some(SeqValue(ContentFields(slots)));
    HeldAt(slots, i);
    CanonicalAt(fs, vs, i);
    StaleAt(ContentFields(slots), CanonicalFields(fs, vs), i);
  }

  /** A list that was not empty: what is read is added to it. */
  lemma HeldListGrows<V(!new)>(
    tag: Ident, e: Schema<V>, vs: seq<Value<V>>, tail: seq<byte>,
    id: int, items: seq<Obj<V>>, ret: Option<Obj<V>>, moved: int, a': Slot<V>)
    requires WellFormed(e) && FitsItems(e, vs) && CompleteItems(e, vs) && items != []
    requires |Encode(SequenceOf(tag, e), ListValue(vs))| <= INT_MAX
    requires Outcome(SequenceOf(tag, e), Encode(SequenceOf(tag, e), ListValue(vs)) + tail,
                     To(Some(ListObj(id, items))), true, ret, moved, a')
    ensures ret.Some? && Content(ret.value) != Canonical(SequenceOf(tag, e), ListValue(vs))
  {
    hide Decode, EncodeItems, CanonicalItems, FitsItems, CompleteItems, Outcome;
    var a := To(Some(ListObj(id, items)));
    ReuseRoundTrip(SequenceOf(tag, e), ListValue(vs), tail, a, ret, moved, a');
    assert ContentField(a.Held()) == Some(ListValue(ContentItems(items)));
    assert ContentItems(items) != [];
  }
}
