/**
  The M_ASN1_I2D_* macros: one pass that adds lengths up, and, when there is somewhere to write,
  a second that moves a pointer over the output.
 */
module Encoder {
  import opened Octets
  import opened Schema

  /** C's `int`; every sum below is checked to stay within it. */
  newtype cint = x: int | -0x8000_0000 <= x <= INT_MAX

  /** What `f(a, ...)` writes: M_ASN1_I2D_vars returns 0 for NULL. */
  ghost function Written<V(!new)>(s: Schema<V>, a: Option<Value<V>>): seq<byte>
    requires a.Some? ==> Fits(s, a.value)
  {
    if a.None? then [] else Encode(s, a.value)
  }

  /** Buffer b with x written at p. */
  ghost function Splice(b: seq<byte>, p: nat, x: seq<byte>): (r: seq<byte>)
    requires p + |x| <= |b|
    ensures |r| == |b|
  {
    b[..p] + x + b[p + |x|..]
  }

  lemma SpliceNothing(b: seq<byte>, p: nat)
    requires p <= |b|
    ensures Splice(b, p, []) == b
  {
  }

  lemma SpliceTwice(b: seq<byte>, p: nat, x: seq<byte>, y: seq<byte>)
    requires p + |x| + |y| <= |b|
    ensures Splice(Splice(b, p, x), p + |x|, y) == Splice(b, p, x + y)
  {
    var c := Splice(b, p, x);
    assert c[..p + |x|] == b[..p] + x;
    assert c[p + |x| + |y|..] == b[p + |x| + |y|..];
  }

  lemma SpliceNext(b: seq<byte>, p: nat, x: seq<byte>, o: byte)
    requires p + |x| < |b|
    ensures Splice(b, p, x)[p + |x| := o] == Splice(b, p, x + [o])
  {
    var c, d := Splice(b, p, x)[p + |x| := o], Splice(b, p, x + [o]);
    forall k | 0 <= k < |b| ensures c[k] == d[k] {
    }
  }

  lemma SpliceFirst(b: seq<byte>, p: nat, x: seq<byte>, o: byte)
    requires p + |x| <= |b| && |x| >= 1
    ensures Splice(b, p, x)[p] == x[0]
    ensures Splice(b, p, x)[p := o] == Splice(b, p, [o] + x[1..])
  {
  }

  // ----- Writing octets through the moving pointer -----

  /** `*(p++) = x[0]; *(p++) = x[1]; ...` */
  method PutOctets(out: array<byte>, p: nat, x: seq<byte>) returns (p': nat)
    requires p + |x| <= out.Length
    modifies out
    ensures p' == p + |x| && out[..] == Splice(old(out[..]), p, x)
  {
    hide Splice;
    p' := p;
    SpliceNothing(out[..], p);
    for i := 0 to |x|
      invariant p' == p + i
      invariant out[..] == Splice(old(out[..]), p, x[..i])
    {
      SpliceNext(old(out[..]), p, x[..i], x[i]);
      assert x[..i] + [x[i]] == x[..i + 1];
      out[p'] := x[i];
      p' := p' + 1;
    }
    assert x[..|x|] == x;
  }

  /** ASN1_object_size(1, length, tag), or the header and end-of-contents of the INF macros. */
  function FrameSize(form: Form, length: nat): nat {
    match form
    case Definite => 1 + |LengthOctets(length)| + length
    case Indefinite => 2 + length + 2
  }

  lemma FrameSizeIsLength(tag: Ident, form: Form, body: seq<byte>)
    ensures FrameSize(form, |body|) == |Frame(tag, form, body)|
  {
  }

  /** ASN1_put_object or M_ASN1_I2D_INF_seq_start. */
  method PutHeader(out: array<byte>, p: nat, form: Form, length: cint, tag: Ident) returns (p': nat)
    requires 0 <= length && p + FrameSize(form, length as nat) <= out.Length
    modifies out
    ensures var h := if form.Definite? then ConstructedHeader(tag, length as nat) else IndefiniteHeader(tag);
            p' == p + |h| && p' <= out.Length && out[..] == Splice(old(out[..]), p, h)
  {
    if form.Definite? {
      p' := PutOctets(out, p, ConstructedHeader(tag, length as nat));
    } else {
      p' := PutOctets(out, p, IndefiniteHeader(tag));
    }
  }

  /** M_ASN1_I2D_INF_seq_end, in an indefinite frame. */
  method PutEnd(out: array<byte>, p: nat, form: Form) returns (p': nat)
    requires form.Indefinite? ==> p + 2 <= out.Length
    modifies out
    ensures var x := if form.Definite? then [] else END_OF_CONTENTS;
            p' == p + |x| && (p <= out.Length ==> out[..] == Splice(old(out[..]), p, x))
  {
    p' := p;
    if form.Indefinite? {
      p' := PutOctets(out, p, END_OF_CONTENTS);
    }
  }

  /** Header, body and end, each written after the other, make up the frame. */
  lemma FrameInThree(b: seq<byte>, p: nat, tag: Ident, form: Form, body: seq<byte>)
    requires p + |Frame(tag, form, body)| <= |b|
    ensures var h := if form.Definite? then ConstructedHeader(tag, |body|) else IndefiniteHeader(tag);
            var x := if form.Definite? then [] else END_OF_CONTENTS;
            && |h| + |body| + |x| == |Frame(tag, form, body)|
            && Splice(Splice(Splice(b, p, h), p + |h|, body), p + |h| + |body|, x)
               == Splice(b, p, Frame(tag, form, body))
  {
    var h := if form.Definite? then ConstructedHeader(tag, |body|) else IndefiniteHeader(tag);
    var x := if form.Definite? then [] else END_OF_CONTENTS;
    assert h + body + x == Frame(tag, form, body);
    hide Splice, Frame, ConstructedHeader, IndefiniteHeader;
    SpliceTwice(b, p, h, body);
    SpliceTwice(b, p, h + body, x);
  }

  // ----- The two passes -----

  /** `int f(a, unsigned char **pp)`: with pp NULL only the length; otherwise the octets are
      written at *pp, which moves past them.  Nothing else is written. */
  method I2D<V(!new)>(s: Schema<V>, a: Option<Value<V>>, out: array<byte>, pp: Option<nat>)
    returns (r: cint, pp': Option<nat>)
    requires a.Some? ==> Fits(s, a.value)
    requires |Written(s, a)| <= INT_MAX
    requires pp.Some? ==> pp.value + |Written(s, a)| <= out.Length
    modifies out
    ensures r as int == |Written(s, a)|
    ensures pp.None? ==> pp' == None && out[..] == old(out[..])
    ensures pp.Some? ==>
              && pp' == Some(pp.value + r as int)
              && out[..] == Splice(old(out[..]), pp.value, Written(s, a))
    decreases s, 1, 0
  {
    hide Frame, Splice, EncodeFields, EncodeItems, FitsFields, FitsItems;
    if a.None? {
      if pp.Some? {
        SpliceNothing(out[..], pp.value);
      }
      return 0, pp;
    }
    match s
    case Leaf(c) =>
      var x := c.i2d(a.value.v);
      r, pp' := |x| as cint, None;
      if pp.Some? {
        var p := PutOctets(out, pp.value, x);
        pp' := Some(p);
      }
    case Sequence(form, fs) =>
      r, pp' := I2DSequence(form, fs, a.value.fields, out, pp);
    case SequenceOf(tag, e) =>
      r, pp' := I2DSet(tag, e, a.value.items, out, pp);
  }

  /** A function body made of M_ASN1_I2D_len*, seq_total, put* and finish. */
  method I2DSequence<V(!new)>(
    form: Form, fs: seq<Field<V>>, vs: seq<Option<Value<V>>>, out: array<byte>, pp: Option<nat>)
    returns (r: cint, pp': Option<nat>)
    requires FitsFields(fs, vs)
    requires |Frame(V_ASN1_SEQUENCE, form, EncodeFields(fs, vs))| <= INT_MAX
    requires pp.Some? ==> pp.value + |Frame(V_ASN1_SEQUENCE, form, EncodeFields(fs, vs))| <= out.Length
    modifies out
    ensures var x := Frame(V_ASN1_SEQUENCE, form, EncodeFields(fs, vs));
            && r as int == |x|
            && (pp.None? ==> pp' == None && out[..] == old(out[..]))
            && (pp.Some? ==> pp' == Some(pp.value + |x|) && out[..] == Splice(old(out[..]), pp.value, x))
    decreases fs, 1, 0
  {
    hide Frame, FrameSize, ConstructedHeader, IndefiniteHeader, Splice, EncodeFields, FitsFields;
    ghost var body := EncodeFields(fs, vs);
    FrameSizeIsLength(V_ASN1_SEQUENCE, form, body);
    BodyFits(V_ASN1_SEQUENCE, form, body);
    var ret, saved := LenFields(fs, vs, out);
    r := FrameSize(form, ret as nat) as cint;
    if pp.None? {
      return r, None;
    }
    FrameInThree(out[..], pp.value, V_ASN1_SEQUENCE, form, body);
    var p := PutHeader(out, pp.value, form, ret, V_ASN1_SEQUENCE);
    p := PutFields(fs, vs, saved, out, p);
    p := PutEnd(out, p, form);
    pp' := Some(p);
  }

  /** i2d_ASN1_SET with IS_SEQUENCE. */
  method I2DSet<V(!new)>(tag: Ident, e: Schema<V>, vs: seq<Value<V>>, out: array<byte>, pp: Option<nat>)
    returns (r: cint, pp': Option<nat>)
    requires FitsItems(e, vs)
    requires |Frame(tag, Definite, EncodeItems(e, vs))| <= INT_MAX
    requires pp.Some? ==> pp.value + |Frame(tag, Definite, EncodeItems(e, vs))| <= out.Length
    modifies out
    ensures var x := Frame(tag, Definite, EncodeItems(e, vs));
            && r as int == |x|
            && (pp.None? ==> pp' == None && out[..] == old(out[..]))
            && (pp.Some? ==> pp' == Some(pp.value + |x|) && out[..] == Splice(old(out[..]), pp.value, x))
    decreases e, 3, 0
  {
    hide Frame, FrameSize, ConstructedHeader, IndefiniteHeader, Splice, EncodeItems, FitsItems;
    ghost var body := EncodeItems(e, vs);
    FrameSizeIsLength(tag, Definite, body);
    BodyFits(tag, Definite, body);
    var ret := LenItems(e, vs, out);
    r := FrameSize(Definite, ret as nat) as cint;
    if pp.None? {
      return r, None;
    }
    FrameInThree(out[..], pp.value, tag, Definite, body);
    var p := PutHeader(out, pp.value, Definite, ret, tag);
    p := PutItems(e, vs, out, p);
    p := PutEnd(out, p, Definite);
    pp' := Some(p);
  }

  lemma BodyFits(tag: Ident, form: Form, body: seq<byte>)
    ensures |body| < |Frame(tag, form, body)|
  {
  }

  /** The length macros of a program, and the `v` each EXPLICIT one saves. */
  method LenFields<V(!new)>(fs: seq<Field<V>>, vs: seq<Option<Value<V>>>, out: array<byte>)
    returns (ret: cint, saved: seq<cint>)
    requires FitsFields(fs, vs) && |EncodeFields(fs, vs)| <= INT_MAX
    modifies out
    ensures ret as int == |EncodeFields(fs, vs)| && out[..] == old(out[..])
    ensures |saved| == |fs|
    ensures forall i :: 0 <= i < |fs| ==> SavedBy(fs[i], vs[i], saved[i])
    decreases fs, 0, 0
  {
    hide EncodeField, FitsField, SavedBy;
    ret, saved := 0, [];
    for i := 0 to |fs|
      invariant FitsFields(fs[i..], vs[i..])
      invariant 0 <= ret && ret as int + |EncodeFields(fs[i..], vs[i..])| == |EncodeFields(fs, vs)|
      invariant |saved| == i && out[..] == old(out[..])
      invariant forall j :: 0 <= j < i ==> SavedBy(fs[j], vs[j], saved[j])
    {
      assert fs[i..][1..] == fs[i + 1..] && vs[i..][1..] == vs[i + 1..];
      var n, v := LenField(fs[i], vs[i], out);
      ret, saved := ret + n, saved + [v];
    }
  }

  /** The saved `v` of an EXPLICIT field that will be put is the length of its contents. */
  ghost predicate SavedBy<V(!new)>(f: Field<V>, ov: Option<Value<V>>, v: cint) {
    && FitsField(f, ov)
    && (f.rule.Exp? && Present(f.rule, ov) ==> v as int == |Encode(f.item, ov.value)|)
  }

  method LenField<V(!new)>(f: Field<V>, ov: Option<Value<V>>, out: array<byte>) returns (n: cint, v: cint)
    requires FitsField(f, ov) && |EncodeField(f, ov)| <= INT_MAX
    modifies out
    ensures n as int == |EncodeField(f, ov)| && out[..] == old(out[..])
    ensures SavedBy(f, ov, v)
    decreases f, 0, 0
  {
    hide Encode, Frame, FrameSize;
    n, v := 0, 0;
    var put := ov.Some?;
    if (f.rule.SeqOpt? || f.rule.Exp?) && put && ov.value.ListValue? {
      put := |ov.value.items| != 0;
    }
    match f.rule
    case Get =>
      var n', _ := I2D(f.item, ov, out, None);
      n := n';
    case Exp(tag, form) =>
      if put {
        FrameSizeIsLength(CONTEXT_SPECIFIC + tag, form, Encode(f.item, ov.value));
        BodyFits(CONTEXT_SPECIFIC + tag, form, Encode(f.item, ov.value));
        var v', _ := I2D(f.item, ov, out, None);
        v := v';
        n := FrameSize(form, v as nat) as cint;
      }
    case _ =>
      if put {
        var n', _ := I2D(f.item, ov, out, None);
        n := n';
      }
  }

  /** The put macros of a program, with the lengths its first pass saved. */
  method PutFields<V(!new)>(
    fs: seq<Field<V>>, vs: seq<Option<Value<V>>>, saved: seq<cint>, out: array<byte>, p: nat)
    returns (p': nat)
    requires FitsFields(fs, vs) && |EncodeFields(fs, vs)| <= INT_MAX
    requires |saved| == |fs| && forall i :: 0 <= i < |fs| ==> SavedBy(fs[i], vs[i], saved[i])
    requires p + |EncodeFields(fs, vs)| <= out.Length
    modifies out
    ensures p' == p + |EncodeFields(fs, vs)|
    ensures out[..] == Splice(old(out[..]), p, EncodeFields(fs, vs))
    decreases fs, 0, 0
  {
    hide EncodeField, FitsField, SavedBy, Splice;
    SpliceNothing(out[..], p);
    p' := p;
    ghost var done: seq<byte> := [];
    for i := 0 to |fs|
      invariant FitsFields(fs[i..], vs[i..])
      invariant done + EncodeFields(fs[i..], vs[i..]) == EncodeFields(fs, vs)
      invariant p' == p + |done| && out[..] == Splice(old(out[..]), p, done)
    {
      assert fs[i..][1..] == fs[i + 1..] && vs[i..][1..] == vs[i + 1..];
      ghost var x := EncodeField(fs[i], vs[i]);
      SpliceTwice(old(out[..]), p, done, x);
      p' := PutField(fs[i], vs[i], saved[i], out, p');
      done := done + x;
    }
    assert done == EncodeFields(fs, vs);
  }

  method PutField<V(!new)>(f: Field<V>, ov: Option<Value<V>>, v: cint, out: array<byte>, p: nat)
    returns (p': nat)
    requires FitsField(f, ov) && SavedBy(f, ov, v) && |EncodeField(f, ov)| <= INT_MAX
    requires p + |EncodeField(f, ov)| <= out.Length
    modifies out
    ensures p' == p + |EncodeField(f, ov)|
    ensures out[..] == Splice(old(out[..]), p, EncodeField(f, ov))
    decreases f, 0, 0
  {
    hide Encode, Frame, Splice;
    var put := f.rule.Get? || ov.Some?;
    if (f.rule.SeqOpt? || f.rule.Exp?) && put && ov.value.ListValue? {
      put := |ov.value.items| != 0;
    }
    if !put {
      SpliceNothing(out[..], p);
      return p;
    }
    match f.rule
    case Imp(tag, _) => p' := PutImp(f.item, ov.value, tag, out, p);
    case Exp(tag, form) => p' := PutExp(f.item, ov.value, tag, form, v, out, p);
    case _ =>
      var _, pp := I2D(f.item, ov, out, Some(p));
      p' := pp.value;
  }

  /** M_ASN1_I2D_put_IMP_opt: the octet at q is overwritten once the codec has written it. */
  method PutImp<V(!new)>(s: Schema<V>, x: Value<V>, tag: TagNumber, out: array<byte>, p: nat) returns (p': nat)
    requires Fits(s, x) && |Encode(s, x)| <= INT_MAX && p + |Encode(s, x)| <= out.Length
    modifies out
    ensures var e := Encode(s, x);
            && p' == p + |e|
            && out[..] == Splice(old(out[..]), p, [CONTEXT_SPECIFIC + tag + ConstructedBit(e[0])] + e[1..])
    decreases s, 2, 0
  {
    hide Encode, Splice;
    ghost var e, out0 := Encode(s, x), out[..];
    var q := p;
    var _, pp := I2D(s, Some(x), out, Some(p));
    p' := pp.value;
    SpliceFirst(out0, p, e, CONTEXT_SPECIFIC + tag + ConstructedBit(e[0]));
    out[q] := CONTEXT_SPECIFIC + tag + ConstructedBit(out[q]);
  }

  /** M_ASN1_I2D_put_EXP_opt, put_EXP_SEQUENCE_opt: the length is the one saved in v. */
  method PutExp<V(!new)>(s: Schema<V>, x: Value<V>, tag: TagNumber, form: Form, v: cint, out: array<byte>, p: nat)
    returns (p': nat)
    requires Fits(s, x) && v as int == |Encode(s, x)|
    requires var w := Frame(CONTEXT_SPECIFIC + tag, form, Encode(s, x));
             |w| <= INT_MAX && p + |w| <= out.Length
    modifies out
    ensures var w := Frame(CONTEXT_SPECIFIC + tag, form, Encode(s, x));
            p' == p + |w| && out[..] == Splice(old(out[..]), p, w)
    decreases s, 2, 0
  {
    hide Encode, Frame, FrameSize, ConstructedHeader, IndefiniteHeader, Splice;
    ghost var e := Encode(s, x);
    FrameSizeIsLength(CONTEXT_SPECIFIC + tag, form, e);
    BodyFits(CONTEXT_SPECIFIC + tag, form, e);
    FrameInThree(out[..], p, CONTEXT_SPECIFIC + tag, form, e);
    p' := PutHeader(out, p, form, v, CONTEXT_SPECIFIC + tag);
    var _, pp := I2D(s, Some(x), out, Some(p'));
    p' := PutEnd(out, pp.value, form);
  }

  /** The elements, in their order. */
  method LenItems<V(!new)>(e: Schema<V>, vs: seq<Value<V>>, out: array<byte>) returns (ret: cint)
    requires FitsItems(e, vs) && |EncodeItems(e, vs)| <= INT_MAX
    modifies out
    ensures ret as int == |EncodeItems(e, vs)| && out[..] == old(out[..])
    decreases e, 2, |vs|
  {
    hide Encode, Fits;
    ret := 0;
    for i := 0 to |vs|
      invariant FitsItems(e, vs[i..])
      invariant 0 <= ret && ret as int + |EncodeItems(e, vs[i..])| == |EncodeItems(e, vs)|
      invariant out[..] == old(out[..])
    {
      assert vs[i..][1..] == vs[i + 1..];
      var n, _ := I2D(e, Some(vs[i]), out, None);
      ret := ret + n;
    }
  }

  method PutItems<V(!new)>(e: Schema<V>, vs: seq<Value<V>>, out: array<byte>, p: nat) returns (p': nat)
    requires FitsItems(e, vs) && |EncodeItems(e, vs)| <= INT_MAX
    requires p + |EncodeItems(e, vs)| <= out.Length
    modifies out
    ensures p' == p + |EncodeItems(e, vs)|
    ensures out[..] == Splice(old(out[..]), p, EncodeItems(e, vs))
    decreases e, 2, |vs|
  {
    hide Encode, Fits, Splice, EncodeItems, FitsItems;
    SpliceNothing(out[..], p);
    p' := p;
    ghost var done: seq<byte> := [];
    for i := 0 to |vs|
      invariant FitsItems(e, vs[i..])
      invariant done + EncodeItems(e, vs[i..]) == EncodeItems(e, vs)
      invariant p' == p + |done| && out[..] == Splice(old(out[..]), p, done)
    {
      HeadItem(e, vs[i..]);
      assert vs[i..][1..] == vs[i + 1..];
      ghost var x := Written(e, Some(vs[i]));
      SpliceTwice(old(out[..]), p, done, x);
      var _, pp := I2D(e, Some(vs[i]), out, Some(p'));
      p' := pp.value;
      done := done + x;
    }
    assert done == EncodeItems(e, vs) by { NoItemsLeft(e, vs[|vs|..]); }
  }

  lemma HeadItem<V(!new)>(e: Schema<V>, vs: seq<Value<V>>)
    requires FitsItems(e, vs) && vs != []
    ensures Fits(e, vs[0]) && FitsItems(e, vs[1..])
    ensures EncodeItems(e, vs) == Written(e, Some(vs[0])) + EncodeItems(e, vs[1..])
  {
  }

  lemma NoItemsLeft<V(!new)>(e: Schema<V>, vs: seq<Value<V>>)
    requires vs == []
    ensures FitsItems(e, vs) && EncodeItems(e, vs) == []
  {
  }
}
