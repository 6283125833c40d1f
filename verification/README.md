# ASN.1 macro codec and bignum normal form

A Dafny model of the two vendored headers of this repository that hold executable logic, and proofs
about it.

* `include/openssl/asn1_mac.h` builds SEQUENCE codecs out of macros: an encoder that first adds
  lengths up and then writes through a moving pointer, and a decoder that moves a cursor over the
  input, overwrites the input while it reads IMPLICIT fields, and shares one error exit.
* `include/openssl/bn.h` keeps big numbers as word arrays with a normal form, and has predicates
  that are only right on it.

## How it is laid out

| file | contents |
|---|---|
| `Octets.dfy` | identifier, length and end-of-contents octets of ITU-T X.690 |
| `Schema.dfy` | a program of macros as a list of fields; what it writes (`Encode`) and reads (`Decode`) |
| `RoundTrip.dfy` | decoding undoes encoding |
| `Guards.dfy` | the guards of the optional macros as the header's mask comparisons |
| `Laws.dfy` | prefix-freeness, nesting, definite and indefinite forms, exactly which programs give every value back |
| `Wrappers.dfy` | when a definite EXPLICIT wrapper is used up |
| `Encoder.dfy` | the I2D macros over an output array, proved to write `Encode` |
| `Objects.dfy` | the objects a decoder allocates, their owner's heap, and what a reused object ends up holding |
| `Decoder.dfy` | the D2I macros over a context, an input array and a heap, proved to read `Decode` |
| `Reuse.dfy` | ownership, and when an object passed in for reuse spoils the result |
| `Bare.dfy` | programs without a surrounding SEQUENCE: where their guards look, and when they give values back |
| `Transfer.dfy` | one program writing a buffer and another reading it |
| `OctetString.dfy` | a codec that meets the contract asked of `f` and `func` |
| `Examples.dfy` | programs over it: one that meets every condition, and inputs that each loose end spoils |
| `Bignum.dfy` | word arrays, `bn_correct_top`, `bn_pollute`, the predicates, `bn_expand` |

A program of macros is a value of `Schema`, so every statement below is about all programs and all
nestings of them.  The codecs that the macros call as `f` and `func` are parameters: `Bounded` is what
holds of any value and any input (i2d writes at least one octet, d2i fails or consumes between one
octet and all it was given), `Faithful` adds that d2i reads back what i2d wrote.  `WellFormed` adds the
tag condition of ITU-T X.680, section 25, put to the guards of the macros: an optional field's guard
takes every octet the field may start with and none that may come in its place.  The guards of the
EXPLICIT and list macros look at the constructed bit, so the condition is on whole octets.
`Examples.dfy` shows that these conditions can be met, by a codec and by a program with every kind of
field.  `Fits` is the C type of a value; `Complete` says that every mandatory component is there.

The encoder's and decoder's methods are the macros, in the macros' order, on C's state: `c.p`, `c.q`,
`c.slen`, `c.inf`, `c.eos` and `c.max` are fields of `Context`, pointers are offsets into an array,
`*a` is a `Slot`, and each allocation may return NULL.  The methods are proved against `Encode` and
`Decode` for every input, malformed input included; the lemmas then speak of `Encode` and `Decode`.

The functions that the header only declares are written out from the standard:
`ASN1_get_object`, `ASN1_put_object`, `ASN1_object_size` and `ASN1_const_check_infinite_end` from
sections 8.1.2, 8.1.3, 8.1.5 and 10.1 of X.690; `asn1_GetSequence`, `asn1_const_Finish`, `i2d_ASN1_SET`
and `d2i_ASN1_SET` from sections 8.9 and 8.10 and the comments on the fields of `ASN1_const_CTX`.

## Results that are less than a reader might hope

* A definite EXPLICIT wrapper need not be used up by what is in it.  `FieldInsideWrapperAccepted`
  gives, for every pair of fields, an input that is accepted although the second field is inside the
  wrapper of the first.  `DefiniteWrapperUsedUp` says, for every input and every program whose codecs
  take the element they are shown, that the wrapper is used up if and only if what is in it extends to
  its end, where the extent is found from headers and guards without asking a codec.  That it is one
  element by its headers is neither necessary nor enough (`TakenThoughNoElement`,
  `OneElementNotTaken`), unless the wrappers inside are tight (`TightWrapperUsedUp`).
* A program whose guards cannot tell its fields apart loses values: `FieldsExact` says which, value by
  value, and `GuardsExact` that a SEQUENCE gives every value back if and only if its guards tell its
  fields apart, from one another and from the end of the contents.  An optional field and a mandatory one of the same type behind it do not
  (`OptionalBeforeItself`); an EXPLICIT and an IMPLICIT string with the same tag do
  (`SharedTagWellFormed`).
* `M_ASN1_D2I_begin` takes `c.slen` from its caller, and the optional macros test it against zero only.
  A wrapper of indefinite length cut off behind its header makes the macros themselves pass -2
  (`TruncatedWrapper`).  `GuardsLookInside` shows that the guards then look only at the contents if and
  only if the length is not negative or no guard comes before the first codec.
* An object passed in for reuse shows through where the input has no value, and its lists grow
  (`StaleFieldShows`, `HeldListGrows`); `ReuseRoundTrip` says exactly when the result is nevertheless
  what was written.
* An empty optional list does not come back; it comes back absent (`LeftOutComesBackNull`).  Everything
  else comes back as it was (`ComesBackExact`).
* `BN_abs_is_word` is right for every word if and only if top is at most one or some word above the
  lowest is not zero (`AbsIsWordExact`), and `BN_is_zero` if and only if top is zero or some word is
  not (`IsZeroExact`): leading zero words deceive them (`LeadingZeroDeceives`).  `IsOneExact` and
  `IsWordExact` say the same of `BN_is_one` and `BN_is_word`.

## Model

| member | source | states |
|---|---|---|
| RoundTrip.DecodeEncode | include/openssl/asn1_mac.h:75-177 | For every well-formed program, every complete value and any octets behind, the D2I run over the octets of the I2D run gives the value back (empty optional lists as absent) and consumes exactly the encoding |
| RoundTrip.FieldsRoundTrip | include/openssl/asn1_mac.h:129-177 | The same for a run of mandatory, optional, IMPLICIT and EXPLICIT fields, followed by any octets that no guard at the end of the run takes: the same fields are found present |
| RoundTrip.FieldsExact | include/openssl/asn1_mac.h:149-177 | In any program of sound fields, well-formed or not, and before any octets, a run of fields comes back if and only if every guard is true exactly where its field was written |
| RoundTrip.FieldRoundTrip | include/openssl/asn1_mac.h:149-177 | One field under each rule, present or absent, with any octets behind it, comes back and is used up exactly if and only if its guard is right |
| RoundTrip.ApartGuards | include/openssl/asn1_mac.h:149-177 | Where guards tell their fields apart none is misled: each is true exactly where its field was written, for every value and any octets behind that no guard at the end of the run takes |
| RoundTrip.RunFirst | include/openssl/asn1_mac.h:475-483 | What the writer puts first for a run of fields is one of the octets that the tag condition speaks of, or nothing |
| RoundTrip.ImplicitRead | include/openssl/asn1_mac.h:163-177 | Retagging by put_IMP_opt, which keeps the constructed bit, is undone exactly by the retagging of get_imp |
| RoundTrip.ExplicitRoundTrip | include/openssl/asn1_mac.h:277-300 | An EXPLICIT wrapper in either form, with any octets behind it, is read back to the value inside and used up exactly |
| RoundTrip.ItemsRoundTrip | include/openssl/asn1_mac.h:257-262 | A list of any length is read back element by element, in order, up to the end of its contents |
| RoundTrip.FrameRead | include/openssl/asn1_mac.h:558-568 | The header that seq_total, put_object or INF_seq_start writes is recognised with the same form, and delimits exactly the body (and what follows it when indefinite) |
| Octets.LengthRoundTrip | include/openssl/asn1.h:954-961 | For every length an int can hold, the length octets put_object writes are parsed to that length, whatever follows (X.690, section 8.1.3) |
| Octets.LengthMinimal | include/openssl/asn1.h:958-961 | They are the shortest octets that are parsed to that length, and the only ones of that size (X.690, section 10.1) |
| Octets.ParseLengthExact | include/openssl/asn1.h:954-955 | On any octets, a length is parsed if and only if they start with one of its short, long or indefinite forms, FF excepted (X.690, sections 8.1.3.3 to 8.1.3.6) |
| Octets.BigEndianAppend | include/openssl/asn1.h:954-955 | The value of length octets is positional in base 256, whatever they are |
| Octets.DefiniteHeaderRead | include/openssl/asn1.h:954-959 | get_object reads what put_object wrote: tag, constructed bit, length and header size |
| Octets.HeaderMinimal | include/openssl/asn1.h:958-961 | No other header that get_object reports with the same tag and length is as short as the one put_object writes |
| Octets.PaddedHeaderRead | include/openssl/asn1.h:954-955 | A header whose length has any number of leading zero octets, up to 126 octets in all, is reported like the one without |
| Octets.GetObjectExact | include/openssl/asn1.h:954-955 | On any octets, get_object reports exactly the header that stands there, and refuses tag numbers of 31 or more, indefinite primitives, and contents that are not all there |
| Schema.OpenExact | include/openssl/asn1_mac.h:106-108 | On any octets, asn1_GetSequence accepts a header if and only if get_object reports it and its first octet is the tag asked for with the constructed bit |
| Schema.SequenceStarts | include/openssl/asn1_mac.h:106-108 | Whatever a SEQUENCE program accepts starts with 30 |
| Schema.SequenceOfStarts | include/openssl/asn1_mac.h:257-262 | Whatever a list program accepts starts with its tag and the constructed bit |
| Octets.IndefiniteHeaderRead | include/openssl/asn1_mac.h:564-566 | get_object reports what INF_seq_start wrote as constructed and indefinite (0x21) |
| Octets.MasksAgree | include/openssl/asn1_mac.h:149-151 | The model's arithmetic on identifier octets is masking with V_ASN1_CONSTRUCTED and its complement, on all 256 octets |
| Octets.RetaggingAgrees | include/openssl/asn1_mac.h:163-165 | The same for the two or-expressions that retag an octet, in put_IMP_opt and get_imp |
| Guards.GuardsAreMasks | include/openssl/asn1_mac.h:149-151 | On all 256 octets, the guards of get_opt, get_IMP_opt, get_seq_opt, get_IMP_set_opt and get_EXP_opt are the header's comparisons on masked octets |
| Guards.GuardTakesOwn | include/openssl/asn1_mac.h:149-177 | A guard takes every octet its own put macro may write, for every tag and item; that of get_opt if and only if the item has the type it names |
| Guards.OnlyFieldWellFormed | include/openssl/asn1_mac.h:213-242 | An optional list under any tag, or an EXPLICIT field with any tag, over any well-formed item makes a well-formed SEQUENCE |
| Laws.PrefixFree | include/openssl/asn1_mac.h:558-571 | Two encodings under one program that agree up to trailing octets are equal and encode the same value |
| Laws.Injective | include/openssl/asn1_mac.h:558-571 | Encodings are equal if and only if the values are, reading empty optional lists as absent |
| Laws.CanonicalEncodesAlike | include/openssl/asn1_mac.h:403-409 | An empty optional list and an absent one are written alike, at any depth |
| Laws.NothingWrittenExact | include/openssl/asn1_mac.h:403-405 | A field is written as no octets if and only if it is NULL or, under SEQUENCE_opt and EXP_SEQUENCE_opt, an empty list |
| Laws.EmptyListIsAbsent | include/openssl/asn1_mac.h:503-505 | An empty optional list and NULL are both written as no octets, for every tag and element |
| Laws.LeftOutComesBackNull | include/openssl/asn1_mac.h:239-242 | A SEQUENCE with an empty optional list is written as if the list were NULL, and read with the list NULL |
| Laws.ComesBackExact | include/openssl/asn1_mac.h:543-548 | A value of a well-formed program comes back as it was, whatever follows, if and only if no optional list in it is empty, at any depth |
| Laws.ClosedUnderNesting | include/openssl/asn1.h:344-346 | What the macros build, at any depth, again keeps the contract asked of `f` and `func` |
| Laws.DecodeIgnoresForm | include/openssl/asn1_mac.h:277-300 | On every input, well-formed or not, a program decodes the same whichever lengths its writer makes indefinite |
| Laws.DefiniteExact | include/openssl/asn1_mac.h:564-568 | Making every length of a program definite leaves none indefinite, and changes only programs that had one |
| Laws.FormsAgree | include/openssl/asn1_mac.h:289-299 | Whichever wrappers and frames a writer made indefinite, at any depth, a reader gets the same value and consumes exactly what was written |
| Laws.SequenceExact | include/openssl/asn1_mac.h:106-177 | A value comes back from a SEQUENCE of sound fields, whatever follows it, if and only if no guard is misled |
| Laws.GuardsExact | include/openssl/asn1_mac.h:149-177 | A SEQUENCE of mandatory, optional, IMPLICIT, list and EXPLICIT fields over items that can be relied on, whose codecs write every first octet they name, gives every value back, alone or before any octets, if and only if each guard takes its own field's first octets and those of no field that may come in its place, and no guard the fields may end on takes what ends the contents |
| Laws.ListDependable | include/openssl/asn1_mac.h:257-262 | A list of items that can be relied on gives every value back before any octets |
| Laws.AlikeFieldsConfused | include/openssl/asn1_mac.h:149-177 | If a guard misses an octet of its own field, or takes one of a field in its place, some value does not come back |
| Laws.OptionalBeforeItself | include/openssl/asn1_mac.h:149-154 | An optional field and a mandatory one of the same type behind it: no value without the optional one comes back |
| Laws.TaggedFieldTaken | include/openssl/asn1_mac.h:149-177 | On any input, if the guard of an optional field takes what comes next, a successful run puts a value in that field or in one before it |
| Wrappers.DefiniteWrapperUsedUp | include/openssl/asn1_mac.h:283-300 | On every input, a definite EXPLICIT wrapper around a program whose codecs take the element they are shown is used up if and only if the program's extent, which asks no codec, reaches the wrapper's end |
| Wrappers.TakesExtent | include/openssl/asn1_mac.h:129-300 | On every input it accepts, such a program takes exactly its extent: a definite frame by its header, indefinite contents field by field or element by element up to end-of-contents, an EXPLICIT field as far as what is in it goes |
| Wrappers.WrappedFrameUsedUp | include/openssl/asn1_mac.h:283-300 | Whatever the codecs: around a SEQUENCE or list of definite length, if and only if the length in that header reaches the wrapper's end; around a SEQUENCE of indefinite length, if and only if the end-of-contents behind its last field are the wrapper's last two octets |
| Wrappers.TightWrapperUsedUp | include/openssl/asn1_mac.h:283-300 | Where the wrappers inside are tight, if and only if the contents are one element by their headers |
| Wrappers.TakesElement | include/openssl/asn1_mac.h:277-300 | A program over such codecs takes exactly one element of any such input it accepts, in either form and at any depth |
| Wrappers.WrittenElement | include/openssl/asn1_mac.h:558-568 | What a well-formed program over codecs that take the element they are shown writes is, by its headers, exactly one element whatever follows, with every wrapper in it tight |
| Wrappers.ElementExtends | include/openssl/asn1.h:954-957 | What stands behind an element does not change where its headers say it ends |
| Wrappers.FieldInsideWrapperAccepted | include/openssl/asn1_mac.h:283-300 | For every two fields, the second is accepted inside the definite wrapper of the first as if it stood after it |
| Encoder.I2D | include/openssl/asn1_mac.h:380-386 | For every program and value the length returned with pp NULL is the number of octets written, which are exactly the encoding; *pp moves past them and no other octet of the output changes; NULL is nothing; no int overflows when the encoding's length fits in one |
| Encoder.I2DSequence | include/openssl/asn1_mac.h:558-571 | The same for a function body made of len macros, seq_total or INF_seq_start, put macros, INF_seq_end and finish |
| Encoder.I2DSet | include/openssl/asn1_mac.h:395-397 | The same for i2d_ASN1_SET with IS_SEQUENCE, for lists of any length |
| Encoder.LenFields | include/openssl/asn1_mac.h:385-463 | The sum of the length macros is the number of octets the put macros write, and each saved `v` is the length of what will be put in its wrapper |
| Encoder.LenField | include/openssl/asn1_mac.h:385-463 | The length macro of one field, guard included, adds the length of what the put macro writes, and saves `v` |
| Encoder.PutFields | include/openssl/asn1_mac.h:475-548 | The put macros, given the saved lengths of the first pass, write the fields one behind the other |
| Encoder.PutField | include/openssl/asn1_mac.h:475-548 | The put macro of one field, guard included, writes that field and moves p past it |
| Encoder.PutImp | include/openssl/asn1_mac.h:477-483 | Overwriting the octet at q after f has moved p leaves the encoding under the context tag with its constructed bit |
| Encoder.PutExp | include/openssl/asn1_mac.h:529-548 | The header made from the saved v and the contents written behind it form the wrapper around the encoding |
| Encoder.PutItems | include/openssl/asn1_mac.h:496-505 | The elements are written in order, one behind the other |
| Encoder.FrameInThree | include/openssl/asn1_mac.h:558-568 | Header, contents and end written one behind the other, each at the pointer the last one left, make the frame |
| Decoder.D2I | include/openssl/asn1_mac.h:75-104 | On every input: succeeds if and only if the window starts with an encoding and no allocation was refused; the value is the decoded one; *pp and *a change on success only; the buffer is as it was; the live objects change exactly by the tree left behind |
| Decoder.D2ISequence | include/openssl/asn1_mac.h:75-108 | The same for a function body made of vars, Init, start_sequence, get macros and Finish; it succeeds only where the input has the octet 30 |
| Decoder.D2ISet | include/openssl/asn1_mac.h:257-262 | The same for d2i_ASN1_SET, for lists of any length; it succeeds only where the input has the list's tag with the constructed bit |
| Decoder.Leave | include/openssl/asn1_mac.h:91-104 | The result is freed if and only if the call failed and the result is not the object *a pointed to; *a is set on success only |
| Decoder.SequenceVars | include/openssl/asn1_mac.h:75-85 | The object filled is *a when there is one, untouched, and else a new empty one; NULL when the allocation is refused |
| Decoder.ReadSequence | include/openssl/asn1_mac.h:87-108 | From Init to the check in Finish: the fields found are the decoded ones on every input, and the input is restored on every exit |
| Decoder.ReadBare | include/openssl/asn1_mac.h:110-111 | The same with begin, for every length that is not negative, and for negative ones when no guard comes before the first codec |
| Decoder.D2IBare | include/openssl/asn1_mac.h:75-122 | A function body made of vars, Init, begin, get macros and Finish_nolen: success, value, *pp behind the last field, *a, freeing and buffer on every exit |
| Bare.GuardsLookInside | include/openssl/asn1_mac.h:110-177 | For every length and every input, the guards of a bare run read M_ASN1_next only inside its contents if and only if the length is not negative or no guard comes before the first codec |
| Bare.WrappedGuardsLookInside | include/openssl/asn1_mac.h:289-291 | With the Tlen of an indefinite wrapper, if and only if four octets are left, header included, or no guard comes before the first codec |
| Bare.TruncatedWrapper | include/openssl/asn1_mac.h:277-291 | Over the contents A0 80 alone Tlen is -2, and a bare program that starts with a guard looks behind them |
| Bare.BareExact | include/openssl/asn1_mac.h:110-122 | Read into a new object with memory to spare, the fields come back and *pp stops behind them if and only if no guard is misled by what was written or by what follows |
| Bare.BareRoundTrip | include/openssl/asn1_mac.h:110-122 | In a well-formed program that is so for every value and any octets behind that no guard at the end of the run takes |
| Decoder.Context.constructor | include/openssl/asn1_mac.h:87-89 | The cursor starts at *pp and the bound is NULL exactly when the length is zero |
| Decoder.Context.GetSequence | include/openssl/asn1_mac.h:106-108 | Accepts exactly a constructed header with the tag; then cursor and slen span its contents, inside the caller's bound |
| Decoder.Context.CheckInfiniteEnd | include/openssl/asn1.h:957 | True exactly when two zero octets are within what is left, and then steps over both |
| Decoder.Context.EndSequence | include/openssl/asn1_mac.h:124-126 | In definite form, true exactly when nothing is left; in indefinite form, exactly at end-of-contents, which it steps over |
| Decoder.Context.Finish | include/openssl/asn1.h:951 | Succeeds exactly when nothing is left or, in indefinite form, at end-of-contents, which it steps over |
| Decoder.Context.Get | include/openssl/asn1_mac.h:129-133 | The field is what the codec decodes at the cursor; c.p + c.slen does not move and slen stays within the input |
| Decoder.Context.GetImp | include/openssl/asn1_mac.h:163-177 | The field is what the codec decodes from the retagged octets; on success and on failure the octet in the input is the original again |
| Decoder.Context.GetExp | include/openssl/asn1_mac.h:277-300 | The field is what is decoded inside the wrapper, in either form; c.p + c.slen does not move |
| Decoder.Context.GetInWrapper | include/openssl/asn1_mac.h:283-300 | The same from the header on, with the Tlen of either form |
| Decoder.Context.EndWrapper | include/openssl/asn1_mac.h:293-300 | The end-of-contents check reads inside the enclosing contents and leaves the cursor behind the two octets |
| Decoder.ReservedForEnd | include/openssl/asn1_mac.h:289-299 | When the call inside an indefinite wrapper succeeds, at least two octets remain |
| Decoder.Context.GetField | include/openssl/asn1_mac.h:149-177 | Each optional macro with its guard: absent and nothing touched, or present and decoded; M_ASN1_next is read only inside the contents |
| Decoder.Context.GetFields | include/openssl/asn1_mac.h:129-177 | Any run of get macros, up to the first that fails: c.p + c.slen stays the end of the contents, slen is never negative |
| Decoder.Context.GetItems | include/openssl/asn1_mac.h:124-126 | The elements up to end_sequence, appended in order to the list there was |
| Reuse.NothingLeaks | include/openssl/asn1_mac.h:98-104 | With no object passed in, failure leaves heap and *a as they were, and success adds exactly the returned tree |
| Reuse.CallerKeepsObject | include/openssl/asn1_mac.h:75-104 | An object passed in survives every exit, with every object below it |
| Reuse.FreshRoundTrip | include/openssl/asn1_mac.h:75-104 | With memory and no object passed in, a call over an encoding returns the value written and moves by its length |
| Reuse.ReuseRoundTrip | include/openssl/asn1_mac.h:79-85 | With an object passed in, the result is the value written if and only if nothing the object held shows through |
| Reuse.ReuseExact | include/openssl/asn1_mac.h:79-85 | Reading v into an object leaves v there if and only if the object had no value wherever v has none, at every depth, and its lists were empty |
| Reuse.StaleFieldShows | include/openssl/asn1_mac.h:79-85 | A field that the encoding leaves out and the object passed in has: the call succeeds and its result is not what was written |
| Reuse.HeldListGrows | include/openssl/asn1_mac.h:257-262 | A list passed in that was not empty: the call succeeds and its result is not what was written |
| Transfer.WriteThenRead | include/openssl/asn1_mac.h:558-571 | Writing with one program and reading with another that differs in the forms only: the reader gets the value, stops just behind it, leaves the buffer as written, and fails only when memory does, then without a trace |
| OctetString.OctetStringFaithful | include/openssl/asn1.h:344-346 | A primitive octet string codec keeps the contract asked of `f` and `func` |
| Examples.OptionalThenMandatory | include/openssl/asn1_mac.h:149-154 | An optional string and a mandatory one behind it: every short value without the optional one can be written and does not come back |
| Examples.SharedTagWellFormed | include/openssl/asn1_mac.h:171-178 | An EXPLICIT and an IMPLICIT string with the same tag keep the tag condition |
| Examples.OneElementNotTaken | include/openssl/asn1_mac.h:283-300 | Contents that are one element by their headers, of which the program takes nine octets of thirteen |
| Examples.TakenThoughNoElement | include/openssl/asn1_mac.h:283-300 | Contents that are no element by their headers, and taken to the last octet |
| Examples.StaleString | include/openssl/asn1_mac.h:79-85 | An empty SEQUENCE read into an object that holds a string |
| Examples.StaleList | include/openssl/asn1_mac.h:257-262 | An empty list read into a list that holds a string |
| Bignum.CanonicalUnique | include/openssl/bn.h:313-321 | Two bignums in normal form have the same value if and only if top, the words below it and neg are equal, in every base |
| Bignum.UniqueWords | include/openssl/bn.h:804-812 | Without leading zero words a magnitude has one word array |
| Bignum.BigNum.CorrectTop | include/openssl/bn.h:835-848 | The loop keeps the value, ends in normal form with the leading zero words gone, keeps the sign unless the value is zero, writes no word, and changes nothing when there is nothing to do |
| Bignum.StripKeepsMagnitude | include/openssl/bn.h:835-848 | Dropping leading zero words keeps the magnitude |
| Bignum.BigNum.Pollute | include/openssl/bn.h:782-797 | Overwriting the words from top to dmax changes neither value nor sign |
| Bignum.PredicatesExact | include/openssl/bn.h:403-406 | Without leading zero words, BN_is_zero, BN_is_one, BN_is_word and BN_is_odd hold if and only if the integer is 0, is 1, is w, is odd, for numbers of any length and either sign |
| Bignum.AbsIsWordExact | include/openssl/bn.h:400-402 | On any word array, BN_abs_is_word answers rightly for every word if and only if top is at most one or some word above the lowest is not zero |
| Bignum.IsZeroExact | include/openssl/bn.h:403 | On any word array, BN_is_zero answers rightly if and only if top is zero or some word is not |
| Bignum.IsOneExact | include/openssl/bn.h:404 | On any word array, BN_is_one answers rightly if and only if the sign is set, top is at most one, the lowest word is not one, or some word above it is not zero |
| Bignum.IsWordExact | include/openssl/bn.h:405 | On any word array, BN_is_word answers rightly for every word if and only if top is at most one, some word above the lowest is not zero, or the number is negative and its lowest word is not zero |
| Bignum.LeadingZeroDeceives | include/openssl/bn.h:400-405 | A word with any number of zero words above it has that value, and is recognised by none of the predicates |
| Bignum.ExpandCovers | include/openssl/bn.h:725-734 | The guard refuses exactly the bit counts whose rounding up would overflow an int; past it a count that is not positive asks for nothing, and otherwise the word count is the least that covers the bits, expansion is asked for exactly when there is less room, and every number below 2^bits has a normal form within it |
| Bignum.ToWordsCanonical | include/openssl/bn.h:313-321 | Every natural number has a normal form in every base |

## Left out

- Decoder.ReadBare: with a negative length and a guard first, C reads behind the contents (Bare.GuardsLookInside) and what comes of it is not modelled.
- Decoder.D2IBare: the same.
- Decoder.D2ILeaf: the codec given from outside is a function of the octets in its window, so one that itself scribbles on the input and restores it is not modelled at the leaves; the macros' own scribbling is.
- Encoder.I2D: nothing is said when the encoding is longer than an int can tell; the sums then overflow in C.
- `asn1_GetSequence`, `asn1_const_Finish`, `ASN1_get_object`, `ASN1_put_object`, `ASN1_object_size`, `i2d_ASN1_SET`, `d2i_ASN1_SET`: their source is not part of this repository; they follow X.690, and `d2i_ASN1_SET` appends to a list passed in for reuse.
- `ASN1_const_check_infinite_end` also answers true when nothing is left in some library releases; here it answers true on two zero octets only (X.690, section 8.1.5).
- The len and put macros with IS_SET: the library sorts the encoded elements, and its code is not here; lists are written in their order, as with IS_SEQUENCE.
- A length macro for the INF frames: the header has none, so an indefinite frame is counted as its four extra octets.
- An EXPLICIT field whose item is a list stands for the EXP_SEQUENCE_opt and EXP_set_opt macros, which treat an empty list as absent; a program that wraps a list by the plain EXP_opt macros is not modelled.
- The `_type` variants, get_x and get_set_strings: the same text with other types.
- get_int, get_int_opt: they differ from get and get_opt in the test for failure only.
- Tag numbers of 31 or more, which do not fit in one identifier octet.
- Error codes, `c.line`, `asn1_add_error`, `ASN1_MAC_H_err`, `c.tag`, `c.xclass` and `c.error`: bookkeeping for messages.
- M_ASN1_New and M_ASN1_New_Malloc: constructors appear as an allocation that may be refused.
- bn_wexpand, bn_check_size, bn_wcheck_size, bn_fix_top: each is one comparison or another name for a macro modelled here.
- bn_expand2, memory and the random octet of bn_pollute: the octet is a parameter, the allocation is the word count asked for.
- Everything declared but not defined in bn.h, asn1.h and the other headers, the event2 headers, and the two main.cpp clients, whose engine is not among the files.
