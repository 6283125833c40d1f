/**
  Octets of the Basic Encoding Rules (ITU-T X.690): identifier octets (section 8.1.2), length
  octets (sections 8.1.3 and 10.1) and end-of-contents octets (section 8.1.5), for tag numbers
  below 31.  The bit masks of the header files act on disjoint bit fields of one octet, so they
  are written here as arithmetic.
 */
module Octets {

  datatype Option<+T> = None | Some(value: T)

  type byte = x: int | 0 <= x < 256

  const INT_MAX := 0x7fff_ffff

  const CONSTRUCTED: byte := 0x20
  const CONTEXT_SPECIFIC: byte := 0x80
  const V_ASN1_SEQUENCE: TagNumber := 16

  /** `b & V_ASN1_CONSTRUCTED` */
  function ConstructedBit(b: byte): byte {
    if (b / 32) % 2 == 1 then CONSTRUCTED else 0
  }

  /** `b & ~V_ASN1_CONSTRUCTED`: the class and the tag number */
  function Tag(b: byte): byte {
    b - ConstructedBit(b)
  }

  /** A tag number that fits in an identifier octet. */
  type TagNumber = x: int | 0 <= x < 31

  /** A class and a tag number: an identifier octet with the constructed bit clear. */
  type Ident = b: byte | (b / 32) % 2 == 0 && b % 32 < 31

  lemma SplitIdentifier(t: Ident, b: byte)
    ensures t + ConstructedBit(b) < 256
    ensures Tag(t + ConstructedBit(b)) == t
    ensures ConstructedBit(t + ConstructedBit(b)) == ConstructedBit(b)
  {
  }

  /** The arithmetic above is the header files' masking of an `unsigned char`. */
  lemma MasksAgree(b: bv8)
    ensures (b & 0x20) as int == ConstructedBit(b as int)
    ensures (b & 0xdf) as int == Tag(b as int)
    ensures (b & 0x1f) as int == b as int % 32
  {
    assert b as int == (b >> 6) as int * 64 + ((b >> 5) & 1) as int * 32 + (b & 0x1f) as int;
    assert (b & 0xdf) as int == (b >> 6) as int * 64 + (b & 0x1f) as int;
    assert (b & 0x20) as int == ((b >> 5) & 1) as int * 32;
  }

  /** `V_ASN1_CONTEXT_SPECIFIC|t|(*q&V_ASN1_CONSTRUCTED)` and `(_tmp&V_ASN1_CONSTRUCTED)|type` */
  lemma RetaggingAgrees(t: bv8, b: bv8)
    requires t < 31
    ensures (0x80 | t | (b & 0x20)) as int == CONTEXT_SPECIFIC + t as int + ConstructedBit(b as int)
    ensures ((b & 0x20) | t) as int == ConstructedBit(b as int) + t as int
  {
    MasksAgree(b);
  }

  // ----- Length octets -----

  /** The value of a big-endian octet string. */
  function BigEndian(s: seq<byte>): nat {
    if s == [] then 0 else 256 * BigEndian(s[..|s| - 1]) + s[|s| - 1]
  }

  lemma OneDigit(x: byte)
    ensures BigEndian([x]) == x
  {
    assert [x][..0] == [];
  }

  /** The value is positional, whatever the octets, leading zeros included. */
  lemma {:induction false} BigEndianAppend(s: seq<byte>, t: seq<byte>)
    ensures BigEndian(s + t) == BigEndian(s) * Pow256(|t|) + BigEndian(t)
    decreases |t|
  {
    if t == [] {
      assert s + t == s;
    } else {
      var front, last := t[..|t| - 1], t[|t| - 1];
      BigEndianAppend(s, front);
      assert (s + t)[..|s + t| - 1] == s + front;
      ShiftByOne(BigEndian(s), Pow256(|front|), BigEndian(front), last);
    }
  }

  lemma ShiftByOne(a: nat, p: nat, b: nat, x: nat)
    ensures 256 * (a * p + b) + x == a * (256 * p) + (256 * b + x)
  {
  }

  /** The fewest octets whose big-endian value is n. */
  function Digits(n: nat): seq<byte> {
    if n == 0 then [] else Digits(n / 256) + [n % 256]
  }

  lemma {:induction false} DigitsValue(n: nat)
    ensures BigEndian(Digits(n)) == n
  {
    if n != 0 {
      DigitsValue(n / 256);
      assert Digits(n)[..|Digits(n)| - 1] == Digits(n / 256);
    }
  }

  /** The octets of section 10.1: one octet below 128, else a count followed by the fewest digits. */
  function LengthOctets(n: nat): seq<byte> {
    if n < 128 then [n] else [(128 + |Digits(n)|) % 256] + Digits(n)
  }

  function Pow256(k: nat): nat {
    if k == 0 then 1 else 256 * Pow256(k - 1)
  }

  lemma {:induction false} DigitsFit(n: nat, k: nat)
    requires n < Pow256(k)
    ensures |Digits(n)| <= k
  {
    if n != 0 {
      DigitsFit(n / 256, k - 1);
    }
  }

  lemma {:induction false} BigEndianBound(s: seq<byte>)
    ensures BigEndian(s) < Pow256(|s|)
    decreases |s|
  {
    if s != [] {
      BigEndianBound(s[..|s| - 1]);
    }
  }

  /** Octets with the value n are its digits if there are no more of them. */
  lemma {:induction false} DigitsUnique(s: seq<byte>)
    requires |s| == |Digits(BigEndian(s))|
    ensures s == Digits(BigEndian(s))
    decreases |s|
  {
    if s != [] {
      var front, last := s[..|s| - 1], s[|s| - 1];
      assert BigEndian(s) / 256 == BigEndian(front) && BigEndian(s) % 256 == last;
      DigitsUnique(front);
      assert s == front + [last];
    }
  }

  lemma {:induction false} ZerosIgnored(k: nat, t: seq<byte>)
    ensures BigEndian(seq(k, _ => 0) + t) == BigEndian(t)
  {
    if k == 0 {
      assert seq(0, _ => 0) + t == t;
    } else {
      var zeros: seq<byte> := seq(k - 1, _ => 0);
      ZerosIgnored(k - 1, [0] + t);
      assert seq(k, _ => 0) + t == zeros + ([0] + t);
      OneDigit(0);
      BigEndianAppend([0], t);
    }
  }

  datatype Length = Length(indefinite: bool, value: nat, size: nat)

  function ParseLength(b: seq<byte>): (r: Option<Length>)
    ensures r.Some? ==> 1 <= r.value.size <= |b|
  {
    if |b| == 0 then None
    else if b[0] < 128 then Some(Length(false, b[0], 1))
    else if b[0] == 128 then Some(Length(true, 0, 1))
    else
      var k := b[0] - 128;
      if b[0] == 255 || |b| < 1 + k then None
      else Some(Length(false, BigEndian(b[1..1 + k]), 1 + k))
  }

  /** Sections 8.1.3.3 to 8.1.3.6: ls are length octets for n, or the one octet of the indefinite form.
      After a first octet with bit 8 set come as many octets as it says, at most 126 of them. */
  predicate LengthForm(ls: seq<byte>, indefinite: bool, n: nat) {
    if indefinite then ls == [0x80] && n == 0
    else
      || (|ls| == 1 && ls[0] == n && n < 128)
      || (2 <= |ls| <= 127 && ls[0] == 127 + |ls| && n == BigEndian(ls[1..]))
  }

  /** On any octets: a length is read exactly if they start with a form of it. */
  lemma ParseLengthExact(b: seq<byte>, l: Length)
    ensures ParseLength(b) == Some(l) <==> l.size <= |b| && LengthForm(b[..l.size], l.indefinite, l.value)
  {
    hide BigEndian;
    if 1 <= l.size <= |b| {
      assert b[..l.size][0] == b[0] && b[..l.size][1..] == b[1..l.size];
    }
  }

  lemma SecondOfThree(x: seq<byte>, y: seq<byte>, z: seq<byte>)
    ensures (x + y + z)[|x|..|x| + |y|] == y
  {
  }

  lemma ParseLongForm(d: seq<byte>, tail: seq<byte>)
    requires 1 <= |d| <= 126
    ensures ParseLength([128 + |d|] + d + tail) == Some(Length(false, BigEndian(d), 1 + |d|))
  {
    hide BigEndian;
    var b := [128 + |d|] + d + tail;
    assert b[0] == 128 + |d| && |b| == 1 + |d| + |tail|;
    SecondOfThree([128 + |d|], d, tail);
  }

  lemma LengthRoundTrip(n: nat, tail: seq<byte>)
    requires n <= INT_MAX
    ensures ParseLength(LengthOctets(n) + tail) == Some(Length(false, n, |LengthOctets(n)|))
  {
    if n < 128 {
      hide BigEndian, Digits;
      assert ([n] + tail)[0] == n;
    } else {
      hide ParseLength, BigEndian, Digits;
      DigitsOfInt(n);
      ParseLongForm(Digits(n), tail);
    }
  }

  /** Leading zero octets, which any sender may write, change nothing. */
  lemma PaddedLength(n: nat, k: nat, tail: seq<byte>)
    requires 1 <= k + |Digits(n)| <= 126
    ensures var s: seq<byte> := seq(k, _ => 0) + Digits(n);
            ParseLength([128 + |s|] + s + tail) == Some(Length(false, n, 1 + |s|))
  {
    hide ParseLength, Digits, BigEndian;
    var s: seq<byte> := seq(k, _ => 0) + Digits(n);
    ZerosIgnored(k, Digits(n));
    DigitsValue(n);
    ParseLongForm(s, tail);
  }

  /** The length octets written are the shortest that are read as that length, and the only ones of
      that size (section 10.1). */
  lemma LengthMinimal(ls: seq<byte>, n: nat, tail: seq<byte>)
    requires ParseLength(ls + tail) == Some(Length(false, n, |ls|))
    ensures |LengthOctets(n)| <= |ls|
    ensures |LengthOctets(n)| == |ls| ==> LengthOctets(n) == ls
  {
    hide ParseLength, Digits, BigEndian;
    ParseLengthExact(ls + tail, Length(false, n, |ls|));
    assert (ls + tail)[..|ls|] == ls;
    if 2 <= |ls| {
      var s := ls[1..];
      BigEndianBound(s);
      DigitsFit(n, |s|);
      assert ls == [128 + |s|] + s;
      if |Digits(n)| == |s| {
        DigitsUnique(s);
      }
    }
  }

  lemma DigitsOfInt(n: nat)
    requires 128 <= n <= INT_MAX
    ensures 1 <= |Digits(n)| <= 4 && BigEndian(Digits(n)) == n
  {
    assert Pow256(4) == 256 * 256 * 256 * 256;
    DigitsFit(n, 4);
    DigitsValue(n);
  }

  // ----- Headers -----

  /** What ASN1_get_object reports; `inf` is 0x20 when constructed, plus 1 when indefinite. */
  datatype Header = Header(size: nat, inf: int, length: nat, tag: byte)

  const INDEFINITE: int := CONSTRUCTED + 1

  /** ASN1_get_object over the `omax` octets in b; None is the result with bit 0x80 set: a
      truncated header, a high tag number, an indefinite primitive, or contents that do not fit. */
  function GetObject(b: seq<byte>): (r: Option<Header>)
    ensures r.Some? ==> 2 <= r.value.size && r.value.size + r.value.length <= |b|
    ensures r.Some? ==> r.value.inf in {0, CONSTRUCTED, INDEFINITE} && r.value.tag == Tag(b[0])
  {
    if |b| == 0 || b[0] % 32 == 31 then None
    else match ParseLength(b[1..])
      case None => None
      case Some(len) =>
        var cons := ConstructedBit(b[0]);
        if len.indefinite && cons == 0 then None
        else if 1 + len.size + len.value > |b| then None
        else Some(Header(1 + len.size, cons + if len.indefinite then 1 else 0, len.value, Tag(b[0])))
  }

  /** On any octets: the header reported is exactly what stands there.  A tag number of 31 or more, the
      indefinite form on a primitive, and contents that are not all there, are refused. */
  lemma GetObjectExact(b: seq<byte>, h: Header)
    ensures GetObject(b) == Some(h) <==>
              && 2 <= h.size && h.size + h.length <= |b|
              && b[0] % 32 != 31 && h.tag == Tag(b[0])
              && h.inf == ConstructedBit(b[0]) + (if h.inf == INDEFINITE then 1 else 0)
              && LengthForm(b[1..h.size], h.inf == INDEFINITE, h.length)
  {
    hide ParseLength, LengthForm;
    if b != [] {
      if 1 <= h.size <= |b| {
        ParseLengthExact(b[1..], Length(h.inf == INDEFINITE, h.length, h.size - 1));
        assert b[1..][..h.size - 1] == b[1..h.size];
      }
    }
  }

  /** ASN1_put_object(&p, 1, length, ...): the tag carries the class bits. */
  function ConstructedHeader(tag: Ident, length: nat): seq<byte>
  {
    [tag + CONSTRUCTED] + LengthOctets(length)
  }

  /** What M_ASN1_I2D_INF_seq_start writes. */
  function IndefiniteHeader(tag: Ident): seq<byte>
  {
    [tag + CONSTRUCTED, 0x80]
  }

  /** What M_ASN1_I2D_INF_seq_end writes. */
  const END_OF_CONTENTS: seq<byte> := [0, 0]

  predicate AtEndOfContents(b: seq<byte>) {
    2 <= |b| && b[0] == 0 && b[1] == 0
  }

  lemma DefiniteHeaderRead(tag: Ident, length: nat, rest: seq<byte>)
    requires length <= INT_MAX && length <= |rest|
    ensures var h := ConstructedHeader(tag, length);
            GetObject(h + rest) == Some(Header(|h|, CONSTRUCTED, length, tag))
  {
    hide LengthOctets, ParseLength;
    var b := ConstructedHeader(tag, length) + rest;
    LengthRoundTrip(length, rest);
    assert b[1..] == LengthOctets(length) + rest;
  }

  /** No other header that is read as that tag and that length is as short as the one written. */
  lemma HeaderMinimal(hs: seq<byte>, tag: Ident, length: nat, rest: seq<byte>)
    requires GetObject(hs + rest) == Some(Header(|hs|, CONSTRUCTED, length, tag))
    ensures |ConstructedHeader(tag, length)| <= |hs|
    ensures |ConstructedHeader(tag, length)| == |hs| ==> ConstructedHeader(tag, length) == hs
  {
    hide GetObject, ParseLength, LengthOctets, LengthForm;
    var h := Header(|hs|, CONSTRUCTED, length, tag);
    GetObjectExact(hs + rest, h);
    var ls := hs[1..];
    assert (hs + rest)[1..|hs|] == ls;
    ParseLengthExact(ls, Length(false, length, |ls|));
    assert ls[..|ls|] == ls && ls + [] == ls;
    LengthMinimal(ls, length, []);
    assert hs == [hs[0]] + ls;
  }

  /** A header with leading zero octets in its length is read like the one without. */
  lemma PaddedHeaderRead(tag: Ident, length: nat, k: nat, rest: seq<byte>)
    requires 1 <= k + |Digits(length)| <= 126 && length <= |rest|
    ensures var s: seq<byte> := seq(k, _ => 0) + Digits(length);
            GetObject([tag + CONSTRUCTED, 128 + |s|] + s + rest)
            == Some(Header(2 + |s|, CONSTRUCTED, length, tag))
  {
    hide ParseLength, Digits;
    var s: seq<byte> := seq(k, _ => 0) + Digits(length);
    var b := [tag + CONSTRUCTED, 128 + |s|] + s + rest;
    PaddedLength(length, k, rest);
    assert b[1..] == [128 + |s|] + s + rest;
  }

  lemma IndefiniteHeaderRead(tag: Ident, rest: seq<byte>)
    ensures GetObject(IndefiniteHeader(tag) + rest) == Some(Header(2, INDEFINITE, 0, tag))
  {
    var b := IndefiniteHeader(tag) + rest;
    assert b[1..] == [0x80] + rest;
  }
}
