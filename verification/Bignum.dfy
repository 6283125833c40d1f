/**
  The word-array representation of BIGNUM and the macros over it.  A word is a digit in base
  2^BN_BITS2; the base is a parameter.
 */
module Bignum {
  import Octets

  // ----- Magnitudes -----

  /** The number whose words, least significant first, are ds. */
  function Magnitude(ds: seq<nat>, base: nat): nat {
    if ds == [] then 0 else ds[0] + base * Magnitude(ds[1..], base)
  }

  predicate Words(ds: seq<nat>, base: nat) {
    2 <= base && forall i :: 0 <= i < |ds| ==> ds[i] < base
  }

  /** The test of bn_check_top: no leading zero word. */
  predicate NoLeadingZero(ds: seq<nat>) {
    ds == [] || ds[|ds| - 1] != 0
  }

  /** ds without its leading zero words. */
  function Strip(ds: seq<nat>): (r: seq<nat>)
    ensures r <= ds && NoLeadingZero(r)
  {
    if ds != [] && ds[|ds| - 1] == 0 then Strip(ds[..|ds| - 1]) else ds
  }

  lemma {:induction false} LeadingZeroIgnored(ds: seq<nat>, base: nat)
    ensures Magnitude(ds + [0], base) == Magnitude(ds, base)
  {
    if ds != [] {
      LeadingZeroIgnored(ds[1..], base);
      assert (ds + [0])[1..] == ds[1..] + [0];
    }
  }

  lemma {:induction false} StripKeepsMagnitude(ds: seq<nat>, base: nat)
    ensures Magnitude(Strip(ds), base) == Magnitude(ds, base)
  {
    if ds != [] && ds[|ds| - 1] == 0 {
      var rest := ds[..|ds| - 1];
      StripKeepsMagnitude(rest, base);
      LeadingZeroIgnored(rest, base);
      assert rest + [0] == ds;
    }
  }

  lemma MulPositive(a: nat, b: nat)
    requires a >= 1 && b >= 1
    ensures a * b >= b
  {
  }

  lemma {:induction false} NonzeroMagnitude(ds: seq<nat>, base: nat)
    requires Words(ds, base) && NoLeadingZero(ds) && ds != []
    ensures Magnitude(ds, base) >= 1
    ensures |ds| >= 2 ==> Magnitude(ds, base) >= base
  {
    if |ds| >= 2 {
      NonzeroMagnitude(ds[1..], base);
      MulPositive(Magnitude(ds[1..], base), base);
    }
  }

  lemma LowWord(a: nat, x: nat, b: nat, y: nat, base: nat)
    requires a < base && b < base && a + base * x == b + base * y
    ensures a == b && x == y
  {
    assert base * (x - y) == b - a;
    if x > y {
      MulPositive(x - y, base);
    } else if x < y {
      MulPositive(y - x, base);
    }
  }

  /** Without leading zero words a magnitude has one representation. */
  lemma {:induction false} UniqueWords(xs: seq<nat>, ys: seq<nat>, base: nat)
    requires Words(xs, base) && Words(ys, base) && NoLeadingZero(xs) && NoLeadingZero(ys)
    requires Magnitude(xs, base) == Magnitude(ys, base)
    ensures xs == ys
  {
    if xs == [] || ys == [] {
      if xs != [] {
        NonzeroMagnitude(xs, base);
      }
      if ys != [] {
        NonzeroMagnitude(ys, base);
      }
    } else {
      LowWord(xs[0], Magnitude(xs[1..], base), ys[0], Magnitude(ys[1..], base), base);
      UniqueWords(xs[1..], ys[1..], base);
      assert xs == [xs[0]] + xs[1..] && ys == [ys[0]] + ys[1..];
    }
  }

  // ----- Signed values -----

  /** What top, d and neg stand for. */
  datatype Rep = Rep(words: seq<nat>, neg: bool)

  function Value(r: Rep, base: nat): int {
    if r.neg then 0 - Magnitude(r.words, base) else Magnitude(r.words, base)
  }

  /** bn_check_top, and no sign on zero. */
  predicate Canonical(r: Rep, base: nat) {
    Words(r.words, base) && NoLeadingZero(r.words) && (r.words == [] ==> !r.neg)
  }

  /** Canonical bignums are equal exactly when top, the words below it and neg are. */
  lemma CanonicalUnique(a: Rep, b: Rep, base: nat)
    requires Canonical(a, base) && Canonical(b, base)
    ensures Value(a, base) == Value(b, base) <==> a == b
  {
    if Value(a, base) == Value(b, base) {
      if a.words != [] {
        NonzeroMagnitude(a.words, base);
      }
      if b.words != [] {
        NonzeroMagnitude(b.words, base);
      }
      UniqueWords(a.words, b.words, base);
    }
  }

  // ----- BN_abs_is_word and the predicates over it -----

  predicate AbsIsWord(r: Rep, w: nat) {
    (|r.words| == 1 && r.words[0] == w) || (w == 0 && |r.words| == 0)
  }

  predicate IsZero(r: Rep) {
    |r.words| == 0
  }

  predicate IsOne(r: Rep) {
    AbsIsWord(r, 1) && !r.neg
  }

  predicate IsWord(r: Rep, w: nat) {
    AbsIsWord(r, w) && (w == 0 || !r.neg)
  }

  predicate IsOdd(r: Rep) {
    |r.words| > 0 && r.words[0] % 2 == 1
  }

  lemma OneWord(w: nat, base: nat)
    ensures Magnitude([w], base) == w
  {
    assert Magnitude([w][1..], base) == 0;
  }

  /** Some word from the k-th up is not zero. */
  predicate NonzeroFrom(ds: seq<nat>, k: nat) {
    exists i :: k <= i < |ds| && ds[i] != 0
  }

  lemma {:induction false} ZeroMagnitude(ds: seq<nat>, base: nat)
    requires Words(ds, base)
    ensures Magnitude(ds, base) == 0 <==> !NonzeroFrom(ds, 0)
  {
    if ds != [] {
      var rest := ds[1..];
      ZeroMagnitude(rest, base);
      if NonzeroFrom(rest, 0) {
        var i :| 0 <= i < |rest| && rest[i] != 0;
        assert ds[i + 1] != 0;
        MulPositive(Magnitude(rest, base), base);
      } else {
        assert forall i :: 1 <= i < |ds| ==> ds[i] == rest[i - 1];
      }
    }
  }

  /** A number fits in a word exactly when every word above the lowest is zero. */
  lemma FitsInWord(ds: seq<nat>, base: nat)
    requires Words(ds, base)
    ensures Magnitude(ds, base) < base <==> !NonzeroFrom(ds, 1)
    ensures ds != [] && !NonzeroFrom(ds, 1) ==> Magnitude(ds, base) == ds[0]
  {
    if ds != [] {
      var rest := ds[1..];
      ZeroMagnitude(rest, base);
      assert forall i :: 1 <= i < |ds| ==> ds[i] == rest[i - 1];
      if NonzeroFrom(rest, 0) {
        var i :| 0 <= i < |rest| && rest[i] != 0;
        assert ds[i + 1] != 0;
        MulPositive(Magnitude(rest, base), base);
      }
    }
  }

  /** BN_abs_is_word is right for every word exactly when top is at most one or some word above the
      lowest is not zero. */
  lemma AbsIsWordExact(r: Rep, base: nat)
    requires Words(r.words, base)
    ensures (forall w: nat :: w < base ==> (AbsIsWord(r, w) <==> Magnitude(r.words, base) == w))
       <==> |r.words| <= 1 || NonzeroFrom(r.words, 1)
  {
    hide Magnitude, NonzeroFrom;
    var m := Magnitude(r.words, base);
    FitsInWord(r.words, base);
    NoWords(base);
    if |r.words| == 1 {
      OneWord(r.words[0], base);
      assert r.words == [r.words[0]];
    } else if |r.words| >= 2 && m < base {
      assert !AbsIsWord(r, m);
    }
  }

  lemma NoWords(base: nat)
    ensures Magnitude([], base) == 0
  {
  }

  /** With zero words above it, a word is no longer recognised, not even by BN_is_word. */
  lemma LeadingZeroDeceives(w: nat, n: nat, neg: bool, base: nat)
    requires 2 <= base && w < base && 1 <= n
    ensures var r := Rep([w] + seq(n, _ => 0), neg);
            && Words(r.words, base) && Magnitude(r.words, base) == w
            && !AbsIsWord(r, w) && !IsWord(r, w) && (w == 0 ==> !IsZero(r)) && (w == 1 ==> !IsOne(r))
  {
    FitsInWord([w] + seq(n, _ => 0), base);
  }

  /** BN_is_zero is right exactly when top is zero or some word is not. */
  lemma IsZeroExact(r: Rep, base: nat)
    requires Words(r.words, base)
    ensures (IsZero(r) <==> Value(r, base) == 0) <==> |r.words| == 0 || NonzeroFrom(r.words, 0)
  {
    hide NonzeroFrom, Magnitude;
    ZeroMagnitude(r.words, base);
    NoWords(base);
  }

  /** BN_is_one is right exactly when the sign is set, or top is at most one, or the lowest word is not
      one, or some word above it is not zero. */
  lemma IsOneExact(r: Rep, base: nat)
    requires Words(r.words, base)
    ensures (IsOne(r) <==> Value(r, base) == 1)
       <==> r.neg || |r.words| <= 1 || r.words[0] != 1 || NonzeroFrom(r.words, 1)
  {
    hide Magnitude, NonzeroFrom;
    FitsInWord(r.words, base);
    NoWords(base);
    if |r.words| == 1 {
      OneWord(r.words[0], base);
      assert r.words == [r.words[0]];
    }
  }

  /** BN_is_word is right for every word exactly when top is at most one, or some word above the lowest
      is not zero, or the number is negative and not zero. */
  lemma IsWordExact(r: Rep, base: nat)
    requires Words(r.words, base)
    ensures (forall w: nat :: w < base ==> (IsWord(r, w) <==> Value(r, base) == w))
       <==> |r.words| <= 1 || NonzeroFrom(r.words, 1) || (r.neg && r.words[0] != 0)
  {
    hide Magnitude, NonzeroFrom;
    var m := Magnitude(r.words, base);
    FitsInWord(r.words, base);
    NoWords(base);
    if |r.words| == 1 {
      OneWord(r.words[0], base);
      assert r.words == [r.words[0]];
    } else if |r.words| >= 2 && m < base && (!r.neg || r.words[0] == 0) {
      assert !IsWord(r, m) && Value(r, base) == m;
    }
  }

  /** With no leading zero words the predicates are those on integers, for numbers of any length. */
  lemma PredicatesExact(r: Rep, base: nat, w: nat)
    requires Words(r.words, base) && NoLeadingZero(r.words) && w < base && base % 2 == 0
    ensures IsZero(r) <==> Value(r, base) == 0
    ensures IsOne(r) <==> Value(r, base) == 1
    ensures IsWord(r, w) <==> Value(r, base) == w
    ensures IsOdd(r) <==> Value(r, base) % 2 == 1
  {
    WordPredicatesExact(r, base, w);
    OddExact(r, base);
  }

  lemma WordPredicatesExact(r: Rep, base: nat, w: nat)
    requires Words(r.words, base) && NoLeadingZero(r.words) && w < base
    ensures IsZero(r) <==> Value(r, base) == 0
    ensures IsOne(r) <==> Value(r, base) == 1
    ensures IsWord(r, w) <==> Value(r, base) == w
  {
    hide Magnitude;
    var m := Magnitude(r.words, base);
    NoWords(base);
    if r.words != [] {
      NonzeroMagnitude(r.words, base);
    }
    AbsIsWordExact(r, base);
    assert |r.words| >= 2 ==> NonzeroFrom(r.words, 1);
    assert AbsIsWord(r, w) <==> m == w;
    assert AbsIsWord(r, 1) <==> m == 1;
  }

  lemma OddExact(r: Rep, base: nat)
    requires base % 2 == 0
    ensures IsOdd(r) <==> Value(r, base) % 2 == 1
  {
    if r.words != [] {
      hide Magnitude;
      LowBit(r.words, base);
    }
  }

  lemma LowBit(ds: seq<nat>, base: nat)
    requires ds != [] && base % 2 == 0
    ensures Magnitude(ds, base) % 2 == ds[0] % 2
  {
    var rest := Magnitude(ds[1..], base);
    assert base * rest == 2 * ((base / 2) * rest);
  }

  // ----- struct bignum_st -----

  class BigNum {
    const base: nat
    var d: array<nat>
    var top: int
    var neg: bool

    ghost predicate Valid()
      reads this, d
    {
      0 <= top <= d.Length && Words(d[..], base)
    }

    ghost function View(): (r: Rep)
      requires Valid()
      reads this, d
    {
      Rep(d[..top], neg)
    }

    constructor (words: array<nat>, used: nat, negative: bool, b: nat)
      requires used <= words.Length && Words(words[..], b)
      ensures Valid() && d == words && View() == Rep(words[..used], negative) && base == b
    {
      d, top, neg, base := words, used, negative, b;
    }

    /** bn_correct_top without its debugging bn_pollute: no word is written, the leading zero words
        go, the magnitude stays, and the sign stays unless there is nothing left to bear it. */
    method CorrectTop()
      requires Valid()
      modifies this`top, this`neg
      ensures Valid() && Canonical(View(), base)
      ensures View().words == Strip(old(View().words))
      ensures neg == (old(neg) && top != 0)
      ensures Value(View(), base) == Value(old(View()), base)
      ensures old(Canonical(View(), base)) ==> View() == old(View())
    {
      ghost var before := d[..top];
      var tmp_top := top;
      if tmp_top > 0 {
        var ftl := tmp_top - 1;
        while tmp_top > 0
          invariant 0 <= tmp_top <= top && ftl == tmp_top - 1
          invariant Strip(d[..tmp_top]) == Strip(before)
          decreases tmp_top
        {
          var word := d[ftl];
          ftl := ftl - 1;
          if word != 0 {
            break;
          }
          assert d[..tmp_top][..tmp_top - 1] == d[..tmp_top - 1];
          tmp_top := tmp_top - 1;
        }
        top := tmp_top;
      }
      if top == 0 {
        neg := false;
      }
      StripKeepsMagnitude(before, base);
      assert Words(d[..top], base);
    }

    /** bn_pollute: the words above top are overwritten; what the bignum stands for is not. */
    method Pollute(junk: nat)
      requires Valid() && junk < base
      modifies d
      ensures Valid() && View() == old(View())
      ensures forall i :: top <= i < d.Length ==> d[i] == junk
    {
      if top < d.Length {
        for i := top to d.Length
          invariant d[..top] == old(d[..top])
          invariant forall j :: top <= j < i ==> d[j] == junk
          invariant Words(d[..], base)
        {
          d[i] := junk;
        }
      }
    }
  }

  // ----- bn_expand -----

  datatype Expanded = Null | Same | Grown(words: int)

  /** C's division. */
  function Quotient(a: int, b: int): int
    requires b > 0
  {
    if a >= 0 then a / b else -(-a / b)
  }

  /** bn_expand(a, bits), where bn_expand2 is asked for `words`. */
  function Expand(bits: int, dmax: int, bnBits2: int): Expanded
    requires bnBits2 > 0
  {
    if bits > Octets.INT_MAX - bnBits2 + 1 then Null
    else if Quotient(bits + bnBits2 - 1, bnBits2) <= dmax then Same
    else Grown(Quotient(bits + bnBits2 - 1, bnBits2))
  }

  function Capacity(e: Expanded, dmax: int): int
    requires !e.Null?
  {
    if e.Same? then dmax else e.words
  }

  function Pow2(n: nat): nat {
    if n == 0 then 1 else 2 * Pow2(n - 1)
  }

  lemma Associate(a: nat, b: nat, c: nat)
    ensures (a * b) * c == a * (b * c)
  {
  }

  lemma {:induction false} Pow2Add(m: nat, n: nat)
    ensures Pow2(m + n) == Pow2(m) * Pow2(n)
  {
    if m != 0 {
      Pow2Add(m - 1, n);
      assert Pow2(m + n) == 2 * Pow2(m - 1 + n);
      Associate(2, Pow2(m - 1), Pow2(n));
    }
  }

  lemma {:induction false} Pow2Monotone(m: nat, n: nat)
    requires m <= n
    ensures 1 <= Pow2(m) <= Pow2(n)
    decreases n
  {
    if m < n {
      Pow2Monotone(m, n - 1);
    } else if n != 0 {
      Pow2Monotone(n - 1, n - 1);
    }
  }

  /** The canonical words of n. */
  function ToWords(n: nat, base: nat): seq<nat>
    requires 2 <= base
  {
    if n == 0 then [] else DivSmaller(n, base); [n % base] + ToWords(n / base, base)
  }

  lemma DivSmaller(n: nat, base: nat)
    requires n > 0 && base >= 2
    ensures n / base < n
  {
    assert n == base * (n / base) + n % base;
    if n / base >= n {
      MulAtLeast(base, 2, n / base);
    }
  }

  lemma MulAtLeast(a: nat, k: nat, b: nat)
    requires a >= k
    ensures a * b >= k * b
  {
  }

  lemma DivMod(n: nat, base: nat)
    requires base >= 1
    ensures n == n % base + base * (n / base) && n % base < base
    ensures n / base == 0 ==> n == n % base
  {
  }

  lemma {:induction false} ToWordsCanonical(n: nat, base: nat)
    requires 2 <= base
    ensures Magnitude(ToWords(n, base), base) == n
    ensures Words(ToWords(n, base), base) && NoLeadingZero(ToWords(n, base))
  {
    if n != 0 {
      DivSmaller(n, base);
      DivMod(n, base);
      var low, high := n % base, n / base;
      ToWordsCanonical(high, base);
      PushLow(low, ToWords(high, base), base);
    }
  }

  lemma PushLow(low: nat, rest: seq<nat>, base: nat)
    requires low < base && Words(rest, base) && NoLeadingZero(rest) && (rest == [] ==> low != 0)
    ensures Words([low] + rest, base) && NoLeadingZero([low] + rest)
    ensures Magnitude([low] + rest, base) == low + base * Magnitude(rest, base)
  {
    assert ([low] + rest)[1..] == rest;
  }

  lemma {:induction false} Pow2Step(k: nat, words: nat)
    requires words >= 1
    ensures Pow2(k * words) == Pow2(k) * Pow2(k * (words - 1))
  {
    hide Pow2;
    var more := k * (words - 1);
    Distribute(k, words);
    Pow2Add(k, more);
  }

  lemma Distribute(k: nat, words: nat)
    requires words >= 1
    ensures k * words == k + k * (words - 1)
  {
  }

  lemma BaseAtLeastTwo(bnBits2: nat)
    requires bnBits2 >= 1
    ensures Pow2(bnBits2) >= 2
  {
    Pow2Monotone(1, bnBits2);
    assert Pow2(1) == 2;
  }

  lemma {:induction false} ToWordsFit(n: nat, bnBits2: nat, words: nat)
    requires bnBits2 >= 1 && Pow2(bnBits2) >= 2 && n < Pow2(bnBits2 * words)
    ensures |ToWords(n, Pow2(bnBits2))| <= words
    decreases words
  {
    if words == 0 {
      assert bnBits2 * words == 0;
    } else if n != 0 {
      Pow2Step(bnBits2, words);
      hide Pow2;
      var base := Pow2(bnBits2);
      DivBound(n, base, Pow2(bnBits2 * (words - 1)));
      DivSmaller(n, base);
      ToWordsFit(n / base, bnBits2, words - 1);
      assert ToWords(n, base) == [n % base] + ToWords(n / base, base);
    }
  }

  lemma DivBound(n: nat, base: nat, k: nat)
    requires base >= 1 && n < base * k
    ensures n / base < k
  {
    var q := n / base;
    assert n == base * q + n % base;
    LessFactor(base, q, k);
  }

  lemma LessFactor(base: nat, q: nat, k: nat)
    requires base * q < base * k
    ensures q < k
  {
  }

  /** The guard refuses exactly the bit counts whose rounding up would overflow an int.  Past it, no
      bits or fewer are always there already; otherwise the word count is the least that covers the
      bits, it is asked for exactly when there is not that much room, and every number below 2^bits
      then has a canonical form that fits, whatever it is. */
  lemma ExpandCovers(bits: int, dmax: nat, bnBits2: nat, n: nat)
    requires bnBits2 >= 1
    ensures Expand(bits, dmax, bnBits2).Null? <==> bits + bnBits2 - 1 > Octets.INT_MAX
    ensures bits <= 0 && !Expand(bits, dmax, bnBits2).Null? ==> Expand(bits, dmax, bnBits2) == Same
    ensures 0 <= bits && !Expand(bits, dmax, bnBits2).Null? && n < Pow2(bits) ==>
              var e := Expand(bits, dmax, bnBits2);
              var words := (bits + bnBits2 - 1) / bnBits2;
              && bits <= bnBits2 * words && (words >= 1 ==> bnBits2 * (words - 1) < bits)
              && (e == Same <==> words <= dmax) && (e != Same ==> e == Grown(words))
              && words <= Capacity(e, dmax) && dmax <= Capacity(e, dmax)
              && 2 <= Pow2(bnBits2)
              && var base := Pow2(bnBits2);
                 var r := Rep(ToWords(n, base), false);
                 Canonical(r, base) && Value(r, base) == n && |r.words| <= words
  {
    NoBits(bits, bnBits2);
    if 0 <= bits && !Expand(bits, dmax, bnBits2).Null? && n < Pow2(bits) {
      var words := (bits + bnBits2 - 1) / bnBits2;
      CeilingLeast(bits, bnBits2, words);
      BaseAtLeastTwo(bnBits2);
      Pow2Monotone(bits, bnBits2 * words);
      ToWordsFit(n, bnBits2, words);
      ToWordsCanonical(n, Pow2(bnBits2));
    }
  }

  lemma NoBits(bits: int, k: nat)
    requires k >= 1
    ensures bits <= 0 ==> Quotient(bits + k - 1, k) <= 0
  {
    if bits <= 0 && 0 <= bits + k - 1 {
      DivBound(bits + k - 1, k, 1);
    }
  }

  lemma CeilingLeast(bits: nat, k: nat, words: nat)
    requires k >= 1 && words == (bits + k - 1) / k
    ensures bits <= k * words
    ensures words >= 1 ==> k * (words - 1) < bits
  {
    assert bits + k - 1 == k * words + (bits + k - 1) % k;
    assert k * (words - 1) == k * words - k;
  }
}
