/** The digit box of IdCode, from expanded numbers to codes: an explicit decoder,
    and the exact options for which the box loses no number. */
module CodeUniqueness {
  import opened Arithmetic
  import opened IdCode

  // ------------------------------------------------------------------ decoder

  predicate InAlphabet(o: CodeOptions, s: string) {
    forall i | 0 <= i < |s| :: s[i] in o.chars
  }

  function IndexOf(cs: seq<char>, ch: char): (i: nat)
    requires ch in cs
    ensures i < |cs| && cs[i] == ch
  {
    if cs[0] == ch then 0 else 1 + IndexOf(cs[1..], ch)
  }

  /** The mixed digits of a code, put back in their original order. */
  function ReadSlots(o: CodeOptions, s: string): (es: seq<nat>)
    requires Runs(o) && |s| == o.l && InAlphabet(o, s)
    ensures |es| == o.l && AreDigits(es, |o.chars|)
  {
    seq(o.l, k requires 0 <= k < o.l =>
      var j := FindSlot(o.n2, o.l, k, 0);
      if j < o.l then IndexOf(o.chars, s[j]) else 0)
  }

  function Decode(o: CodeOptions, s: string): nat
    requires Runs(o) && |s| == o.l && InAlphabet(o, s)
  {
    Value(Unmix(ReadSlots(o, s), |o.chars|), |o.chars|)
  }

  lemma EncodedInAlphabet(o: CodeOptions, x: nat)
    requires Runs(o)
    ensures InAlphabet(o, Encode(o, x))
  {
  }

  lemma IndexOfDistinct(cs: seq<char>, i: nat)
    requires Distinct(cs) && i < |cs|
    ensures IndexOf(cs, cs[i]) == i
  {
    var j := IndexOf(cs, cs[i]);
  }

  lemma ReadSlotsOfEncode(o: CodeOptions, ds: seq<nat>)
    requires Runs(o) && BoxSound(o) && |ds| == o.l
    ensures InAlphabet(o, EncodeDigits(o, ds))
    ensures ReadSlots(o, EncodeDigits(o, ds)) == Mix(ds, |o.chars|)
  {
    var s, es := EncodeDigits(o, ds), Mix(ds, |o.chars|);
    forall k: nat | k < o.l ensures ReadSlots(o, s)[k] == es[k] {
      FindSlotFinds(o.n2, o.l, k);
      IndexOfDistinct(o.chars, es[k]);
    }
  }

  /** Decoding a code gives the number it was made from, modulo c^l. */
  lemma DecodeEncode(o: CodeOptions, x: nat)
    requires Runs(o) && BoxSound(o)
    ensures InAlphabet(o, Encode(o, x)) && Decode(o, Encode(o, x)) == x % Space(o)
  {
    var c := |o.chars|;
    var ds := Digits(x, c, o.l);
    ReadSlotsOfEncode(o, ds);
    UnmixOfMix(ds, c);
    ValueOfDigits(x, c, o.l);
  }

  /** Every string of l alphabet characters is the code of its decoding. */
  lemma EncodeDecode(o: CodeOptions, s: string)
    requires Runs(o) && BoxSound(o) && |s| == o.l && InAlphabet(o, s)
    ensures Decode(o, s) < Space(o) && Encode(o, Decode(o, s)) == s
  {
    var c := |o.chars|;
    var es := ReadSlots(o, s);
    var ds := Unmix(es, c);
    DigitsOfValue(ds, c);
    MixOfUnmix(es, c);
    forall i: nat | i < o.l ensures EncodeDigits(o, ds)[i] == s[i] {
      var k := Slot(o.n2, o.l, i);
      var j := FindSlot(o.n2, o.l, k, 0);
      FindSlotFinds(o.n2, o.l, k);
      SlotsInjective(o.n2, o.l, i, j);
    }
  }

  lemma SameEncoding(o: CodeOptions, x: nat, y: nat)
    requires Runs(o) && BoxSound(o)
    ensures Encode(o, x) == Encode(o, y) <==> x % Space(o) == y % Space(o)
  {
    DecodeEncode(o, x);
    DecodeEncode(o, y);
    DigitsAgree(x, y, |o.chars|, o.l);
  }

  // -------------------------------------- when the digit box loses no number

  /** Different numbers below n have different encodings. */
  ghost predicate EncodesApart(o: CodeOptions, n: nat)
    requires Runs(o)
  {
    forall x: nat, y: nat | x < n && y < n && Encode(o, x) == Encode(o, y) :: x == y
  }

  /** The box is injective where it can be. */
  ghost predicate BoxUnique(o: CodeOptions)
    requires Runs(o)
  {
    EncodesApart(o, Space(o))
  }

  lemma Collision(o: CodeOptions, ds: seq<nat>, es: seq<nat>)
    requires Runs(o) && |ds| == |es| == o.l && ds != es
    requires AreDigits(ds, |o.chars|) && AreDigits(es, |o.chars|)
    requires EncodeDigits(o, ds) == EncodeDigits(o, es)
    ensures !BoxUnique(o)
  {
    DigitsOfValue(ds, |o.chars|);
    DigitsOfValue(es, |o.chars|);
    var x, y := Value(ds, |o.chars|), Value(es, |o.chars|);
    assert Encode(o, x) == Encode(o, y) && x != y;
  }

  /** All digits zero, except that digit i is d. */
  function OneDigit(l: nat, i: nat, d: nat): (ds: seq<nat>)
    requires i < l
    ensures |ds| == l && ds[i] == d
    ensures forall j | 0 <= j < l && j != i :: ds[j] == 0
  {
    seq(l, j => if j == i then d else 0)
  }

  /** A digit beside a zero digit 0 is left alone by the mixing. */
  lemma MixOneDigit(l: nat, i: nat, d: nat, c: nat)
    requires i < l && d < c <= 255 && (i > 0 || l == 1)
    ensures Byte(c) == c && Mix(OneDigit(l, i, d), c) == OneDigit(l, i, d)
  {
    var ds := OneDigit(l, i, d);
    MixKeepsFirst(ds, c);
    forall j: nat | 0 < j < l ensures Mix(ds, c)[j] == ds[j] {
      Unshifted(ds[j], j, c);
    }
  }

  lemma Unshifted(d: nat, j: nat, c: nat)
    requires d < c <= 255
    ensures Byte(c) == c && MixDigit(d, 0, j, c) == d
  {
    MixSmallDigit(d, 0, j, c);
    assert Shift(j, 0) == 0;
    DivModUnique(d, c, 0, d);
  }

  /** A repeated alphabet character. */
  lemma RepeatedChar(o: CodeOptions)
    requires Runs(o) && |o.chars| <= 255 && !Distinct(o.chars)
    ensures !BoxUnique(o)
  {
    var c := |o.chars|;
    var u, v :| 0 <= u < v < c && o.chars[u] == o.chars[v];
    var i := if o.l == 1 then 0 else 1;
    var ds, es := OneDigit(o.l, i, u), OneDigit(o.l, i, v);
    MixOneDigit(o.l, i, u, c);
    MixOneDigit(o.l, i, v, c);
    Collision(o, ds, es);
  }

  /** A slot that no character reads. */
  lemma UnusedSlot(o: CodeOptions)
    requires Runs(o) && 2 <= |o.chars| <= 255 && !AllSlotsUsed(o.n2, o.l)
    ensures !BoxUnique(o)
  {
    var c := |o.chars|;
    var k: nat :| k < o.l && !SlotUsed(o.n2, o.l, k);
    SlotZeroUsed(o.n2, o.l);
    var ds, es := OneDigit(o.l, k, 0), OneDigit(o.l, k, 1);
    MixOneDigit(o.l, k, 0, c);
    MixOneDigit(o.l, k, 1, c);
    UnreadDigit(o, ds, es, k);
    Collision(o, ds, es);
  }

  lemma SlotZeroUsed(n2: int, l: nat)
    requires Byte(l) > 0
    ensures l > 0 && SlotUsed(n2, l, 0)
  {
    assert Byte(0) * Byte(n2) == 0;
    DivModUnique(0, Byte(l), 0, 0);
    assert Slot(n2, l, 0) == 0;
  }

  lemma UnreadDigit(o: CodeOptions, ds: seq<nat>, es: seq<nat>, k: nat)
    requires Runs(o) && |ds| == |es| == o.l && k < o.l && !SlotUsed(o.n2, o.l, k)
    requires forall j | 0 <= j < o.l && j != k :: Mix(ds, |o.chars|)[j] == Mix(es, |o.chars|)[j]
    ensures EncodeDigits(o, ds) == EncodeDigits(o, es)
  {
    forall i: nat | i < o.l ensures EncodeDigits(o, ds)[i] == EncodeDigits(o, es)[i] {
      assert Slot(o.n2, o.l, i) != k;
    }
  }

  /** An alphabet too large for a byte: digits 0 and 256 become the same byte. */
  lemma AlphabetTooLarge(o: CodeOptions)
    requires Runs(o) && |o.chars| > 255
    ensures !BoxUnique(o)
  {
    var c := |o.chars|;
    assert c != 256;
    var ds, es := OneDigit(o.l, 0, 0), OneDigit(o.l, 0, 256);
    assert Mix(ds, c) == Mix(es, c) by {
      assert MixFirst(ds, c) == MixFirst(es, c);
      forall j | 0 <= j < o.l ensures Mix(ds, c)[j] == Mix(es, c)[j] {
      }
    }
    Collision(o, ds, es);
  }

  /** Two digits that one wrapping shift makes equal. */
  lemma WrappedPair(k: nat, c: nat) returns (d: nat, e: nat)
    requires 0 < c <= 255 && 256 % c != 0 && k < 256 && k + c > 256
    ensures d < e < c && Byte(d + k) % c == Byte(e + k) % c
  {
    var r := 255 % c;
    assert 255 == (255 / c) * c + r;
    var u, v;
    if r <= 255 - k {
      u, v := 255 - r, 0;
      DivModUnique(u, c, 255 / c, 0);
    } else {
      if r == c - 1 {
        DivModUnique(256, c, 255 / c + 1, 0);
      }
      u, v := k, r - (255 - k);
      DivModUnique(u, c, 255 / c, v);
    }
    DivModUnique(v, c, 0, v);
    d, e := u - k, v + 256 - k;
  }

  /** A byte sum that wraps although c does not divide 256. */
  lemma UnsafeMixing(o: CodeOptions)
    requires Runs(o) && |o.chars| <= 255 && !MixSafe(|o.chars|, o.l)
    ensures !BoxUnique(o)
  {
    var c := |o.chars|;
    var i, f :| 0 <= i < o.l && 0 <= f < c && Shift(i, f) + c > 256;
    assert Shift(0, f) == 0;
    var d, e := WrappedPair(Shift(i, f), c);
    var ds, es := OneDigit(o.l, i, d)[0 := f], OneDigit(o.l, i, e)[0 := f];
    assert ds[i] != es[i];
    SameMixing(ds, es, i, c);
    Collision(o, ds, es);
  }

  lemma SameMixing(ds: seq<nat>, es: seq<nat>, i: nat, c: nat)
    requires 0 < c <= 255 && AreDigits(ds, c) && AreDigits(es, c)
    requires |ds| == |es| && 0 < i < |ds| && es == ds[i := es[i]]
    requires Byte(ds[i] + Shift(i, ds[0])) % c == Byte(es[i] + Shift(i, ds[0])) % c
    ensures Byte(c) == c && Mix(ds, c) == Mix(es, c)
  {
    MixKeepsFirst(ds, c);
    MixKeepsFirst(es, c);
    MixSmallDigit(ds[i], ds[0], i, c);
    MixSmallDigit(es[i], ds[0], i, c);
    assert forall j | 0 <= j < |ds| :: Mix(ds, c)[j] == Mix(es, c)[j];
  }

  lemma MixSmallDigit(d: nat, first: nat, i: nat, c: nat)
    requires d < c <= 255
    ensures Byte(c) == c && MixDigit(d, first, i, c) == Byte(d + Shift(i, first)) % c
  {
    assert Byte(d) == d && Byte(c) == c;
  }

  lemma {:induction false} PowOne(l: nat)
    ensures Pow(1, l) == 1
  {
    if l > 0 {
      PowOne(l - 1);
    }
  }

  /** The digit box is one-to-one on [0, c^l) exactly when the characters are
      distinct, no byte sum wraps harmfully and every slot is read out. */
  lemma BoxUniqueExact(o: CodeOptions)
    requires Runs(o)
    ensures BoxUnique(o) <==> |o.chars| == 1 || BoxSound(o)
  {
    if |o.chars| == 1 {
      PowOne(o.l);
    } else if |o.chars| > 255 {
      AlphabetTooLarge(o);
    } else if !Distinct(o.chars) {
      RepeatedChar(o);
    } else if !MixSafe(|o.chars|, o.l) {
      UnsafeMixing(o);
    } else if !AllSlotsUsed(o.n2, o.l) {
      UnusedSlot(o);
    } else {
      forall x: nat, y: nat | x < Space(o) && y < Space(o) && Encode(o, x) == Encode(o, y) ensures x == y {
        SameEncoding(o, x, y);
        SmallModEqual(x, y, Space(o));
      }
    }
  }

  // ------------------------------------------------------------------ settings

  lemma ShiftInRange(i: nat, d: nat, l: nat, c: nat)
    requires i < l <= 255 && d < c && (l - 1) * (c - 1) + c <= 256
    ensures Shift(i, d) + c <= 256
  {
    ProductInRange(d, c - 1, i);
    ProductInRange(i, l - 1, c - 1);
    assert i * d == d * i && i * (c - 1) == (c - 1) * i;
    ByteSmall(i);
    ByteSmall(i * d);
  }

  /** A checkable sufficient condition for the digit box: no byte overflows. */
  lemma BoxSoundInRange(o: CodeOptions)
    requires WellFormed(o) && |o.chars| <= 255 && o.l <= 255 && 0 <= o.n2 <= 255
    requires (o.l - 1) * (|o.chars| - 1) + |o.chars| <= 256 && (o.l - 1) * o.n2 <= 255
    requires Distinct(o.chars)
    ensures Runs(o) && (BoxSound(o) <==> Coprime(o.n2, o.l))
  {
    var c := |o.chars|;
    forall i, d | 0 <= i < o.l && 0 <= d < c ensures Shift(i, d) + c <= 256 {
      ShiftInRange(i, d, o.l, c);
    }
    SlotsExact(o.n2, o.l);
  }
}
