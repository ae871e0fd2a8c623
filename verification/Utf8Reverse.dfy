/** Reverse of util/strings/strings.go: a buffer filled from the back, one rune
    at a time, over UTF-8 as defined by section 3 of RFC 3629. */
module Utf8Reverse {
  import opened Arithmetic

  type byte = b: int | 0 <= b < 256

  /** A Unicode scalar value. */
  type rune = r: int | 0 <= r < 0xD800 || 0xE000 <= r <= 0x10FFFF

  /** U+FFFD, which stands for a byte that does not decode. */
  const REPLACEMENT: rune := 0xFFFD

  function EncodeRune(r: rune): (e: seq<byte>)
    ensures 1 <= |e| <= 4
  {
    if r < 0x80 then var b: byte := r; [b]
    else if r < 0x800 then [0xC0 + r / 64, 0x80 + r % 64]
    else if r < 0x10000 then [0xE0 + r / 4096, 0x80 + r / 64 % 64, 0x80 + r % 64]
    else
      var b0: byte := 0xF0 + r / 262144;
      [b0, 0x80 + r / 4096 % 64, 0x80 + r / 64 % 64, 0x80 + r % 64]
  }

  predicate IsTail(b: byte) { 0x80 <= b < 0xC0 }

  /** The second byte allowed after a first byte of a longer sequence: no overlong
      forms, no surrogates, nothing above U+10FFFF. */
  predicate SecondOk(b0: byte, b1: byte) {
    IsTail(b1)
    && (b0 == 0xE0 ==> b1 >= 0xA0) && (b0 == 0xED ==> b1 < 0xA0)
    && (b0 == 0xF0 ==> b1 >= 0x90) && (b0 == 0xF4 ==> b1 < 0x90)
  }

  /** The length of the well-formed sequence at the start of s, or 0. */
  function SequenceLen(s: seq<byte>): (n: nat)
    requires s != []
    ensures n <= 4 && n <= |s|
  {
    var b0 := s[0];
    if b0 < 0x80 then 1
    else if 0xC2 <= b0 < 0xE0 then (if |s| >= 2 && SecondOk(b0, s[1]) then 2 else 0)
    else if 0xE0 <= b0 < 0xF0 then (if |s| >= 3 && SecondOk(b0, s[1]) && IsTail(s[2]) then 3 else 0)
    else if 0xF0 <= b0 < 0xF5 then
      (if |s| >= 4 && SecondOk(b0, s[1]) && IsTail(s[2]) && IsTail(s[3]) then 4 else 0)
    else 0
  }

  /** utf8.DecodeRuneInString: the rune and its width; a bad byte is U+FFFD, width 1. */
  function DecodeRune(s: seq<byte>): (rn: (rune, nat))
    requires s != []
    ensures 1 <= rn.1 <= 4 && rn.1 <= |s|
  {
    var n := SequenceLen(s);
    if n == 1 then (s[0], 1)
    else if n == 2 then (Join2(s[0], s[1]), 2)
    else if n == 3 then (Join3(s[0], s[1], s[2]), 3)
    else if n == 4 then (Join4(s[0], s[1], s[2], s[3]), 4)
    else (REPLACEMENT, 1)
  }

  function Join2(b0: int, b1: int): int {
    (b0 - 0xC0) * 64 + (b1 - 0x80)
  }

  function Join3(b0: int, b1: int, b2: int): int {
    (b0 - 0xE0) * 4096 + (b1 - 0x80) * 64 + (b2 - 0x80)
  }

  function Join4(b0: int, b1: int, b2: int, b3: int): int {
    (b0 - 0xF0) * 262144 + (b1 - 0x80) * 4096 + (b2 - 0x80) * 64 + (b3 - 0x80)
  }

  /** A rune is decoded from its own encoding, whatever follows. */
  lemma DecodeEncoded(r: rune, rest: seq<byte>)
    ensures DecodeRune(EncodeRune(r) + rest) == (r, |EncodeRune(r)|)
    ensures SequenceLen(EncodeRune(r) + rest) == |EncodeRune(r)|
  {
    var e, s := EncodeRune(r), EncodeRune(r) + rest;
    assert forall i | 0 <= i < |e| :: s[i] == e[i];
    if r < 0x80 {
    } else if r < 0x800 {
      assert Join2(e[0], e[1]) == r;
    } else if r < 0x10000 {
      Parts3(r);
    } else {
      Parts4(r);
    }
  }

  lemma Parts3(r: int)
    requires 0x800 <= r < 0x10000 && (r < 0xD800 || r >= 0xE000)
    ensures var b0, b1, b2 := 0xE0 + r / 4096, 0x80 + r / 64 % 64, 0x80 + r % 64;
            0xE0 <= b0 < 0xF0 && SecondOk(b0, b1) && IsTail(b2) && Join3(b0, b1, b2) == r
  {
    assert r / 4096 == r / 64 / 64;
  }

  lemma Parts4(r: int)
    requires 0x10000 <= r <= 0x10FFFF
    ensures var b0, b1, b2, b3 := 0xF0 + r / 262144, 0x80 + r / 4096 % 64, 0x80 + r / 64 % 64, 0x80 + r % 64;
            0xF0 <= b0 < 0xF5 && SecondOk(b0, b1) && IsTail(b2) && IsTail(b3) && Join4(b0, b1, b2, b3) == r
  {
    assert r / 4096 == r / 64 / 64 && r / 262144 == r / 4096 / 64;
  }

  /** A well-formed sequence is the encoding of the rune decoded from it. */
  lemma EncodeDecoded(s: seq<byte>)
    requires s != []
    ensures var (r, w) := DecodeRune(s);
            if SequenceLen(s) > 0 then w == SequenceLen(s) && EncodeRune(r) == s[..w] else r == REPLACEMENT && w == 1
  {
    var n := SequenceLen(s);
    if n == 1 {
    } else if n == 2 {
      Split2(s[0], s[1]);
    } else if n == 3 {
      Split3(s[0], s[1], s[2]);
    } else if n == 4 {
      Split4(s[0], s[1], s[2], s[3]);
    }
  }

  lemma Split2(b0: byte, b1: byte)
    requires 0xC2 <= b0 < 0xE0 && IsTail(b1)
    ensures var r := Join2(b0, b1); 0x80 <= r < 0x800 && EncodeRune(r) == [b0, b1]
  {
  }

  lemma Split3(b0: byte, b1: byte, b2: byte)
    requires 0xE0 <= b0 < 0xF0 && SecondOk(b0, b1) && IsTail(b2)
    ensures var r := Join3(b0, b1, b2); 0x800 <= r < 0x10000 && (r < 0xD800 || r >= 0xE000) && EncodeRune(r) == [b0, b1, b2]
  {
    var r := Join3(b0, b1, b2);
    assert r / 64 == (b0 - 0xE0) * 64 + (b1 - 0x80);
    assert r / 4096 == b0 - 0xE0;
  }

  lemma Split4(b0: byte, b1: byte, b2: byte, b3: byte)
    requires 0xF0 <= b0 < 0xF5 && SecondOk(b0, b1) && IsTail(b2) && IsTail(b3)
    ensures var r := Join4(b0, b1, b2, b3); 0x10000 <= r <= 0x10FFFF && EncodeRune(r) == [b0, b1, b2, b3]
  {
    Split4Parts(b0 - 0xF0, b1 - 0x80, b2 - 0x80, b3 - 0x80);
  }

  lemma Split4Parts(a: nat, b: nat, c: nat, d: nat)
    requires b < 64 && c < 64 && d < 64
    ensures var r := a * 262144 + b * 4096 + c * 64 + d;
            r / 262144 == a && r / 4096 % 64 == b && r / 64 % 64 == c && r % 64 == d
  {
    var r := a * 262144 + b * 4096 + c * 64 + d;
    Quarters(r);
    DivModUnique(r, 64, a * 4096 + b * 64 + c, d);
    DivModUnique(r / 64, 64, a * 64 + b, c);
    DivModUnique(r / 4096, 64, a, b);
  }

  lemma Quarters(r: nat)
    ensures r / 4096 == r / 64 / 64 && r / 262144 == r / 4096 / 64
  {
  }

  function DecodeAll(s: seq<byte>): seq<rune> {
    if s == [] then [] else [DecodeRune(s).0] + DecodeAll(s[DecodeRune(s).1..])
  }

  function EncodeAll(rs: seq<rune>): seq<byte> {
    if rs == [] then [] else EncodeRune(rs[0]) + EncodeAll(rs[1..])
  }

  /** Every sequence of s is well formed. */
  predicate ValidUtf8(s: seq<byte>) {
    s == [] || (SequenceLen(s) > 0 && ValidUtf8(s[SequenceLen(s)..]))
  }

  function Reversed(rs: seq<rune>): (q: seq<rune>)
    ensures |q| == |rs|
  {
    if rs == [] then [] else Reversed(rs[1..]) + [rs[0]]
  }

  // ------------------------------------------------------------------- Reverse

  datatype Outcome = Text(bytes: seq<byte>) | OutOfRange

  /** The filled end of the buffer after the rest of s has been read: each rune's
      encoding is written in front of what is there, over whatever it needs beyond
      the width that was read; a write past the end of the buffer panics. */
  function Fill(s: seq<byte>, filled: seq<byte>): Outcome
    decreases |s|
  {
    if s == [] then Text(filled)
    else
      var (r, w) := DecodeRune(s);
      var e := EncodeRune(r);
      if |e| > w + |filled| then OutOfRange
      else Fill(s[w..], if |e| <= w then e + filled else e + filled[|e| - w..])
  }

  /** utf8.EncodeRune into the buffer at a position, if it fits: the encoding goes
      in front of what followed the w bytes read for the rune, or over its start. */
  method WriteRune(buf: array<byte>, at: nat, r: rune, ghost w: nat) returns (ok: bool)
    requires at + w <= buf.Length && w <= |EncodeRune(r)|
    modifies buf
    ensures ok == (at + |EncodeRune(r)| <= buf.Length)
    ensures buf[..at] == old(buf[..at])
    ensures buf[at..] == if ok then EncodeRune(r) + old(buf[at + w..])[|EncodeRune(r)| - w..] else old(buf[at..])
  {
    var e := EncodeRune(r);
    ok := at + |e| <= buf.Length;
    if ok {
      ghost var before := buf[..];
      forall i | 0 <= i < |e| {
        buf[at + i] := e[i];
      }
      Overwritten(before, buf[..], at, e, w);
      assert buf[at..] == buf[..][at..] && before[at + w..] == old(buf[at + w..]);
    }
  }

  /** The loop body: read a rune at start and write it in front of the filled end. */
  method CopyRune(s: seq<byte>, start: nat, buf: array<byte>) returns (n: nat, ok: bool)
    requires start < |s| == buf.Length
    modifies buf
    ensures 0 < n && start + n <= |s|
    ensures old(Fill(s[start..], buf[|s| - start..])) ==
            if ok then Fill(s[start + n..], buf[|s| - start - n..]) else OutOfRange
  {
    hide DecodeRune, EncodeRune;
    ghost var rest, filled := s[start..], buf[|s| - start..];
    var (c, w) := DecodeRune(s[start..]);
    n := w;
    FillStep(rest, filled);
    ok := WriteRune(buf, |s| - start - n, c, n);
    assert rest[n..] == s[start + n..];
  }

  method Reverse(s: seq<byte>) returns (r: Outcome)
    ensures r == Fill(s, [])
  {
    hide DecodeRune, EncodeRune;
    var size := |s|;
    var buf := new byte[size];
    var start := 0;
    assert s[0..] == s && buf[size..] == [];
    while start < size
      invariant 0 <= start <= size
      invariant Fill(s, []) == Fill(s[start..], buf[size - start..])
    {
      var n, ok := CopyRune(s, start, buf);
      if !ok {
        return OutOfRange;
      }
      start := start + n;
    }
    assert s[size..] == [] && buf[0..] == buf[..];
    return Text(buf[..]);
  }

  lemma FillStep(s: seq<byte>, filled: seq<byte>)
    requires s != []
    ensures var (r, w) := DecodeRune(s);
            var e := EncodeRune(r);
            && w <= |e|
            && Fill(s, filled) ==
               if |e| > w + |filled| then OutOfRange else Fill(s[w..], e + filled[|e| - w..])
  {
    WidthFits(s);
  }

  lemma Overwritten(before: seq<byte>, after: seq<byte>, at: nat, e: seq<byte>, n: nat)
    requires at + |e| <= |before| && n <= |e|
    requires after == before[..at] + e + before[at + |e|..]
    ensures after[at..] == e + before[at + n..][|e| - n..]
  {
  }

  /** A rune never takes fewer bytes to write than it took to read. */
  lemma WidthFits(s: seq<byte>)
    requires s != []
    ensures var (r, w) := DecodeRune(s); w <= |EncodeRune(r)| && (w == |EncodeRune(r)| <==> SequenceLen(s) > 0)
  {
    EncodeDecoded(s);
  }

  /** What reversing is meant to give: the runes in the opposite order. */
  function ReversedText(s: seq<byte>): seq<byte> {
    EncodeAll(Reversed(DecodeAll(s)))
  }

  lemma Associate(a: seq<byte>, b: seq<byte>, c: seq<byte>)
    ensures a + (b + c) == a + b + c
  {
  }

  lemma EncodeFirst(r: rune, rs: seq<rune>)
    ensures EncodeAll([r] + rs) == EncodeRune(r) + EncodeAll(rs)
  {
    assert ([r] + rs)[1..] == rs;
  }

  lemma {:induction false} EncodeConcat(a: seq<rune>, b: seq<rune>)
    ensures EncodeAll(a + b) == EncodeAll(a) + EncodeAll(b)
  {
    if a == [] {
      assert a + b == b;
    } else {
      EncodeConcat(a[1..], b);
      assert a + b == [a[0]] + (a[1..] + b);
      EncodeFirst(a[0], a[1..] + b);
      Associate(EncodeRune(a[0]), EncodeAll(a[1..]), EncodeAll(b));
    }
  }

  /** Decoding one more rune in front puts its encoding at the end. */
  lemma ReversedTextStep(s: seq<byte>)
    requires s != []
    ensures var (r, w) := DecodeRune(s); ReversedText(s) == ReversedText(s[w..]) + EncodeRune(r)
  {
    var (r, w) := DecodeRune(s);
    EncodeConcat(Reversed(DecodeAll(s[w..])), [r]);
    assert EncodeAll([r]) == EncodeRune(r) + EncodeAll([]) == EncodeRune(r);
  }

  /** On well-formed text the buffer receives the runes in reverse. */
  lemma {:induction false} FillValid(s: seq<byte>, filled: seq<byte>)
    requires ValidUtf8(s)
    ensures Fill(s, filled) == Text(ReversedText(s) + filled)
    decreases |s|
  {
    if s == [] {
      assert ReversedText(s) + filled == filled;
    } else {
      var (r, w) := DecodeRune(s);
      WidthFits(s);
      EncodeDecoded(s);
      FillValid(s[w..], EncodeRune(r) + filled);
      ReversedTextStep(s);
      Associate(ReversedText(s[w..]), EncodeRune(r), filled);
    }
  }

  /** Re-encoding is as long as the text, plus two bytes for every bad byte. */
  lemma {:induction false} ReversedLength(s: seq<byte>)
    ensures |ReversedText(s)| >= |s|
    ensures |ReversedText(s)| == |s| <==> ValidUtf8(s)
    decreases |s|
  {
    if s != [] {
      var (r, w) := DecodeRune(s);
      WidthFits(s);
      EncodeDecoded(s);
      ReversedLength(s[w..]);
      ReversedTextStep(s);
    }
  }

  lemma {:induction false} FillLength(s: seq<byte>, filled: seq<byte>)
    ensures Fill(s, filled).Text? ==> |Fill(s, filled).bytes| == |s| + |filled|
    decreases |s|
  {
    if s != [] {
      var (r, w) := DecodeRune(s);
      var e := EncodeRune(r);
      WidthFits(s);
      if |e| <= w + |filled| {
        FillLength(s[w..], if |e| <= w then e + filled else e + filled[|e| - w..]);
      }
    }
  }

  /** Reverse returns the runes in reverse order exactly for well-formed UTF-8. */
  lemma ReverseExact(s: seq<byte>)
    ensures Fill(s, []) == Text(ReversedText(s)) <==> ValidUtf8(s)
  {
    ReversedLength(s);
    if ValidUtf8(s) {
      FillValid(s, []);
      assert ReversedText(s) + [] == ReversedText(s);
    } else {
      FillLength(s, []);
    }
  }

  /** Once two bytes are filled, no later write can run past the end. */
  lemma {:induction false} FillGoesOn(s: seq<byte>, filled: seq<byte>)
    requires |filled| >= 2
    ensures Fill(s, filled).Text?
    decreases |s|
  {
    if s != [] {
      var (r, w) := DecodeRune(s);
      var e := EncodeRune(r);
      EncodeDecoded(s);
      WidthFits(s);
      FillGoesOn(s[w..], if |e| <= w then e + filled else e + filled[|e| - w..]);
    }
  }

  predicate BadByteAt(s: seq<byte>, i: nat) {
    i < |s| && SequenceLen(s[i..]) == 0
  }

  /** It panics exactly when a bad byte stands first, or second after an ASCII one. */
  lemma PanicExact(s: seq<byte>)
    ensures Fill(s, []) == OutOfRange <==> BadByteAt(s, 0) || (s != [] && s[0] < 0x80 && BadByteAt(s, 1))
  {
    assert s[0..] == s;
    if s != [] {
      EncodeDecoded(s);
      WidthFits(s);
      var (r, w) := DecodeRune(s);
      var e := EncodeRune(r);
      if SequenceLen(s) > 0 {
        var t := s[w..];
        assert e + [] == e && Fill(s, []) == Fill(t, e);
        if w >= 2 {
          FillGoesOn(t, e);
        } else if t != [] {
          SecondRune(t, e);
        }
      }
    }
  }

  lemma SecondRune(t: seq<byte>, filled: seq<byte>)
    requires t != [] && |filled| == 1
    ensures Fill(t, filled) == OutOfRange <==> SequenceLen(t) == 0
  {
    EncodeDecoded(t);
    WidthFits(t);
    var (r, w) := DecodeRune(t);
    if SequenceLen(t) > 0 {
      FillGoesOn(t[w..], EncodeRune(r) + filled);
    }
  }

  // ---------------------------------------------------------------- involution

  lemma {:induction false} DecodeEncodeAll(rs: seq<rune>)
    ensures ValidUtf8(EncodeAll(rs)) && DecodeAll(EncodeAll(rs)) == rs
  {
    if rs != [] {
      DecodeEncodeAll(rs[1..]);
      var e, rest := EncodeRune(rs[0]), EncodeAll(rs[1..]);
      DecodeEncoded(rs[0], rest);
      assert (e + rest)[|e|..] == rest;
    }
  }

  lemma {:induction false} EncodeDecodeAll(s: seq<byte>)
    requires ValidUtf8(s)
    ensures EncodeAll(DecodeAll(s)) == s
    decreases |s|
  {
    if s != [] {
      EncodeDecoded(s);
      EncodeDecodeAll(s[DecodeRune(s).1..]);
    }
  }

  lemma {:induction false} ReversedSnoc(rs: seq<rune>, r: rune)
    ensures Reversed(rs + [r]) == [r] + Reversed(rs)
  {
    if rs == [] {
      assert rs + [r] == [r];
    } else {
      ReversedSnoc(rs[1..], r);
      assert (rs + [r])[1..] == rs[1..] + [r];
    }
  }

  lemma {:induction false} ReversedTwice(rs: seq<rune>)
    ensures Reversed(Reversed(rs)) == rs
  {
    if rs != [] {
      ReversedTwice(rs[1..]);
      ReversedSnoc(Reversed(rs[1..]), rs[0]);
    }
  }

  /** Reversing well-formed text gives well-formed text, and twice gives it back. */
  lemma ReverseInvolutive(s: seq<byte>)
    requires ValidUtf8(s)
    ensures Fill(s, []).Text? && ValidUtf8(Fill(s, []).bytes)
    ensures Fill(Fill(s, []).bytes, []) == Text(s)
  {
    var rs := DecodeAll(s);
    ReverseExact(s);
    DecodeEncodeAll(Reversed(rs));
    ReverseExact(ReversedText(s));
    ReversedTwice(rs);
    EncodeDecodeAll(s);
  }
}
