/** Text helpers of the version parser: character classes and greedy runs of the
    two regular expressions, splitting on dots, and decimal numerals. */
module VersionText {
  import opened Optional
  import opened Text

  const MAX_UINT: nat := 0xFFFF_FFFF_FFFF_FFFF

  predicate IsDigit(ch: char) { '0' <= ch <= '9' }

  predicate IsIdentChar(ch: char) {
    '0' <= ch <= '9' || 'A' <= ch <= 'Z' || 'a' <= ch <= 'z' || ch == '-'
  }

  /** The class \s of Go's regular expressions. */
  predicate IsSpace(ch: char) {
    ch == ' ' || ch == '\t' || ch == '\n' || ch == '\r' || ch == '\U{0C}'
  }

  /** The character classes of the two expressions, by ASCII code. */
  lemma CharacterClasses(ch: char)
    ensures var c := ch as int;
            && (IsDigit(ch) <==> 48 <= c < 58)
            && (IsIdentChar(ch) <==> 48 <= c < 58 || 65 <= c < 91 || 97 <= c < 123 || c == 45)
            && (IsSpace(ch) <==> c == 9 || c == 10 || c == 12 || c == 13 || c == 32)
  {
  }

  predicate All(p: char -> bool, s: string) {
    forall i | 0 <= i < |s| :: p(s[i])
  }

  // ---------------------------------------------------------------- char runs

  /** The length of the longest prefix inside a character class. */
  function RunLen(p: char -> bool, s: string): (n: nat)
    ensures n <= |s| && All(p, s[..n])
    ensures n < |s| ==> !p(s[n])
  {
    if s == "" || !p(s[0]) then 0
    else
      var n := 1 + RunLen(p, s[1..]);
      assert forall i | 1 <= i < n :: s[i] == s[1..][..n - 1][i - 1];
      n
  }

  lemma {:induction false} RunLenIs(p: char -> bool, a: string, b: string)
    requires All(p, a) && (b == "" || !p(b[0]))
    ensures RunLen(p, a + b) == |a|
  {
    if a == "" {
      assert a + b == b;
    } else {
      assert (a + b)[1..] == a[1..] + b;
      RunLenIs(p, a[1..], b);
    }
  }

  // ------------------------------------------------------------------- dotted

  /** The text after a greedy match of x+(\.x+)* neither extends the last run
      nor starts another one. */
  predicate Stops(p: char -> bool, rest: string) {
    rest != "" ==> !p(rest[0]) && (rest[0] == '.' && |rest| > 1 ==> !p(rest[1]))
  }

  /** The length of the greedy match of x+(\.x+)*, or 0 when there is none. */
  function DottedLen(p: char -> bool, s: string): (n: nat)
    ensures n <= |s|
    decreases |s|
  {
    var n := RunLen(p, s);
    if n == 0 then 0
    else if n < |s| && s[n] == '.' && DottedLen(p, s[n + 1..]) > 0 then
      n + 1 + DottedLen(p, s[n + 1..])
    else n
  }

  /** strings.Split on "." */
  function Split(s: string): (ps: seq<string>)
    ensures ps != [] && forall i | 0 <= i < |ps| :: '.' !in ps[i]
  {
    SplitOn(s, '.')
  }

  function Join(ps: seq<string>): string {
    if ps == [] then "" else if |ps| == 1 then ps[0] else ps[0] + "." + Join(ps[1..])
  }

  lemma {:induction false} JoinSplit(s: string)
    ensures Join(Split(s)) == s
  {
    if s != "" {
      JoinSplit(s[1..]);
      var ps := Split(s[1..]);
      if s[0] == '.' {
        assert ([""] + ps)[1..] == ps;
      } else {
        var qs := [[s[0]] + ps[0]] + ps[1..];
        assert qs[1..] == ps[1..];
        if |ps| == 1 {
          assert Join(qs) == [s[0]] + ps[0];
        } else {
          assert Join(qs) == [s[0]] + (ps[0] + "." + Join(ps[1..]));
        }
      }
    }
  }

  lemma SplitAtDot(a: string, b: string)
    requires '.' !in a
    ensures Split(a + "." + b) == [a] + Split(b)
    ensures Split(a) == [a]
  {
    SplitAt(a, '.', b);
  }

  lemma {:induction false} SplitJoin(ps: seq<string>)
    requires ps != [] && forall i | 0 <= i < |ps| :: '.' !in ps[i]
    ensures Split(Join(ps)) == ps
  {
    if |ps| == 1 {
      SplitAtDot(ps[0], "");
    } else {
      SplitJoin(ps[1..]);
      SplitAtDot(ps[0], Join(ps[1..]));
      assert [ps[0]] + ps[1..] == ps;
    }
  }

  /** The language of x+(\.x+)*. */
  predicate IsDotted(p: char -> bool, t: string) {
    forall i | 0 <= i < |Split(t)| :: Split(t)[i] != "" && All(p, Split(t)[i])
  }

  lemma DottedCons(p: char -> bool, a: string, b: string)
    requires !p('.') && a != "" && All(p, a)
    ensures IsDotted(p, a)
    ensures IsDotted(p, a + "." + b) <==> IsDotted(p, b)
  {
    assert '.' !in a;
    SplitAtDot(a, b);
    var ps, qs := Split(a + "." + b), Split(b);
    assert forall i | 0 <= i < |qs| :: qs[i] == ps[i + 1];
  }

  /** The greedy match is in the language and cannot be extended. */
  lemma {:induction false} DottedLenMatches(p: char -> bool, s: string)
    requires !p('.') && DottedLen(p, s) > 0
    ensures IsDotted(p, s[..DottedLen(p, s)]) && Stops(p, s[DottedLen(p, s)..])
    decreases |s|
  {
    var n := RunLen(p, s);
    DottedCons(p, s[..n], "");
    if n < |s| && s[n] == '.' {
      var b := s[n + 1..];
      if DottedLen(p, b) > 0 {
        DottedLenMatches(p, b);
        DottedLonger(p, s, n, DottedLen(p, b));
      } else {
        if b != "" && p(b[0]) {
          SomeDotted(p, b);
        }
        assert s[n..][1..] == b;
      }
    }
  }

  lemma DottedLonger(p: char -> bool, s: string, n: nat, m: nat)
    requires !p('.') && n + 1 + m <= |s| && n > 0 && All(p, s[..n]) && s[n] == '.'
    requires IsDotted(p, s[n + 1..][..m]) && Stops(p, s[n + 1..][m..])
    ensures IsDotted(p, s[..n + 1 + m]) && Stops(p, s[n + 1 + m..])
  {
    DottedCons(p, s[..n], s[n + 1..][..m]);
    assert s[..n + 1 + m] == s[..n] + "." + s[n + 1..][..m];
    assert s[n + 1 + m..] == s[n + 1..][m..];
  }

  lemma SomeDotted(p: char -> bool, s: string)
    requires s != "" && p(s[0])
    ensures DottedLen(p, s) > 0
  {
  }

  /** And it is the only split of a text into a match and a stopping rest. */
  lemma {:induction false} DottedLenIs(p: char -> bool, t: string, rest: string)
    requires !p('.') && IsDotted(p, t) && Stops(p, rest)
    ensures t != "" && p(t[0]) && DottedLen(p, t + rest) == |t|
    decreases |t|
  {
    var ps := Split(t);
    JoinSplit(t);
    var a := ps[0];
    assert a != "" && All(p, a);
    if |ps| == 1 {
      LastRun(p, a, rest);
    } else {
      var b := Join(ps[1..]);
      DottedCons(p, a, b);
      DottedLenIs(p, b, rest);
      RunThenDotted(p, a, b, rest);
    }
  }

  lemma LastRun(p: char -> bool, a: string, rest: string)
    requires !p('.') && a != "" && All(p, a) && Stops(p, rest)
    ensures DottedLen(p, a + rest) == |a|
  {
    RunLenIs(p, a, rest);
    if rest != "" && rest[0] == '.' {
      assert (a + rest)[|a| + 1..] == rest[1..];
      NoDotted(p, rest[1..]);
    }
  }

  lemma RunThenDotted(p: char -> bool, a: string, b: string, rest: string)
    requires !p('.') && a != "" && All(p, a) && b != "" && DottedLen(p, b + rest) == |b|
    ensures DottedLen(p, a + "." + b + rest) == |a| + 1 + |b|
  {
    RunDotMore(p, a, b + rest);
    assert a + "." + b + rest == a + ("." + (b + rest));
  }

  lemma RunDotMore(p: char -> bool, a: string, u: string)
    requires !p('.') && a != "" && All(p, a) && DottedLen(p, u) > 0
    ensures DottedLen(p, a + ("." + u)) == |a| + 1 + DottedLen(p, u)
  {
    var s := a + ("." + u);
    RunLenIs(p, a, "." + u);
    assert s[|a|] == '.' && s[|a| + 1..] == u;
  }

  lemma NoDotted(p: char -> bool, s: string)
    requires s == "" || !p(s[0])
    ensures DottedLen(p, s) == 0
  {
  }

  // ----------------------------------------------------------------- numerals

  function DigitValue(ch: char): (d: nat)
    requires IsDigit(ch)
    ensures d < 10
  {
    ch as int - '0' as int
  }

  function DigitChar(d: nat): (ch: char)
    requires d < 10
    ensures IsDigit(ch) && DigitValue(ch) == d
  {
    '0' + d as char
  }

  function Decimal(s: string): nat
    requires All(IsDigit, s)
  {
    if s == "" then 0 else 10 * Decimal(s[..|s| - 1]) + DigitValue(s[|s| - 1])
  }

  /** fmt's %d for an unsigned number. */
  function Numeral(n: nat): (s: string)
    ensures s != "" && All(IsDigit, s)
  {
    if n < 10 then [DigitChar(n)] else Numeral(n / 10) + [DigitChar(n % 10)]
  }

  predicate NoLeadingZero(s: string) {
    s == "0" || s == "" || s[0] != '0'
  }

  lemma {:induction false} DecimalNumeral(n: nat)
    ensures Decimal(Numeral(n)) == n && NoLeadingZero(Numeral(n))
    ensures n > 0 ==> Numeral(n)[0] != '0'
  {
    if n >= 10 {
      DecimalNumeral(n / 10);
      var s := Numeral(n);
      assert s[..|s| - 1] == Numeral(n / 10);
    } else {
      assert Numeral(n)[..0] == "";
    }
  }

  lemma {:induction false} NumeralDecimal(s: string)
    requires s != "" && All(IsDigit, s) && NoLeadingZero(s)
    ensures Numeral(Decimal(s)) == s
    ensures s != "0" ==> Decimal(s) > 0
  {
    var t := s[..|s| - 1];
    assert s == t + [s[|s| - 1]];
    if t == "" {
      assert Decimal(s) == DigitValue(s[0]);
    } else {
      NumeralDecimal(t);
    }
  }

  /** strconv.ParseUint(s, 10, 0) on a 64-bit platform, without the error text. */
  function ParseUint(s: string): Option<nat> {
    if s != "" && All(IsDigit, s) && Decimal(s) <= MAX_UINT then Some(Decimal(s)) else None
  }
}
