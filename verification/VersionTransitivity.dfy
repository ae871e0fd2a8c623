/** When the version order is transitive. The code compares a number with a
    non-number as plain strings, so the answer depends on the identifiers; and it
    compares versions of mixed kinds by components only. */
module VersionTransitivity {
  import opened Arithmetic
  import opened Optional
  import opened VersionText
  import opened VersionParse
  import opened VersionRoundTrip
  import opened VersionOrder

  /** The largest 19-digit number: as a string it is above every uint. */
  const NINES := "9999999999999999999"

  predicate IsUint(x: string) { ParseUint(x).Some? }

  /** A non-number that splits the numbers cleanly: as a string it is above all
      of them, below all of them, or just after 0 or 1. */
  predicate Harmless(x: string) {
    x != "" && (x[0] < '1' || x[0] > '9' || (x[0] == '1' && |x| > 1 && x[1] < '0') || StrCmp(NINES, x) < 0)
  }

  predicate Tame(x: string) { IsUint(x) || Harmless(x) }

  // --------------------------------------------- numerals among the strings

  /** Below 2*10^k a numeral has at most k digits, or k+1 and a first digit 0 or 1. */
  lemma {:induction false} NumeralShape(n: nat, k: nat)
    requires n < 2 * Pow(10, k)
    ensures |Numeral(n)| <= k || (|Numeral(n)| == k + 1 && Numeral(n)[0] <= '1')
  {
    if n >= 10 {
      assert k > 0;
      NumeralShape(n / 10, k - 1);
    }
  }

  lemma {:induction false} DigitsBelowNines(s: string, t: string)
    requires All(IsDigit, s) && |s| <= |t| && forall i | 0 <= i < |t| :: t[i] == '9'
    ensures StrCmp(s, t) <= 0
  {
    if s != "" {
      DigitsBelowNines(s[1..], t[1..]);
    }
  }

  lemma TenTo19()
    ensures Pow(10, 19) == 10000000000000000000
  {
    assert Pow(10, 19) == 100000 * Pow(10, 14) == 10000000000 * Pow(10, 9) == 1000000000000000 * Pow(10, 4);
  }

  lemma UintBelowNines(n: nat)
    requires n <= MAX_UINT
    ensures StrCmp(Numeral(n), NINES) <= 0
  {
    TenTo19();
    NumeralShape(n, 19);
    if |Numeral(n)| <= 19 {
      DigitsBelowNines(Numeral(n), NINES);
    }
  }

  lemma StrCmpLeLt(s: string, t: string, u: string)
    requires StrCmp(s, t) <= 0 && StrCmp(t, u) < 0
    ensures StrCmp(s, u) < 0
  {
    StrCmpZero(s, t);
    if s != t {
      StrCmpTransitive(s, t, u);
    }
  }

  /** A numeral of two or more digits does not start with 0. */
  lemma NumeralFirst(n: nat)
    ensures n < 10 ==> Numeral(n) == [DigitChar(n)]
    ensures n >= 10 ==> |Numeral(n)| > 1 && Numeral(n)[0] != '0'
  {
    DecimalNumeral(n);
  }

  /** The numbers below a harmless string are downward closed. */
  lemma CutClosed(m: nat, n: nat, x: string)
    requires m <= n <= MAX_UINT && Harmless(x) && !IsUint(x)
    requires StrCmp(Numeral(n), x) < 0
    ensures StrCmp(Numeral(m), x) < 0
  {
    NumeralFirst(m);
    NumeralFirst(n);
    if StrCmp(NINES, x) < 0 {
      UintBelowNines(m);
      StrCmpLeLt(Numeral(m), NINES, x);
    } else if x[0] < '1' {
      assert n == 0;
    } else if x[0] == '1' {
      assert n <= 1;
    }
  }

  /** A canonical identifier that is a uint is the numeral of its value. */
  lemma UintIsNumeral(x: string)
    requires IsIdent(x) && IsUint(x)
    ensures Numeral(ParseUint(x).value) == x
  {
    NumeralDecimal(x);
  }

  lemma NumeralIsUint(n: nat)
    requires n <= MAX_UINT
    ensures ParseUint(Numeral(n)) == Some(n) && IsIdent(Numeral(n))
  {
    DecimalNumeral(n);
  }

  /** A number below a harmless string that is below a number is smaller. */
  lemma StringBetween(a: string, x: string, b: string)
    requires IsIdent(a) && IsIdent(b) && IsUint(a) && IsUint(b)
    requires Harmless(x) && !IsUint(x) && StrCmp(a, x) < 0 && StrCmp(x, b) < 0
    ensures IdentCmp(a, b) < 0
  {
    var m, n := ParseUint(a).value, ParseUint(b).value;
    UintIsNumeral(a);
    UintIsNumeral(b);
    StrCmpFlip(b, x);
    if n <= m {
      CutClosed(n, m, x);
    }
  }

  /** Two numbers in order against one harmless string. */
  lemma NumbersThenString(a: string, b: string, x: string)
    requires IsIdent(a) && IsIdent(b) && IsUint(a) && IsUint(b) && IdentCmp(a, b) < 0
    requires Harmless(x) && !IsUint(x)
    ensures StrCmp(b, x) < 0 ==> StrCmp(a, x) < 0
    ensures StrCmp(x, a) < 0 ==> StrCmp(x, b) < 0
  {
    UintIsNumeral(a);
    UintIsNumeral(b);
    if StrCmp(b, x) < 0 {
      CutClosed(ParseUint(a).value, ParseUint(b).value, x);
    }
    StrCmpFlip(a, x);
    StrCmpFlip(b, x);
    StrCmpZero(x, b);
  }

  lemma IdentCmpTransitive(a: string, b: string, c: string)
    requires IsIdent(a) && IsIdent(b) && IsIdent(c) && Tame(a) && Tame(b) && Tame(c)
    requires IdentCmp(a, b) < 0 && IdentCmp(b, c) < 0
    ensures IdentCmp(a, c) < 0
  {
    if IsUint(a) && IsUint(b) {
      if !IsUint(c) {
        NumbersThenString(a, b, c);
      }
    } else if IsUint(b) && IsUint(c) {
      NumbersThenString(b, c, a);
    } else if IsUint(a) && IsUint(c) {
      StringBetween(a, b, c);
    } else {
      StrCmpTransitive(a, b, c);
    }
  }

  // ------------------------------------------------------------ the exact line

  /** x does not break the order of any two numbers it is above. */
  ghost predicate RespectsNumbers(x: string) {
    forall m: nat, n: nat | m < n <= MAX_UINT && IdentCmp(Numeral(n), x) < 0 :: IdentCmp(Numeral(m), x) < 0
  }

  /** Two numbers m < n with n below x and x below m. */
  lemma Straddled(x: string) returns (m: nat, n: nat)
    requires IsIdent(x) && !Tame(x)
    ensures m < n <= MAX_UINT && StrCmp(Numeral(n), x) < 0 && StrCmp(x, Numeral(m)) < 0
  {
    StrCmpFlip(NINES, x);
    if x[0] == '9' {
      m, n := 9999999999999999999, 10000000000000000000;
      NinesNumeral();
      StrCmpZero(NINES, x);
      if x == NINES {
        NumeralIsUint(9999999999999999999);
      }
      UintFirstOne(n);
    } else if x[0] == '1' {
      m, n := 2, 10;
      NumeralFirst(2);
      TenBelow(x);
    } else {
      m, n := DigitValue(x[0]) + 1, 10;
      NumeralFirst(m);
      assert Numeral(10) == "10";
    }
  }

  lemma TenBelow(x: string)
    requires IsIdent(x) && !Tame(x) && x[0] == '1'
    ensures Numeral(10) == "10" && StrCmp("10", x) < 0
  {
    assert Numeral(10) == Numeral(1) + "0" == "10";
    if |x| == 1 {
      assert x == Numeral(1);
      NumeralIsUint(1);
    } else if x[1] == '0' {
      if |x| == 2 {
        assert x == "10";
        NumeralIsUint(10);
      }
      assert "10"[1..] == "0" && "0"[1..] == "";
      assert StrCmp("10", x) == StrCmp("0", x[1..]) == StrCmp("", x[1..][1..]);
    } else {
      assert "10"[1..] == "0";
      assert StrCmp("10", x) == StrCmp("0", x[1..]);
    }
  }

  lemma {:induction false} NinesOfLength(k: nat)
    requires k > 0
    ensures var s := Numeral(Pow(10, k) - 1);
            |s| == k && forall i | 0 <= i < k :: s[i] == '9'
  {
    if k == 1 {
      assert Pow(10, 1) == 10 * Pow(10, 0) == 10;
    } else {
      NinesOfLength(k - 1);
      var n := Pow(10, k) - 1;
      assert n / 10 == Pow(10, k - 1) - 1 && n % 10 == 9;
      PowGrows(k);
    }
  }

  lemma PowGrows(k: nat)
    requires k > 0
    ensures Pow(10, k) >= 10
  {
  }

  lemma NinesNumeral()
    ensures Numeral(9999999999999999999) == NINES
  {
    TenTo19();
    NinesOfLength(19);
  }

  lemma UintFirstOne(n: nat)
    requires 10000000000000000000 <= n <= MAX_UINT
    ensures Numeral(n)[0] == '1'
  {
    TenTo19();
    NumeralShape(n, 19);
    NumeralFirst(n);
    if |Numeral(n)| <= 19 {
      NumeralBound(n);
      PowMonotonic(|Numeral(n)|, 19);
    }
  }

  lemma {:induction false} NumeralBound(n: nat)
    ensures n < Pow(10, |Numeral(n)|)
  {
    if n >= 10 {
      NumeralBound(n / 10);
    } else {
      assert Pow(10, 1) == 10 * Pow(10, 0) == 10;
    }
  }

  lemma {:induction false} PowMonotonic(j: nat, k: nat)
    requires j <= k
    ensures Pow(10, j) <= Pow(10, k)
  {
    if j < k {
      PowMonotonic(j, k - 1);
    }
  }

  /** A non-numeric identifier fits into the order of the numbers exactly when
      it is harmless. */
  lemma RespectsNumbersExact(x: string)
    requires IsIdent(x) && !IsUint(x)
    ensures RespectsNumbers(x) <==> Harmless(x)
  {
    if Harmless(x) {
      forall m: nat, n: nat | m < n <= MAX_UINT && IdentCmp(Numeral(n), x) < 0
        ensures IdentCmp(Numeral(m), x) < 0
      {
        CutClosed(m, n, x);
      }
    } else {
      var m, n := Straddled(x);
      StrCmpFlip(x, Numeral(m));
      assert IdentCmp(Numeral(n), x) < 0 && !(IdentCmp(Numeral(m), x) < 0);
    }
  }

  // ------------------------------------------------------------- whole versions

  /** A parsed version whose identifiers are uints or taken from xs. */
  ghost predicate UsesOnly(v: Version, xs: iset<string>) {
    && SemverOk(v)
    && (v.preRelease != "" ==> forall i | 0 <= i < |Split(v.preRelease)| ::
          IsUint(Split(v.preRelease)[i]) || Split(v.preRelease)[i] in xs)
  }

  lemma {:induction false} IdentsCmpTransitive(a: seq<string>, b: seq<string>, c: seq<string>)
    requires AreIdents(a) && AreIdents(b) && AreIdents(c)
    requires forall i | 0 <= i < |a| :: Tame(a[i])
    requires forall i | 0 <= i < |b| :: Tame(b[i])
    requires forall i | 0 <= i < |c| :: Tame(c[i])
    requires IdentsCmp(a, b) < 0 && IdentsCmp(b, c) < 0
    ensures IdentsCmp(a, c) < 0
  {
    if a != [] && b != [] && c != [] {
      IdentCmpZero(a[0], b[0]);
      IdentCmpZero(b[0], c[0]);
      if a[0] == b[0] == c[0] {
        IdentsCmpTransitive(a[1..], b[1..], c[1..]);
      } else if a[0] != b[0] && b[0] != c[0] {
        IdentCmpTransitive(a[0], b[0], c[0]);
      }
    }
  }

  ghost predicate TameIdents(p: string) {
    p != "" ==> AreIdents(Split(p)) && forall i | 0 <= i < |Split(p)| :: Tame(Split(p)[i])
  }

  lemma PreCmpTransitive(p: string, q: string, r: string)
    requires TameIdents(p) && TameIdents(q) && TameIdents(r)
    requires PreCmp(p, q) <= 0 && PreCmp(q, r) <= 0
    ensures PreCmp(p, r) <= 0
  {
    if p != "" && q != "" && r != "" {
      IdentsCmpZero(Split(p), Split(q));
      IdentsCmpZero(Split(q), Split(r));
      if IdentsCmp(Split(p), Split(q)) < 0 && IdentsCmp(Split(q), Split(r)) < 0 {
        IdentsCmpTransitive(Split(p), Split(q), Split(r));
      }
    }
  }

  lemma CompareTransitive(a: Version, b: Version, c: Version)
    requires a.semver && b.semver && c.semver
    requires TameIdents(a.preRelease) && TameIdents(b.preRelease) && TameIdents(c.preRelease)
    requires Compare(a, b) <= 0 && Compare(b, c) <= 0
    ensures Compare(a, c) <= 0
  {
    PaddedCmpTransitive(a.components, b.components, c.components);
    if PaddedCmp(a.components, c.components) == 0 {
      PreCmpTransitive(a.preRelease, b.preRelease, c.preRelease);
    }
  }

  ghost predicate TransitiveOver(xs: iset<string>) {
    forall a, b, c | UsesOnly(a, xs) && UsesOnly(b, xs) && UsesOnly(c, xs) && Compare(a, b) <= 0 && Compare(b, c) <= 0 ::
      Compare(a, c) <= 0
  }

  /** 1.0.0-x */
  function Tagged(x: string): Version {
    Version([1, 0, 0], true, x, "")
  }

  lemma TaggedOk(x: string, xs: iset<string>)
    requires IsIdent(x) && (IsUint(x) || x in xs)
    ensures Split(x) == [x] && UsesOnly(Tagged(x), xs)
  {
    SplitAtDot(x, "");
  }

  lemma TaggedCompare(x: string, y: string)
    requires IsIdent(x) && IsIdent(y)
    ensures Compare(Tagged(x), Tagged(y)) == IdentCmp(x, y)
  {
    SplitAtDot(x, "");
    SplitAtDot(y, "");
    var ones: seq<nat> := [1, 0, 0];
    PaddedCmpZero(ones, ones);
    var xs, ys := [x], [y];
    assert xs[1..] == [] && ys[1..] == [];
    assert IdentsCmp(xs, ys) == IdentCmp(x, y);
  }

  /** An untame identifier closes a cycle of three versions. */
  lemma UntameCycle(x: string, xs: iset<string>)
    requires IsIdent(x) && !Tame(x) && x in xs
    ensures !TransitiveOver(xs)
  {
    var m, n := Straddled(x);
    var s, t := Numeral(m), Numeral(n);
    NumeralIsUint(m);
    NumeralIsUint(n);
    TaggedOk(s, xs);
    TaggedOk(t, xs);
    TaggedOk(x, xs);
    TaggedCompare(s, t);
    TaggedCompare(t, x);
    TaggedCompare(s, x);
    StrCmpFlip(s, x);
    assert Compare(Tagged(s), Tagged(t)) <= 0 && Compare(Tagged(t), Tagged(x)) <= 0;
  }

  /** Over the versions whose identifiers are uints or come from xs, the order is
      transitive exactly when every identifier of xs is tame. */
  lemma TransitiveExact(xs: iset<string>)
    requires forall x | x in xs :: IsIdent(x)
    ensures TransitiveOver(xs) <==> forall x | x in xs :: Tame(x)
  {
    if forall x | x in xs :: Tame(x) {
      forall a, b, c | UsesOnly(a, xs) && UsesOnly(b, xs) && UsesOnly(c, xs) && Compare(a, b) <= 0 && Compare(b, c) <= 0
        ensures Compare(a, c) <= 0
      {
        if a.preRelease != "" { ParsedIdents(a); }
        if b.preRelease != "" { ParsedIdents(b); }
        if c.preRelease != "" { ParsedIdents(c); }
        CompareTransitive(a, b, c);
      }
    } else {
      var x :| x in xs && !Tame(x);
      UntameCycle(x, xs);
    }
  }

  /** The shortest such cycle: 9 < 10 < 1a < 9. */
  lemma LeadingDigitCycle()
    ensures Compare(Tagged("9"), Tagged("10")) == -1
    ensures Compare(Tagged("10"), Tagged("1a")) == -1
    ensures Compare(Tagged("1a"), Tagged("9")) == -1
  {
    NumeralFirst(9);
    NumeralIsUint(9);
    NumeralIsUint(10);
    assert Numeral(9) == "9" && Numeral(10) == Numeral(1) + "0" == "10";
    assert !IsDigit("1a"[1]);
    assert "10"[1..] == "0" && "1a"[1..] == "a";
    TaggedCompare("9", "10");
    TaggedCompare("10", "1a");
    TaggedCompare("1a", "9");
  }

  // --------------------------------------------------------- versions of both kinds

  ghost predicate TransitiveOn(vs: iset<Version>) {
    forall a, b, c | a in vs && b in vs && c in vs && Compare(a, b) <= 0 && Compare(b, c) <= 0 :: Compare(a, c) <= 0
  }

  /** A generic version that stands between two semantic ones of different
      pre-release, because only components are compared with it. */
  predicate Bridges(g: Version, a: Version, c: Version) {
    && !g.semver && a.semver && c.semver && a.preRelease != c.preRelease
    && PaddedCmp(a.components, g.components) == 0 && PaddedCmp(g.components, c.components) == 0
  }

  lemma PreCmpZero(p: string, q: string)
    requires TameIdents(p) && TameIdents(q)
    ensures PreCmp(p, q) == 0 <==> p == q
  {
    if p != "" && q != "" {
      IdentsCmpZero(Split(p), Split(q));
      JoinSplit(p);
      JoinSplit(q);
    }
  }

  lemma BridgeBreaks(g: Version, a: Version, c: Version, vs: iset<Version>)
    requires g in vs && a in vs && c in vs && Bridges(g, a, c)
    requires TameIdents(a.preRelease) && TameIdents(c.preRelease)
    ensures !TransitiveOn(vs)
  {
    PaddedCmpTransitive(a.components, g.components, c.components);
    PaddedCmpFlip(a.components, g.components);
    PaddedCmpFlip(g.components, c.components);
    PaddedCmpTransitive(c.components, g.components, a.components);
    PaddedCmpFlip(a.components, c.components);
    PreCmpZero(a.preRelease, c.preRelease);
    CompareFlip(a, c);
    assert Compare(a, g) == Compare(g, c) == Compare(c, g) == Compare(g, a) == 0;
  }

  lemma NoBridge(a: Version, b: Version, c: Version)
    requires a.semver ==> TameIdents(a.preRelease)
    requires b.semver ==> TameIdents(b.preRelease)
    requires c.semver ==> TameIdents(c.preRelease)
    requires Compare(a, b) <= 0 && Compare(b, c) <= 0 && !Bridges(b, a, c)
    ensures Compare(a, c) <= 0
  {
    PaddedCmpTransitive(a.components, b.components, c.components);
    if a.semver && c.semver {
      if b.semver {
        CompareTransitive(a, b, c);
      } else if a.preRelease == c.preRelease {
        PreCmpZero(a.preRelease, c.preRelease);
      }
    }
  }

  /** Over any collection of versions of both kinds with tame identifiers, the
      order is transitive exactly when none of its generic versions has the same
      components as two semantic ones of different pre-release. */
  lemma MixedExact(vs: iset<Version>)
    requires forall v | v in vs && v.semver :: TameIdents(v.preRelease)
    ensures TransitiveOn(vs) <==> forall g, a, c | g in vs && a in vs && c in vs :: !Bridges(g, a, c)
  {
    if g, a, c :| g in vs && a in vs && c in vs && Bridges(g, a, c) {
      BridgeBreaks(g, a, c, vs);
    } else {
      forall a, b, c | a in vs && b in vs && c in vs && Compare(a, b) <= 0 && Compare(b, c) <= 0
        ensures Compare(a, c) <= 0
      {
        NoBridge(a, b, c);
      }
    }
  }
}
