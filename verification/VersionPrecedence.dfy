/** When the version order is the precedence of section 11 of Semantic Versioning
    2.0.0. Two things go wrong: an identifier with a leading digit is compared with
    a number as a string, and so is a number that does not fit in 64 bits. */
module VersionPrecedence {
  import opened Arithmetic
  import opened VersionText
  import opened VersionParse
  import opened VersionRoundTrip
  import opened VersionOrder
  import opened VersionLexicographic
  import opened VersionTransitivity

  predicate IsNumeric(x: string) { x != "" && All(IsDigit, x) }

  /** Numeric identifiers by value and below all others, which go by ASCII order. */
  function SemverIdentCmp(a: string, b: string): (c: int) {
    if IsNumeric(a) && IsNumeric(b) then
      if Decimal(a) < Decimal(b) then -1 else if Decimal(a) > Decimal(b) then 1 else 0
    else if IsNumeric(a) then -1
    else if IsNumeric(b) then 1
    else if Before(a, b) then -1
    else if Before(b, a) then 1
    else 0
  }

  function SemverIdentsCmp(a: seq<string>, b: seq<string>): int {
    if a == [] || b == [] then
      if |a| < |b| then -1 else if |a| > |b| then 1 else 0
    else if SemverIdentCmp(a[0], b[0]) != 0 then SemverIdentCmp(a[0], b[0])
    else SemverIdentsCmp(a[1..], b[1..])
  }

  function Precedence(v: Version, o: Version): int
    requires |v.components| == 3 && |o.components| == 3
  {
    var (a, b) := (v.components, o.components);
    if a[0] < b[0] then -1
    else if a[0] > b[0] then 1
    else if a[1] < b[1] then -1
    else if a[1] > b[1] then 1
    else if a[2] < b[2] then -1
    else if a[2] > b[2] then 1
    else if v.preRelease == "" && o.preRelease == "" then 0
    else if v.preRelease == "" then 1
    else if o.preRelease == "" then -1
    else SemverIdentsCmp(Split(v.preRelease), Split(o.preRelease))
  }

  ghost predicate AgreesOver(xs: iset<string>) {
    forall v, o | UsesOnly(v, xs) && UsesOnly(o, xs) :: Compare(v, o) == Precedence(v, o)
  }

  lemma ThreeComponents(a: seq<nat>, b: seq<nat>)
    requires |a| == 3 && |b| == 3
    ensures PaddedCmp(a, b) ==
            if a[0] != b[0] then Sign(a[0], b[0])
            else if a[1] != b[1] then Sign(a[1], b[1])
            else Sign(a[2], b[2])
  {
    PaddedStep(a, b);
    PaddedStep(a[1..], b[1..]);
    PaddedStep(a[2..], b[2..]);
    assert a[1..][1..] == a[2..] && b[1..][1..] == b[2..] && a[2..][1..] == [] == b[2..][1..];
  }

  // ------------------------------------------------- digit strings as numbers

  lemma {:induction false} DecimalBounds(s: string)
    requires s != "" && All(IsDigit, s)
    ensures DigitValue(s[0]) * Pow(10, |s| - 1) <= Decimal(s) < Pow(10, |s|)
  {
    var t := s[..|s| - 1];
    if t == "" {
      assert Decimal(s) == DigitValue(s[0]);
      assert Pow(10, 1) == 10 * Pow(10, 0) == 10;
    } else {
      DecimalBounds(t);
      assert Pow(10, |s| - 1) == 10 * Pow(10, |t| - 1);
      assert DigitValue(s[0]) * (10 * Pow(10, |t| - 1)) == 10 * (DigitValue(t[0]) * Pow(10, |t| - 1));
    }
  }

  lemma DecimalAtLeast(s: string, d: nat)
    requires s != "" && All(IsDigit, s) && DigitValue(s[0]) >= d
    ensures Decimal(s) >= d * Pow(10, |s| - 1)
  {
    DecimalBounds(s);
    Scaled(d, DigitValue(s[0]), Pow(10, |s| - 1));
  }

  lemma Scaled(d: nat, e: nat, q: nat)
    requires d <= e
    ensures d * q <= e * q
  {
  }

  /** A longer number without leading zeros is larger. */
  lemma LongerIsLarger(a: string, b: string)
    requires a != "" && All(IsDigit, a) && All(IsDigit, b) && |a| < |b| && b[0] != '0'
    ensures Decimal(a) < Decimal(b)
  {
    DecimalBounds(a);
    DecimalAtLeast(b, 1);
    PowMonotonic(|a|, |b| - 1);
  }

  lemma {:induction false} StrCmpSnoc(s: string, t: string, c: char, d: char)
    requires |s| == |t|
    ensures StrCmp(s + [c], t + [d]) == if StrCmp(s, t) != 0 then StrCmp(s, t) else Sign(c as int, d as int)
  {
    if s == "" {
      assert s + [c] == [c] && t + [d] == [d];
    } else {
      assert (s + [c])[1..] == s[1..] + [c] && (t + [d])[1..] == t[1..] + [d];
      StrCmpSnoc(s[1..], t[1..], c, d);
    }
  }

  /** Numbers of one length are in order exactly as strings are. */
  lemma {:induction false} SameLengthOrder(a: string, b: string)
    requires |a| == |b| && All(IsDigit, a) && All(IsDigit, b)
    ensures StrCmp(a, b) == Sign(Decimal(a), Decimal(b))
  {
    if a != "" {
      var n := |a| - 1;
      SameLengthOrder(a[..n], b[..n]);
      StrCmpSnoc(a[..n], b[..n], a[n], b[n]);
      assert a == a[..n] + [a[n]] && b == b[..n] + [b[n]];
    }
  }

  // ------------------------------------------------------------- the exact line

  /** A number too large for 64 bits, or not a number. */
  ghost predicate Foreign(x: string, xs: iset<string>) {
    x in xs && !IsUint(x)
  }

  /** As strings, the identifiers other than uints are above all uints; among
      them, numbers are below longer numbers and below all non-numbers. */
  ghost predicate RankRight(xs: iset<string>) {
    && (forall x | Foreign(x, xs) :: StrCmp(NINES, x) < 0)
    && (forall y, z | Foreign(y, xs) && Foreign(z, xs) && IsNumeric(y) && (!IsNumeric(z) || |y| < |z|) ::
          StrCmp(y, z) < 0)
  }

  lemma UintBelow(a: string, x: string)
    requires IsIdent(a) && IsUint(a) && IsIdent(x) && !IsUint(x)
    ensures SemverIdentCmp(a, x) == -1 && SemverIdentCmp(x, a) == 1
    ensures StrCmp(NINES, x) < 0 ==> IdentCmp(a, x) == -1 && IdentCmp(x, a) == 1
  {
    if StrCmp(NINES, x) < 0 {
      UintIsNumeral(a);
      UintBelowNines(ParseUint(a).value);
      StrCmpLeLt(a, NINES, x);
      StrCmpFlip(a, x);
    }
  }

  lemma NoLeadingZeros(x: string)
    requires IsNumeric(x) && StrCmp(NINES, x) < 0
    ensures x[0] == '9'
  {
  }

  /** Two foreign identifiers, the first a number and shorter if both are. */
  lemma ForeignOrder(y: string, z: string)
    requires IsNumeric(y) && z != "" && StrCmp(NINES, z) < 0
    requires !IsNumeric(z) || |y| < |z|
    ensures SemverIdentCmp(y, z) == -1 && SemverIdentCmp(z, y) == 1
  {
    if IsNumeric(z) {
      NoLeadingZeros(z);
      LongerIsLarger(y, z);
    }
  }

  lemma ForeignAgrees(a: string, b: string, xs: iset<string>)
    requires IsIdent(a) && IsIdent(b) && Foreign(a, xs) && Foreign(b, xs) && RankRight(xs)
    ensures IdentCmp(a, b) == SemverIdentCmp(a, b)
  {
    StrCmpFlip(a, b);
    StrCmpExact(a, b);
    if IsNumeric(a) && (!IsNumeric(b) || |a| < |b|) {
      ForeignOrder(a, b);
    } else if IsNumeric(b) && (!IsNumeric(a) || |b| < |a|) {
      ForeignOrder(b, a);
    } else if IsNumeric(a) {
      SameLengthOrder(a, b);
    }
  }

  lemma IdentAgrees(a: string, b: string, xs: iset<string>)
    requires IsIdent(a) && IsIdent(b) && (IsUint(a) || a in xs) && (IsUint(b) || b in xs) && RankRight(xs)
    ensures IdentCmp(a, b) == SemverIdentCmp(a, b)
  {
    if !IsUint(a) && !IsUint(b) {
      ForeignAgrees(a, b, xs);
    } else if !IsUint(b) {
      assert Foreign(b, xs);
      UintBelow(a, b);
    } else if !IsUint(a) {
      assert Foreign(a, xs);
      UintBelow(b, a);
    }
  }

  lemma {:induction false} IdentsAgree(a: seq<string>, b: seq<string>, xs: iset<string>)
    requires AreIdents(a) && AreIdents(b) && RankRight(xs)
    requires forall i | 0 <= i < |a| :: IsUint(a[i]) || a[i] in xs
    requires forall i | 0 <= i < |b| :: IsUint(b[i]) || b[i] in xs
    ensures IdentsCmp(a, b) == SemverIdentsCmp(a, b)
  {
    if a != [] && b != [] {
      IdentAgrees(a[0], b[0], xs);
      IdentsAgree(a[1..], b[1..], xs);
    }
  }

  lemma VersionsAgree(v: Version, o: Version, xs: iset<string>)
    requires UsesOnly(v, xs) && UsesOnly(o, xs) && RankRight(xs)
    ensures Compare(v, o) == Precedence(v, o)
  {
    ThreeComponents(v.components, o.components);
    if v.preRelease != "" && o.preRelease != "" {
      ParsedIdents(v);
      ParsedIdents(o);
      IdentsAgree(Split(v.preRelease), Split(o.preRelease), xs);
    }
  }

  lemma TaggedPrecedence(x: string, y: string)
    requires IsIdent(x) && IsIdent(y)
    ensures Precedence(Tagged(x), Tagged(y)) == SemverIdentCmp(x, y)
  {
    SplitAtDot(x, "");
    SplitAtDot(y, "");
    assert [x][1..] == [] && [y][1..] == [];
    assert SemverIdentsCmp([x][1..], [y][1..]) == 0;
  }

  lemma Disagreement(x: string, y: string, xs: iset<string>)
    requires IsIdent(x) && IsIdent(y) && (IsUint(x) || x in xs) && (IsUint(y) || y in xs)
    requires IdentCmp(x, y) != SemverIdentCmp(x, y)
    ensures !AgreesOver(xs)
  {
    TaggedOk(x, xs);
    TaggedOk(y, xs);
    TaggedCompare(x, y);
    TaggedPrecedence(x, y);
    assert Compare(Tagged(x), Tagged(y)) != Precedence(Tagged(x), Tagged(y));
  }

  lemma RanksWrong(xs: iset<string>)
    requires (forall x | x in xs :: IsIdent(x)) && !RankRight(xs)
    ensures !AgreesOver(xs)
  {
    if x :| Foreign(x, xs) && StrCmp(NINES, x) >= 0 {
      NinesNumeral();
      NumeralIsUint(9999999999999999999);
      UintBelow(NINES, x);
      Disagreement(NINES, x, xs);
    } else {
      var y, z :| Foreign(y, xs) && Foreign(z, xs) && IsNumeric(y) && (!IsNumeric(z) || |y| < |z|) && StrCmp(y, z) >= 0;
      ForeignOrder(y, z);
      Disagreement(y, z, xs);
    }
  }

  /** Over the versions whose identifiers are uints or come from xs, the comparison
      is the standard's precedence exactly when, as strings, the identifiers of xs
      that are not uints are above the largest 19-digit number, and the numbers
      among them are below the longer numbers and the non-numbers of xs. */
  lemma PrecedenceExact(xs: iset<string>)
    requires forall x | x in xs :: IsIdent(x)
    ensures AgreesOver(xs) <==> RankRight(xs)
  {
    if RankRight(xs) {
      forall v, o | UsesOnly(v, xs) && UsesOnly(o, xs) ensures Compare(v, o) == Precedence(v, o) {
        VersionsAgree(v, o, xs);
      }
    } else {
      RanksWrong(xs);
    }
  }

  /** In particular it is enough that identifiers start with a letter. */
  lemma LettersRankRight(xs: iset<string>)
    requires forall x | x in xs :: IsIdent(x) && x[0] > '9'
    ensures AgreesOver(xs) && TransitiveOver(xs)
  {
    assert forall x | x in xs :: StrCmp(NINES, x) < 0 && !IsNumeric(x);
    PrecedenceExact(xs);
    TransitiveExact(xs);
  }

  const TWENTY_NINES := "99999999999999999999"
  const TEN_TO_20 := "100000000000000000000"

  lemma HugeIdents()
    ensures IsIdent(TWENTY_NINES) && !IsUint(TWENTY_NINES) && |TWENTY_NINES| == 20 && IsNumeric(TWENTY_NINES)
    ensures IsIdent(TEN_TO_20) && !IsUint(TEN_TO_20) && |TEN_TO_20| == 21 && IsNumeric(TEN_TO_20)
  {
    TenTo19();
    DecimalAtLeast(TWENTY_NINES, 9);
    DecimalAtLeast(TEN_TO_20, 1);
    assert Pow(10, 20) == 10 * Pow(10, 19);
  }

  /** The standard puts the shorter of two numbers first; beyond 64 bits the code
      puts it last whenever it starts with the larger digit. */
  lemma HugeSwap(y: string, z: string)
    requires IsIdent(y) && IsIdent(z) && IsNumeric(y) && IsNumeric(z) && !IsUint(y) && !IsUint(z)
    requires |y| < |z| && y[0] > z[0] && z[0] != '0'
    ensures Compare(Tagged(y), Tagged(z)) == 1 && Precedence(Tagged(y), Tagged(z)) == -1
  {
    LongerIsLarger(y, z);
    TaggedCompare(y, z);
    TaggedPrecedence(y, z);
  }

  /** Such a pair, which the parser accepts: 20 nines and 10^20. */
  lemma HugeNumbersSwap()
    ensures SemverOk(Tagged(TWENTY_NINES)) && SemverOk(Tagged(TEN_TO_20))
    ensures Compare(Tagged(TWENTY_NINES), Tagged(TEN_TO_20)) == 1
    ensures Precedence(Tagged(TWENTY_NINES), Tagged(TEN_TO_20)) == -1
  {
    HugeIdents();
    HugeSwap(TWENTY_NINES, TEN_TO_20);
    TaggedOk(TWENTY_NINES, iset{TWENTY_NINES});
    TaggedOk(TEN_TO_20, iset{TEN_TO_20});
  }
}
