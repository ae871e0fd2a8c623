/** compareInternal of util/version/version.go: an antisymmetric comparison whose
    components follow the zero-padded lexicographic order, and when it is zero. */
module VersionOrder {
  import opened Optional
  import opened VersionText
  import opened VersionParse
  import opened VersionRoundTrip

  function Sign(x: int, y: int): (c: int) {
    if x < y then -1 else if x > y then 1 else 0
  }

  // --------------------------------------------------------------- components

  function Head(a: seq<nat>): nat { if a == [] then 0 else a[0] }

  function Tail(a: seq<nat>): seq<nat> { if a == [] then [] else a[1..] }

  /** Lexicographic order of components, the shorter list padded with zeros. */
  function PaddedCmp(a: seq<nat>, b: seq<nat>): (c: int)
    ensures c == -1 || c == 0 || c == 1
    decreases |a| + |b|
  {
    if a == [] && b == [] then 0
    else if Head(a) != Head(b) then Sign(Head(a), Head(b))
    else PaddedCmp(Tail(a), Tail(b))
  }

  predicate OnlyZeros(a: seq<nat>) {
    forall i | 0 <= i < |a| :: a[i] == 0
  }

  lemma {:induction false} PaddedCmpEmpty(a: seq<nat>)
    ensures PaddedCmp(a, []) == if OnlyZeros(a) then 0 else 1
    ensures PaddedCmp([], a) == if OnlyZeros(a) then 0 else -1
  {
    if a != [] {
      PaddedCmpEmpty(a[1..]);
      assert OnlyZeros(a) <==> a[0] == 0 && OnlyZeros(a[1..]) by {
        assert forall i | 0 <= i < |a| - 1 :: a[1..][i] == a[i + 1];
        assert forall i | 1 <= i < |a| :: a[i] == a[1..][i - 1];
      }
    }
  }

  /** A common prefix does not matter. */
  lemma {:induction false} PaddedCmpSkip(a: seq<nat>, b: seq<nat>, n: nat)
    requires n <= |a| && n <= |b| && a[..n] == b[..n]
    ensures PaddedCmp(a, b) == PaddedCmp(a[n..], b[n..])
  {
    if n > 0 {
      assert a[0] == a[..n][0] == b[..n][0] == b[0];
      assert a[1..][..n - 1] == a[..n][1..] && b[1..][..n - 1] == b[..n][1..];
      PaddedCmpSkip(a[1..], b[1..], n - 1);
      assert a[1..][n - 1..] == a[n..] && b[1..][n - 1..] == b[n..];
    } else {
      assert a[0..] == a && b[0..] == b;
    }
  }

  lemma {:induction false} PaddedCmpFlip(a: seq<nat>, b: seq<nat>)
    ensures PaddedCmp(a, b) == -PaddedCmp(b, a)
    decreases |a| + |b|
  {
    if a != [] || b != [] {
      PaddedCmpFlip(Tail(a), Tail(b));
    }
  }

  lemma {:induction false} PaddedCmpTransitive(a: seq<nat>, b: seq<nat>, c: seq<nat>)
    requires PaddedCmp(a, b) <= 0 && PaddedCmp(b, c) <= 0
    ensures PaddedCmp(a, c) <= 0
    ensures PaddedCmp(a, c) == 0 ==> PaddedCmp(a, b) == 0 && PaddedCmp(b, c) == 0
    decreases |a| + |b| + |c|
  {
    if a != [] || b != [] || c != [] {
      PaddedStep(a, b);
      PaddedStep(b, c);
      PaddedStep(a, c);
      if Head(a) == Head(b) == Head(c) {
        PaddedCmpTransitive(Tail(a), Tail(b), Tail(c));
      }
    }
  }

  lemma PaddedStep(a: seq<nat>, b: seq<nat>)
    ensures PaddedCmp(a, b) ==
            if Head(a) != Head(b) then Sign(Head(a), Head(b)) else PaddedCmp(Tail(a), Tail(b))
  {
  }

  /** On lists of one length, comparing equal is being equal. */
  lemma {:induction false} PaddedCmpZero(a: seq<nat>, b: seq<nat>)
    requires |a| == |b|
    ensures PaddedCmp(a, b) == 0 <==> a == b
  {
    if a != [] {
      PaddedCmpZero(a[1..], b[1..]);
      assert a == [a[0]] + a[1..] && b == [b[0]] + b[1..];
    }
  }

  // -------------------------------------------------------------- identifiers

  /** Go's string order. */
  function StrCmp(s: string, t: string): (c: int)
    ensures c == -1 || c == 0 || c == 1
  {
    if s == "" && t == "" then 0
    else if s == "" then -1
    else if t == "" then 1
    else if s[0] != t[0] then Sign(s[0] as int, t[0] as int)
    else StrCmp(s[1..], t[1..])
  }

  lemma {:induction false} StrCmpFlip(s: string, t: string)
    ensures StrCmp(s, t) == -StrCmp(t, s)
  {
    if s != "" && t != "" {
      StrCmpFlip(s[1..], t[1..]);
    }
  }

  lemma {:induction false} StrCmpZero(s: string, t: string)
    ensures StrCmp(s, t) == 0 <==> s == t
  {
    if s != "" && t != "" {
      StrCmpZero(s[1..], t[1..]);
      assert s == [s[0]] + s[1..] && t == [t[0]] + t[1..];
    }
  }

  lemma {:induction false} StrCmpTransitive(s: string, t: string, u: string)
    requires StrCmp(s, t) < 0 && StrCmp(t, u) < 0
    ensures StrCmp(s, u) < 0
  {
    if s != "" && t != "" && u != "" && s[0] == t[0] == u[0] {
      StrCmpTransitive(s[1..], t[1..], u[1..]);
    }
  }

  /** Two identifiers: as numbers if both are uints, otherwise as strings. */
  function IdentCmp(a: string, b: string): (c: int)
    ensures c == -1 || c == 0 || c == 1
  {
    if ParseUint(a).Some? && ParseUint(b).Some? then Sign(ParseUint(a).value, ParseUint(b).value)
    else StrCmp(a, b)
  }

  function IdentsCmp(a: seq<string>, b: seq<string>): (c: int)
    ensures c == -1 || c == 0 || c == 1
  {
    if a == [] && b == [] then 0
    else if a == [] then -1
    else if b == [] then 1
    else if IdentCmp(a[0], b[0]) != 0 then IdentCmp(a[0], b[0])
    else IdentsCmp(a[1..], b[1..])
  }

  lemma {:induction false} IdentsCmpFlip(a: seq<string>, b: seq<string>)
    ensures IdentsCmp(a, b) == -IdentsCmp(b, a)
  {
    if a != [] && b != [] {
      StrCmpFlip(a[0], b[0]);
      IdentsCmpFlip(a[1..], b[1..]);
    }
  }

  lemma {:induction false} IdentsCmpSelf(a: seq<string>)
    ensures IdentsCmp(a, a) == 0
  {
    if a != [] {
      StrCmpZero(a[0], a[0]);
      IdentsCmpSelf(a[1..]);
    }
  }

  /** Pre-release text: having none ranks above having one. */
  function PreCmp(p: string, q: string): (c: int)
    ensures c == -1 || c == 0 || c == 1
  {
    if p == "" || q == "" then (if p == q then 0 else if p == "" then 1 else -1)
    else IdentsCmp(Split(p), Split(q))
  }

  function Compare(v: Version, o: Version): (c: int)
    ensures c == -1 || c == 0 || c == 1
  {
    if PaddedCmp(v.components, o.components) != 0 then PaddedCmp(v.components, o.components)
    else if v.semver && o.semver then PreCmp(v.preRelease, o.preRelease)
    else 0
  }

  // ------------------------------------------------------------- compareInternal

  method OnlyZerosLoop(nums: seq<nat>) returns (r: bool)
    ensures r == OnlyZeros(nums)
  {
    var i := 0;
    while i < |nums|
      invariant 0 <= i <= |nums|
      invariant forall j | 0 <= j < i :: nums[j] == 0
    {
      if nums[i] != 0 {
        return false;
      }
      i := i + 1;
    }
    return true;
  }

  method CompareComponents(v: seq<nat>, o: seq<nat>) returns (c: int)
    ensures c == PaddedCmp(v, o)
  {
    var i := 0;
    while i < |v| && i < |o|
      invariant 0 <= i <= |v| && i <= |o|
      invariant v[..i] == o[..i]
    {
      PaddedCmpSkip(v, o, i);
      if o[i] < v[i] {
        return 1;
      } else if o[i] > v[i] {
        return -1;
      }
      i := i + 1;
    }
    PaddedCmpSkip(v, o, i);
    PaddedCmpEmpty(v[i..]);
    PaddedCmpEmpty(o[i..]);
    if |o| < |v| {
      var z := OnlyZerosLoop(v[|o|..]);
      if !z {
        return 1;
      }
    } else if |o| > |v| {
      var z := OnlyZerosLoop(o[|v|..]);
      if !z {
        return -1;
      }
    }
    return 0;
  }

  method CompareIdentifiers(vPR: seq<string>, oPR: seq<string>) returns (c: int)
    ensures c == IdentsCmp(vPR, oPR)
  {
    var i := 0;
    while i < |vPR| && i < |oPR|
      invariant 0 <= i <= |vPR| && i <= |oPR|
      invariant IdentsCmp(vPR, oPR) == IdentsCmp(vPR[i..], oPR[i..])
    {
      assert vPR[i..][1..] == vPR[i + 1..] && oPR[i..][1..] == oPR[i + 1..];
      StrCmpFlip(oPR[i], vPR[i]);
      var vNum, oNum := ParseUint(vPR[i]), ParseUint(oPR[i]);
      if vNum.Some? && oNum.Some? {
        if oNum.value < vNum.value {
          return 1;
        } else if oNum.value > vNum.value {
          return -1;
        }
      } else if StrCmp(oPR[i], vPR[i]) < 0 {
        return 1;
      } else if StrCmp(oPR[i], vPR[i]) > 0 {
        return -1;
      }
      i := i + 1;
    }
    return Sign(|vPR|, |oPR|);
  }

  method CompareInternal(v: Version, o: Version) returns (c: int)
    ensures c == Compare(v, o)
  {
    c := CompareComponents(v.components, o.components);
    if c != 0 {
      return c;
    }
    if !v.semver || !o.semver {
      return 0;
    }
    if v.preRelease == "" && o.preRelease != "" {
      return 1;
    } else if v.preRelease != "" && o.preRelease == "" {
      return -1;
    } else if v.preRelease == o.preRelease {
      IdentsCmpSelf(Split(v.preRelease));
      return 0;
    }
    c := CompareIdentifiers(Split(v.preRelease), Split(o.preRelease));
  }

  predicate LessThan(v: Version, o: Version) { Compare(v, o) == -1 }

  predicate AtLeast(v: Version, min: Version) { Compare(v, min) != -1 }

  /** Swapping the arguments flips the sign, for all versions of both kinds, so
      v is at least o exactly when o is not greater than v. */
  lemma CompareFlip(v: Version, o: Version)
    ensures Compare(v, o) == -Compare(o, v)
    ensures AtLeast(v, o) <==> LessThan(o, v) || Compare(v, o) == 0
    ensures !(LessThan(v, o) && LessThan(o, v))
  {
    PaddedCmpFlip(v.components, o.components);
    IdentsCmpFlip(Split(v.preRelease), Split(o.preRelease));
  }

  // ----------------------------------------- equality of parsed versions

  /** The identifiers that survive ParseSemantic. */
  predicate IsIdent(x: string) {
    x != "" && All(IsIdentChar, x) && (ParseUint(x).Some? ==> NoLeadingZero(x))
  }

  predicate AreIdents(xs: seq<string>) {
    forall i | 0 <= i < |xs| :: IsIdent(xs[i])
  }

  lemma ParsedIdents(v: Version)
    requires SemverOk(v) && v.preRelease != ""
    ensures AreIdents(Split(v.preRelease))
  {
  }

  lemma IdentCmpZero(a: string, b: string)
    requires IsIdent(a) && IsIdent(b)
    ensures IdentCmp(a, b) == 0 <==> a == b
  {
    StrCmpZero(a, b);
    if ParseUint(a).Some? && ParseUint(b).Some? {
      NumeralDecimal(a);
      NumeralDecimal(b);
    }
  }

  lemma {:induction false} IdentsCmpZero(a: seq<string>, b: seq<string>)
    requires AreIdents(a) && AreIdents(b)
    ensures IdentsCmp(a, b) == 0 <==> a == b
  {
    if a != [] && b != [] {
      IdentCmpZero(a[0], b[0]);
      IdentsCmpZero(a[1..], b[1..]);
      assert a == [a[0]] + a[1..] && b == [b[0]] + b[1..];
    }
  }

  /** Parsed semantic versions compare equal exactly when everything but the
      build metadata is equal. */
  lemma CompareZeroExact(v: Version, o: Version)
    requires SemverOk(v) && SemverOk(o)
    ensures Compare(v, o) == 0 <==> v.components == o.components && v.preRelease == o.preRelease
  {
    PaddedCmpZero(v.components, o.components);
    if v.preRelease != "" && o.preRelease != "" {
      ParsedIdents(v);
      ParsedIdents(o);
      IdentsCmpZero(Split(v.preRelease), Split(o.preRelease));
      JoinSplit(v.preRelease);
      JoinSplit(o.preRelease);
    }
  }
}
