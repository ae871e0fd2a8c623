/** What compareInternal decides, said with indices and characters only: the first
    difference counts, in components, in identifiers and in their characters. */
module VersionLexicographic {
  import opened Optional
  import opened VersionText
  import opened VersionParse
  import opened VersionOrder

  // ------------------------------------------------------------------ strings

  /** s is a proper start of t, or has the smaller character at the first difference. */
  predicate Before(s: string, t: string) {
    exists n | 0 <= n <= |s| :: DiffersAt(s, t, n)
  }

  predicate DiffersAt(s: string, t: string, n: int) {
    && 0 <= n <= |s| && n <= |t| && s[..n] == t[..n]
    && n < |t| && (n == |s| || s[n] < t[n])
  }

  lemma BeforeStep(s: string, t: string)
    requires s != "" && t != "" && s[0] == t[0]
    ensures Before(s, t) <==> Before(s[1..], t[1..])
  {
    if Before(s, t) {
      var n :| 0 <= n <= |s| && DiffersAt(s, t, n);
      assert n > 0;
      assert s[1..][..n - 1] == s[..n][1..] && t[1..][..n - 1] == t[..n][1..];
      assert DiffersAt(s[1..], t[1..], n - 1);
    }
    if Before(s[1..], t[1..]) {
      var n :| 0 <= n <= |s[1..]| && DiffersAt(s[1..], t[1..], n);
      assert s[..n + 1] == [s[0]] + s[1..][..n] && t[..n + 1] == [t[0]] + t[1..][..n];
      assert DiffersAt(s, t, n + 1);
    }
  }

  lemma BeforeFirst(s: string, t: string)
    requires s == "" || t == "" || s[0] != t[0]
    ensures Before(s, t) <==> t != "" && (s == "" || s[0] < t[0])
  {
    if Before(s, t) {
      var n :| 0 <= n <= |s| && DiffersAt(s, t, n);
      assert s[..n] == t[..n];
    }
    if t != "" && (s == "" || s[0] < t[0]) {
      assert DiffersAt(s, t, 0);
    }
  }

  lemma {:induction false} StrCmpExact(s: string, t: string)
    ensures StrCmp(s, t) < 0 <==> Before(s, t)
    ensures StrCmp(s, t) > 0 <==> Before(t, s)
    ensures StrCmp(s, t) == 0 <==> s == t
  {
    StrCmpZero(s, t);
    if s != "" && t != "" && s[0] == t[0] {
      StrCmpExact(s[1..], t[1..]);
      BeforeStep(s, t);
      BeforeStep(t, s);
    } else {
      BeforeFirst(s, t);
      BeforeFirst(t, s);
    }
  }

  // --------------------------------------------------------------- components

  function At(a: seq<nat>, i: nat): nat { if i < |a| then a[i] else 0 }

  ghost predicate PadEqual(a: seq<nat>, b: seq<nat>) {
    forall i: nat :: At(a, i) == At(b, i)
  }

  /** At the first index where the lists differ, zeros appended, a has the smaller. */
  ghost predicate PadBelow(a: seq<nat>, b: seq<nat>) {
    exists i: nat :: PadBelowAt(a, b, i)
  }

  ghost predicate PadBelowAt(a: seq<nat>, b: seq<nat>, i: nat) {
    At(a, i) < At(b, i) && forall j: nat | j < i :: At(a, j) == At(b, j)
  }

  lemma TailAt(a: seq<nat>, i: nat)
    ensures At(Tail(a), i) == At(a, i + 1) && At(a, 0) == Head(a)
  {
  }

  lemma PadStep(a: seq<nat>, b: seq<nat>)
    requires Head(a) == Head(b)
    ensures PadBelow(a, b) <==> PadBelow(Tail(a), Tail(b))
    ensures PadEqual(a, b) <==> PadEqual(Tail(a), Tail(b))
  {
    forall i: nat ensures At(Tail(a), i) == At(a, i + 1) && At(Tail(b), i) == At(b, i + 1) {
      TailAt(a, i);
      TailAt(b, i);
    }
    if PadBelow(a, b) {
      var i: nat :| PadBelowAt(a, b, i);
      assert i > 0;
      assert PadBelowAt(Tail(a), Tail(b), i - 1);
    }
    if PadBelow(Tail(a), Tail(b)) {
      var i: nat :| PadBelowAt(Tail(a), Tail(b), i);
      assert forall j: nat | 0 < j < i + 1 :: At(a, j) == At(Tail(a), j - 1) && At(b, j) == At(Tail(b), j - 1);
      assert PadBelowAt(a, b, i + 1);
    }
    if PadEqual(Tail(a), Tail(b)) {
      forall i: nat ensures At(a, i) == At(b, i) {
        if i > 0 {
          assert At(a, i) == At(Tail(a), i - 1) && At(b, i) == At(Tail(b), i - 1);
        }
      }
    }
  }

  lemma PadFirst(a: seq<nat>, b: seq<nat>)
    requires Head(a) != Head(b)
    ensures (PadBelow(a, b) <==> Head(a) < Head(b)) && !PadEqual(a, b)
  {
    TailAt(a, 0);
    TailAt(b, 0);
    if Head(a) < Head(b) {
      assert PadBelowAt(a, b, 0);
    }
    if PadBelow(a, b) {
      var i: nat :| PadBelowAt(a, b, i);
      assert i == 0;
    }
  }

  lemma {:induction false} PaddedCmpExact(a: seq<nat>, b: seq<nat>)
    ensures PaddedCmp(a, b) < 0 <==> PadBelow(a, b)
    ensures PaddedCmp(a, b) == 0 <==> PadEqual(a, b)
    decreases |a| + |b|
  {
    if a == [] && b == [] {
      assert forall i: nat :: At(a, i) == At(b, i);
    } else if Head(a) != Head(b) {
      PadFirst(a, b);
    } else {
      PaddedCmpExact(Tail(a), Tail(b));
      PadStep(a, b);
    }
  }

  // -------------------------------------------------------------- identifiers

  predicate BothUints(a: string, b: string) {
    ParseUint(a).Some? && ParseUint(b).Some?
  }

  predicate SameIdent(a: string, b: string) {
    if BothUints(a, b) then ParseUint(a).value == ParseUint(b).value else a == b
  }

  /** By value if both fit in 64 bits, and as strings otherwise. */
  predicate IdentBelow(a: string, b: string) {
    if BothUints(a, b) then ParseUint(a).value < ParseUint(b).value else Before(a, b)
  }

  /** a ends while b goes on, or has the lower identifier at the first difference. */
  predicate IdentsBelow(a: seq<string>, b: seq<string>) {
    exists n | 0 <= n <= |a| :: IdentsDifferAt(a, b, n)
  }

  predicate IdentsDifferAt(a: seq<string>, b: seq<string>, n: int) {
    && 0 <= n <= |a| && n < |b| && (forall j | 0 <= j < n :: SameIdent(a[j], b[j]))
    && (n == |a| || IdentBelow(a[n], b[n]))
  }

  lemma IdentCmpExact(a: string, b: string)
    ensures IdentCmp(a, b) < 0 <==> IdentBelow(a, b)
    ensures IdentCmp(a, b) == 0 <==> SameIdent(a, b)
  {
    StrCmpExact(a, b);
  }

  lemma IdentsBelowStep(a: seq<string>, b: seq<string>)
    requires a != [] && b != [] && SameIdent(a[0], b[0]) && !IdentBelow(a[0], b[0])
    ensures IdentsBelow(a, b) <==> IdentsBelow(a[1..], b[1..])
  {
    if IdentsBelow(a, b) {
      var n :| 0 <= n <= |a| && IdentsDifferAt(a, b, n);
      assert forall j | 0 <= j < n - 1 :: a[1..][j] == a[j + 1] && b[1..][j] == b[j + 1];
      assert IdentsDifferAt(a[1..], b[1..], n - 1);
    }
    if IdentsBelow(a[1..], b[1..]) {
      var n :| 0 <= n <= |a[1..]| && IdentsDifferAt(a[1..], b[1..], n);
      assert forall j | 1 <= j < n + 1 :: a[j] == a[1..][j - 1] && b[j] == b[1..][j - 1];
      assert IdentsDifferAt(a, b, n + 1);
    }
  }

  lemma IdentsBelowFirst(a: seq<string>, b: seq<string>)
    requires a == [] || b == [] || !SameIdent(a[0], b[0])
    ensures IdentsBelow(a, b) <==> b != [] && (a == [] || IdentBelow(a[0], b[0]))
  {
    if IdentsBelow(a, b) {
      var n :| 0 <= n <= |a| && IdentsDifferAt(a, b, n);
      assert n == 0;
    }
    if b != [] && (a == [] || IdentBelow(a[0], b[0])) {
      assert IdentsDifferAt(a, b, 0);
    }
  }

  lemma {:induction false} IdentsCmpExact(a: seq<string>, b: seq<string>)
    ensures IdentsCmp(a, b) < 0 <==> IdentsBelow(a, b)
  {
    if a != [] && b != [] {
      IdentCmpExact(a[0], b[0]);
    }
    if a != [] && b != [] && IdentCmp(a[0], b[0]) == 0 {
      IdentsCmpExact(a[1..], b[1..]);
      IdentsBelowStep(a, b);
    } else {
      IdentsBelowFirst(a, b);
    }
  }

  // ----------------------------------------------------------------- versions

  /** A pre-release ranks below none, and two rank by their identifiers. */
  predicate PreBelow(p: string, q: string) {
    p != "" && (q == "" || IdentsBelow(Split(p), Split(q)))
  }

  ghost predicate Below(v: Version, o: Version) {
    PadBelow(v.components, o.components) ||
    (PadEqual(v.components, o.components) && v.semver && o.semver && PreBelow(v.preRelease, o.preRelease))
  }

  /** The three outcomes of the comparison, for all versions of both kinds. */
  lemma CompareExact(v: Version, o: Version)
    ensures Compare(v, o) == -1 <==> Below(v, o)
    ensures Compare(v, o) == 1 <==> Below(o, v)
  {
    OneWay(v, o);
    OneWay(o, v);
    CompareFlip(v, o);
  }

  lemma OneWay(v: Version, o: Version)
    ensures Compare(v, o) < 0 <==> Below(v, o)
  {
    PaddedCmpExact(v.components, o.components);
    IdentsCmpExact(Split(v.preRelease), Split(o.preRelease));
  }
}
