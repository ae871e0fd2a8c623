/** The wildcard scan of token/token.go against the glob language, in which a star
    stands for any text. */
module Wildcard {
  import opened Text

  /** The glob language: "*" matches any text, any other character itself. */
  predicate Glob(s: string, pattern: string)
    decreases |pattern|, |s|
  {
    if pattern == "" then s == ""
    else if pattern[0] == '*' then Glob(s, pattern[1..]) || (s != "" && Glob(s[1..], pattern))
    else s != "" && s[0] == pattern[0] && Glob(s[1..], pattern[1..])
  }

  predicate HasPrefix(s: string, p: string) { p <= s }

  predicate HasSuffix(s: string, p: string) { |p| <= |s| && s[|s| - |p|..] == p }

  /** p occurs in s at position i. */
  predicate OccursAt(s: string, p: string, i: nat) {
    i + |p| <= |s| && s[i..i + |p|] == p
  }

  predicate Contains(s: string, p: string) {
    exists i: nat | i <= |s| :: OccursAt(s, p, i)
  }

  /** strings.Index: the first occurrence, or -1. */
  function Index(s: string, p: string): (i: int)
    ensures -1 <= i
    ensures i >= 0 ==> OccursAt(s, p, i) && forall j: nat | j < i :: !OccursAt(s, p, j)
    ensures i == -1 ==> forall j: nat :: !OccursAt(s, p, j)
  {
    IndexFrom(s, p, 0)
  }

  function IndexFrom(s: string, p: string, k: nat): (i: int)
    ensures i == -1 || i >= k
    ensures i >= 0 ==> OccursAt(s, p, i) && forall j: nat | k <= j < i :: !OccursAt(s, p, j)
    ensures i == -1 ==> forall j: nat | k <= j :: !OccursAt(s, p, j)
    decreases |s| - k
  {
    if k > |s| then -1
    else if OccursAt(s, p, k) then k
    else IndexFrom(s, p, k + 1)
  }

  /** The parts occur in s one after the other, anywhere. */
  ghost predicate Embeds(s: string, parts: seq<string>)
    decreases |parts|
  {
    parts == [] || exists i: nat | i <= |s| :: OccursAt(s, parts[0], i) && Embeds(s[i + |parts[0]|..], parts[1..])
  }

  /** What token.matchWildcard decides, stated without its scan. */
  ghost predicate TokenAccepts(s: string, pattern: string) {
    var parts := SplitOn(pattern, '*');
    if |parts| == 1 then s == pattern
    else
      && HasPrefix(s, parts[0]) && HasSuffix(s, parts[|parts| - 1])
      && Embeds(s[|parts[0]|..], parts[1..|parts| - 1])
  }

  /** The end of the leftmost scan for the parts, or -1. */
  function ScanEnd(s: string, parts: seq<string>): (e: int)
    ensures -1 <= e <= |s|
    decreases |parts|
  {
    if parts == [] then 0
    else
      var i := Index(s, parts[0]);
      if i < 0 then -1
      else
        var e := ScanEnd(s[i + |parts[0]|..], parts[1..]);
        if e < 0 then -1 else i + |parts[0]| + e
  }

  // -------------------------------------------------- the exchange argument

  /** More text in front never spoils an embedding. */
  lemma EmbedsLater(s: string, i: nat, j: nat, parts: seq<string>)
    requires i <= j <= |s| && Embeds(s[j..], parts)
    ensures Embeds(s[i..], parts)
  {
    if parts != [] {
      var k: nat :| k <= |s[j..]| && OccursAt(s[j..], parts[0], k) && Embeds(s[j..][k + |parts[0]|..], parts[1..]);
      var m := j - i + k;
      assert s[i..][m..m + |parts[0]|] == s[j..][k..k + |parts[0]|];
      assert s[i..][m + |parts[0]|..] == s[j..][k + |parts[0]|..];
      assert OccursAt(s[i..], parts[0], m);
    }
  }

  /** The leftmost scan finds an embedding whenever there is one. */
  lemma {:induction false} ScanFinds(s: string, parts: seq<string>)
    ensures ScanEnd(s, parts) >= 0 <==> Embeds(s, parts)
    decreases |parts|
  {
    if parts != [] {
      var i := Index(s, parts[0]);
      if i >= 0 {
        ScanFinds(s[i + |parts[0]|..], parts[1..]);
      }
      FirstEmbeds(s, parts);
    }
  }

  /** It is enough to try the first occurrence of the first part. */
  lemma FirstEmbeds(s: string, parts: seq<string>)
    requires parts != []
    ensures var i := Index(s, parts[0]);
            Embeds(s, parts) <==> i >= 0 && Embeds(s[i + |parts[0]|..], parts[1..])
  {
    var p, i := parts[0], Index(s, parts[0]);
    if Embeds(s, parts) {
      var k: nat :| k <= |s| && OccursAt(s, p, k) && Embeds(s[k + |p|..], parts[1..]);
      EmbedsLater(s, i + |p|, k + |p|, parts[1..]);
    }
  }

  // --------------------------------------------------------- token.matchWildcard

  /** The scan over the middle parts. */
  method MatchWildcard(str: string, pattern: string) returns (r: bool)
    ensures r == TokenAccepts(str, pattern)
  {
    var parts := SplitOn(pattern, '*');
    if |parts| == 1 {
      return str == pattern;
    }
    if !HasPrefix(str, parts[0]) {
      return false;
    }
    if |parts[|parts| - 1]| > 0 && !HasSuffix(str, parts[|parts| - 1]) {
      return false;
    }
    ScanFinds(str[|parts[0]|..], parts[1..|parts| - 1]);
    r := ScanMiddle(str, |parts[0]|, parts[1..|parts| - 1]);
  }

  /** The loop: find each part at or after the end of the one before. */
  method ScanMiddle(str: string, start: nat, middle: seq<string>) returns (r: bool)
    requires start <= |str|
    ensures r == (ScanEnd(str[start..], middle) >= 0)
  {
    assert middle[0..] == middle;
    var currentPos: nat := start;
    for i := 0 to |middle|
      invariant currentPos <= |str|
      invariant Scans(str, currentPos, middle, i) <==> Scans(str, start, middle, 0)
    {
      var part := middle[i];
      ScanStep(str, currentPos, middle, i);
      if part != "" {
        var index := Index(str[currentPos..], part);
        if index == -1 {
          return false;
        }
        currentPos := currentPos + (index + |part|);
      }
    }
    return true;
  }

  /** The scan for the parts from i on succeeds from this position. */
  predicate Scans(str: string, pos: nat, parts: seq<string>, i: nat)
    requires pos <= |str| && i <= |parts|
  {
    ScanEnd(str[pos..], parts[i..]) >= 0
  }

  lemma ScanStep(str: string, pos: nat, parts: seq<string>, i: nat)
    requires pos <= |str| && i < |parts|
    ensures var p, k := parts[i], Index(str[pos..], parts[i]);
            Scans(str, pos, parts, i) <==>
            if p == "" then Scans(str, pos, parts, i + 1)
            else k >= 0 && Scans(str, pos + (k + |p|), parts, i + 1)
  {
    var s, p := str[pos..], parts[i];
    var k := Index(s, p);
    assert parts[i..][0] == p && parts[i..][1..] == parts[i + 1..];
    if p == "" {
      assert OccursAt(s, p, 0);
      assert s[0 + 0..] == s;
    } else if k >= 0 {
      assert s[k + |p|..] == str[pos + (k + |p|)..];
    }
  }

  // -------------------------------------------------------- against the language

  /** A star, then the parts with stars between them. */
  ghost predicate StarThen(s: string, parts: seq<string>)
    requires parts != []
    decreases |parts|
  {
    if |parts| == 1 then HasSuffix(s, parts[0])
    else exists i: nat :: OccursAt(s, parts[0], i) && StarThen(s[i + |parts[0]|..], parts[1..])
  }

  lemma StarThenAt(s: string, parts: seq<string>, i: nat)
    requires |parts| > 1 && OccursAt(s, parts[0], i) && StarThen(s[i + |parts[0]|..], parts[1..])
    ensures StarThen(s, parts)
  {
  }

  lemma StarThenWhere(s: string, parts: seq<string>) returns (i: nat)
    requires |parts| > 1 && StarThen(s, parts)
    ensures OccursAt(s, parts[0], i) && StarThen(s[i + |parts[0]|..], parts[1..])
  {
    i :| OccursAt(s, parts[0], i) && StarThen(s[i + |parts[0]|..], parts[1..]);
  }

  /** The glob language, part by part. */
  ghost predicate GlobParts(s: string, parts: seq<string>)
    requires parts != []
  {
    if |parts| == 1 then s == parts[0]
    else HasPrefix(s, parts[0]) && StarThen(s[|parts[0]|..], parts[1..])
  }

  lemma {:induction false} GlobLiteral(s: string, p: string)
    requires '*' !in p
    ensures Glob(s, p) <==> s == p
  {
    if p != "" && s != "" && s[0] == p[0] {
      GlobLiteral(s[1..], p[1..]);
      assert s == [s[0]] + s[1..] && p == [p[0]] + p[1..];
    }
  }

  lemma {:induction false} GlobPrefix(s: string, p: string, q: string)
    requires '*' !in p
    ensures Glob(s, p + q) <==> HasPrefix(s, p) && Glob(s[|p|..], q)
  {
    if p == "" {
      assert p + q == q && s[0..] == s;
    } else {
      assert (p + q)[1..] == p[1..] + q;
      if s != "" && s[0] == p[0] {
        GlobPrefix(s[1..], p[1..], q);
        assert s == [s[0]] + s[1..] && p == [p[0]] + p[1..];
        assert HasPrefix(s, p) ==> s[1..][|p| - 1..] == s[|p|..];
      }
    }
  }

  predicate GlobFrom(s: string, q: string, i: nat) {
    i <= |s| && Glob(s[i..], q)
  }

  /** A leading star skips any number of characters. */
  lemma {:induction false} GlobStar(s: string, q: string)
    ensures Glob(s, "*" + q) <==> exists i: nat :: GlobFrom(s, q, i)
  {
    assert ("*" + q)[1..] == q;
    assert s[0..] == s;
    assert GlobFrom(s, q, 0) <==> Glob(s, q);
    if s != "" {
      GlobStar(s[1..], q);
      forall i: nat ensures GlobFrom(s[1..], q, i) <==> GlobFrom(s, q, i + 1) {
        if i < |s| {
          assert s[1..][i..] == s[i + 1..];
        }
      }
      if exists i: nat :: GlobFrom(s, q, i) {
        var i: nat :| GlobFrom(s, q, i);
        assert i > 0 ==> GlobFrom(s[1..], q, i - 1);
      }
    }
  }

  lemma SuffixGlob(s: string, p: string)
    requires '*' !in p
    ensures Glob(s, "*" + p) <==> HasSuffix(s, p)
  {
    GlobStar(s, p);
    forall i: nat | i <= |s| ensures GlobFrom(s, p, i) <==> s[i..] == p {
      GlobLiteral(s[i..], p);
    }
    if HasSuffix(s, p) {
      assert GlobFrom(s, p, |s| - |p|);
    }
  }

  lemma {:induction false} StarIsParts(t: string, b: string)
    ensures Glob(t, "*" + b) <==> StarThen(t, SplitOn(b, '*'))
    decreases |b|, 1
  {
    if '*' !in b {
      SplitAt(b, '*', "");
      SuffixGlob(t, b);
    } else {
      var c, d := FirstSeparator(b, '*');
      SplitAt(c, '*', d);
      var parts := SplitOn(b, '*');
      assert parts[1..] == SplitOn(d, '*');
      GlobStar(t, b);
      forall i: nat
        ensures GlobFrom(t, b, i) <==> OccursAt(t, parts[0], i) && StarThen(t[i + |parts[0]|..], parts[1..])
      {
        SkipThenPart(t, b, c, d, i);
      }
      SameWitness(t, b, parts);
    }
  }

  lemma {:induction false} SkipThenPart(t: string, b: string, c: string, d: string, i: nat)
    requires '*' !in c && b == c + "*" + d
    ensures GlobFrom(t, b, i) <==> OccursAt(t, c, i) && StarThen(t[i + |c|..], SplitOn(d, '*'))
    decreases |b|, 0
  {
    if i <= |t| {
      assert b == c + ("*" + d);
      GlobPrefix(t[i..], c, "*" + d);
      OccursIsPrefix(t, c, i);
      if OccursAt(t, c, i) {
        StarIsParts(t[i + |c|..], d);
      }
    }
  }

  lemma SameWitness(t: string, b: string, parts: seq<string>)
    requires |parts| > 1
    requires forall i: nat :: GlobFrom(t, b, i) <==> OccursAt(t, parts[0], i) && StarThen(t[i + |parts[0]|..], parts[1..])
    ensures (exists i: nat :: GlobFrom(t, b, i)) <==> StarThen(t, parts)
  {
    if StarThen(t, parts) {
      var i := StarThenWhere(t, parts);
      assert GlobFrom(t, b, i);
    }
    if exists i: nat :: GlobFrom(t, b, i) {
      var i: nat :| GlobFrom(t, b, i);
      StarThenAt(t, parts, i);
    }
  }

  lemma OccursIsPrefix(t: string, c: string, i: nat)
    requires i <= |t|
    ensures OccursAt(t, c, i) <==> HasPrefix(t[i..], c)
    ensures OccursAt(t, c, i) ==> t[i..][|c|..] == t[i + |c|..]
  {
    if i + |c| <= |t| {
      assert t[i..][..|c|] == t[i..i + |c|];
    }
  }

  /** The language read part by part. */
  lemma GlobIsParts(s: string, pattern: string)
    ensures Glob(s, pattern) <==> GlobParts(s, SplitOn(pattern, '*'))
  {
    if '*' !in pattern {
      SplitAt(pattern, '*', "");
      GlobLiteral(s, pattern);
    } else {
      var a, b := FirstSeparator(pattern, '*');
      SplitAt(a, '*', b);
      assert pattern == a + ("*" + b);
      GlobPrefix(s, a, "*" + b);
      if HasPrefix(s, a) {
        StarIsParts(s[|a|..], b);
      }
      assert ([a] + SplitOn(b, '*'))[1..] == SplitOn(b, '*');
    }
  }

  lemma StarThenLater(s: string, i: nat, j: nat, parts: seq<string>)
    requires parts != [] && i <= j <= |s| && StarThen(s[j..], parts)
    ensures StarThen(s[i..], parts)
  {
    if |parts| > 1 {
      var k := StarThenWhere(s[j..], parts);
      var m := j - i + k;
      assert s[i..][m..m + |parts[0]|] == s[j..][k..k + |parts[0]|];
      assert s[i..][m + |parts[0]|..] == s[j..][k + |parts[0]|..];
      StarThenAt(s[i..], parts, m);
    } else {
      assert s[j..][|s| - j - |parts[0]|..] == s[i..][|s| - i - |parts[0]|..];
    }
  }

  /** A text is a star followed by the parts exactly when the leftmost scan of
      all but the last succeeds and leaves room for the last at the end. */
  lemma {:induction false} StarThenScan(s: string, parts: seq<string>)
    requires parts != []
    ensures var e, last := ScanEnd(s, parts[..|parts| - 1]), parts[|parts| - 1];
            StarThen(s, parts) <==> e >= 0 && HasSuffix(s, last) && e + |last| <= |s|
    decreases |parts|
  {
    if |parts| > 1 {
      FirstFollows(s, parts);
      var next := Index(s, parts[0]) + |parts[0]|;
      if Index(s, parts[0]) >= 0 {
        StarThenScan(s[next..], parts[1..]);
      }
      SameRoom(s, parts);
    }
  }

  /** Room after the first part is room in all. */
  lemma SameRoom(s: string, parts: seq<string>)
    requires |parts| > 1
    ensures var n := |parts|;
            var i, e, last := Index(s, parts[0]), ScanEnd(s, parts[..n - 1]), parts[n - 1];
            if i < 0 then e < 0
            else
              var t, rest := s[i + |parts[0]|..], parts[1..];
              var f := ScanEnd(t, rest[..|rest| - 1]);
              e >= 0 && HasSuffix(s, last) && e + |last| <= |s| <==> f >= 0 && HasSuffix(t, last) && f + |last| <= |t|
  {
    var n, i := |parts|, Index(s, parts[0]);
    assert parts[..n - 1][1..] == parts[1..][..n - 2];
    if i >= 0 {
      SuffixOfSuffix(s, i + |parts[0]|, parts[n - 1]);
    }
  }

  /** It is enough to try the first occurrence of the first part. */
  lemma FirstFollows(s: string, parts: seq<string>)
    requires |parts| > 1
    ensures var i := Index(s, parts[0]);
            StarThen(s, parts) <==> i >= 0 && StarThen(s[i + |parts[0]|..], parts[1..])
  {
    var i := Index(s, parts[0]);
    if StarThen(s, parts) {
      FirstServes(s, parts);
    }
    if i >= 0 && StarThen(s[i + |parts[0]|..], parts[1..]) {
      StarThenAt(s, parts, i);
    }
  }

  lemma FirstServes(s: string, parts: seq<string>)
    requires |parts| > 1 && StarThen(s, parts)
    ensures var i := Index(s, parts[0]); i >= 0 && StarThen(s[i + |parts[0]|..], parts[1..])
  {
    var n, i := |parts[0]|, Index(s, parts[0]);
    var k := StarThenWhere(s, parts);
    StarThenLater(s, i + n, k + n, parts[1..]);
  }

  lemma SuffixOfSuffix(s: string, k: nat, p: string)
    requires k <= |s|
    ensures HasSuffix(s[k..], p) <==> HasSuffix(s, p) && k + |p| <= |s|
  {
    if k + |p| <= |s| {
      assert s[k..][|s| - k - |p|..] == s[|s| - |p|..];
    }
  }

  /** The scan of the middle parts ends early enough for the last part. */
  predicate LeavesRoom(s: string, pattern: string) {
    var parts := SplitOn(pattern, '*');
    var n := |parts|;
    n > 1 && HasPrefix(s, parts[0]) ==>
      |parts[0]| + ScanEnd(s[|parts[0]|..], parts[1..n - 1]) + |parts[n - 1]| <= |s|
  }

  /** matchWildcard accepts every text of the language, and an accepted text is
      in the language exactly when the scan left room for the last part. */
  lemma TokenAgainstGlob(s: string, pattern: string)
    ensures Glob(s, pattern) <==> TokenAccepts(s, pattern) && LeavesRoom(s, pattern)
  {
    GlobIsParts(s, pattern);
    var parts := SplitOn(pattern, '*');
    var n := |parts|;
    if n == 1 {
      OnePart(pattern);
    } else if HasPrefix(s, parts[0]) {
      var t := s[|parts[0]|..];
      assert parts[1..][..n - 2] == parts[1..n - 1];
      StarThenScan(t, parts[1..]);
      ScanFinds(t, parts[1..n - 1]);
      SuffixOfSuffix(s, |parts[0]|, parts[n - 1]);
    }
  }

  lemma {:induction false} OnePart(pattern: string)
    requires |SplitOn(pattern, '*')| == 1
    ensures SplitOn(pattern, '*') == [pattern]
  {
    if '*' in pattern {
      var a, b := FirstSeparator(pattern, '*');
      SplitAt(a, '*', b);
    } else {
      SplitAt(pattern, '*', "");
    }
  }

  lemma {:induction false} SplitLast(front: string, last: string)
    requires '*' !in last
    ensures SplitOn(front + "*" + last, '*') == SplitOn(front, '*') + [last]
    decreases |front|
  {
    if '*' !in front {
      SplitAt(front, '*', last);
      SplitAt(last, '*', "");
    } else {
      var a, b := FirstSeparator(front, '*');
      SplitLast(b, last);
      SplitAt(a, '*', b);
      SplitAt(a, '*', b + "*" + last);
      assert front + "*" + last == a + "*" + (b + "*" + last);
    }
  }

  /** What matchWildcard accepts, in terms of the language: the pattern without
      its last part, and separately the last part as a suffix. */
  lemma TokenLanguage(s: string, front: string, last: string)
    requires '*' !in last
    ensures TokenAccepts(s, front + "*" + last) <==> Glob(s, front + "*") && Glob(s, "*" + last)
  {
    SplitLast(front, last);
    SplitLast(front, "");
    assert front + "*" + "" == front + "*";
    var fs := SplitOn(front, '*');
    assert (fs + [last])[1..|fs|] == (fs + [""])[1..|fs|];
    SuffixGlob(s, last);
    TokenAgainstGlob(s, front + "*");
    if HasPrefix(s, fs[0]) {
      ScanFinds(s[|fs[0]|..], (fs + [""])[1..|fs|]);
    }
  }
}
