/** The matcher of middleware/gin/observability.go and matchPath of token/token.go
    against the glob language. */
module PathMatchers {
  import opened Text
  import opened Wildcard
  import opened WildcardPatterns

  // ------------------------------------------- the matcher of the Gin middleware

  function GinMatch(text: string, pattern: string): bool {
    if pattern == "*" then true
    else if HasPrefix(pattern, "*") && HasSuffix(pattern, "*") then Contains(text, pattern[1..|pattern| - 1])
    else if HasPrefix(pattern, "*") then HasSuffix(text, pattern[1..])
    else if HasSuffix(pattern, "*") then HasPrefix(text, pattern[..|pattern| - 1])
    else text == pattern
  }

  /** The pattern without a star at either end. */
  function Core(pattern: string): string {
    var p := if pattern != "" && pattern[0] == '*' then pattern[1..] else pattern;
    if p != "" && p[|p| - 1] == '*' then p[..|p| - 1] else p
  }

  /** The middleware's matcher, for every pattern: the text is the core read literally,
      inner stars included, with anything before it if the pattern starts with a star,
      and anything after it if it ends with one. */
  ghost predicate Surrounds(text: string, pattern: string) {
    exists pre, post :: SurroundedBy(text, pattern, pre, post)
  }

  predicate SurroundedBy(text: string, pattern: string, pre: string, post: string) {
    && text == pre + Core(pattern) + post
    && (pre != "" ==> pattern != "" && pattern[0] == '*')
    && (post != "" ==> pattern != "" && pattern[|pattern| - 1] == '*')
  }

  lemma CoreBetween(pattern: string)
    requires pattern != "*" && HasPrefix(pattern, "*") && HasSuffix(pattern, "*")
    ensures |pattern| >= 2 && Core(pattern) == pattern[1..|pattern| - 1]
  {
    assert pattern[|pattern| - 1] == pattern[|pattern| - 1..][0] == '*';
    assert pattern[..|pattern|] == pattern;
  }

  lemma SurroundedMatches(text: string, pattern: string, pre: string, post: string)
    requires SurroundedBy(text, pattern, pre, post)
    ensures GinMatch(text, pattern)
  {
    var x := Core(pattern);
    if pattern != "*" && HasPrefix(pattern, "*") && HasSuffix(pattern, "*") {
      CoreBetween(pattern);
    }
    assert text[|pre|..|pre| + |x|] == x;
    assert OccursAt(text, x, |pre|);
    assert post == "" ==> text[|text| - |x|..] == x;
    assert pre == "" ==> text[..|x|] == x;
  }

  lemma MatchedSurrounds(text: string, pattern: string)
    requires GinMatch(text, pattern)
    ensures Surrounds(text, pattern)
  {
    var x := Core(pattern);
    if pattern == "*" {
      assert SurroundedBy(text, pattern, text, "");
    } else if HasPrefix(pattern, "*") && HasSuffix(pattern, "*") {
      CoreBetween(pattern);
      var i: nat :| i <= |text| && OccursAt(text, x, i);
      assert text == text[..i] + x + text[i + |x|..];
      assert SurroundedBy(text, pattern, text[..i], text[i + |x|..]);
    } else if HasPrefix(pattern, "*") {
      var pre := text[..|text| - |x|];
      assert text == pre + x + "";
      assert SurroundedBy(text, pattern, pre, "");
    } else if HasSuffix(pattern, "*") {
      assert text == "" + x + text[|x|..];
      assert SurroundedBy(text, pattern, "", text[|x|..]);
    } else {
      assert SurroundedBy(text, pattern, "", "");
    }
  }

  lemma GinMeaning(text: string, pattern: string)
    ensures GinMatch(text, pattern) <==> Surrounds(text, pattern)
  {
    if GinMatch(text, pattern) {
      MatchedSurrounds(text, pattern);
    }
    if pre, post :| SurroundedBy(text, pattern, pre, post) {
      SurroundedMatches(text, pattern, pre, post);
    }
  }

  /** The only stars are the first and the last character. */
  predicate StarsAtEnds(pattern: string) {
    forall i | 0 < i < |pattern| - 1 :: pattern[i] != '*'
  }

  lemma AnyText(s: string)
    ensures Glob(s, "*")
  {
    SuffixGlob(s, "");
    assert "*" + "" == "*";
  }

  lemma TrailingStar(s: string, x: string)
    requires '*' !in x
    ensures Glob(s, x + "*") <==> HasPrefix(s, x)
  {
    GlobPrefix(s, x, "*");
    if HasPrefix(s, x) {
      AnyText(s[|x|..]);
    }
  }

  lemma BothStars(s: string, x: string)
    requires '*' !in x
    ensures Glob(s, "*" + x + "*") <==> Contains(s, x)
  {
    assert "*" + x + "*" == "*" + (x + "*");
    GlobStar(s, x + "*");
    forall i: nat | i <= |s| ensures GlobFrom(s, x + "*", i) <==> OccursAt(s, x, i) {
      TrailingStar(s[i..], x);
      OccursIsPrefix(s, x, i);
    }
    if Contains(s, x) {
      var i: nat :| i <= |s| && OccursAt(s, x, i);
      assert GlobFrom(s, x + "*", i);
    }
  }

  lemma GinAgrees(s: string, pattern: string)
    requires StarsAtEnds(pattern)
    ensures GinMatch(s, pattern) <==> Glob(s, pattern)
  {
    if pattern == "*" {
      AnyText(s);
    } else if HasPrefix(pattern, "*") && HasSuffix(pattern, "*") {
      var x := pattern[1..|pattern| - 1];
      assert pattern == "*" + x + "*";
      BothStars(s, x);
    } else if HasPrefix(pattern, "*") {
      assert pattern == "*" + pattern[1..];
      SuffixGlob(s, pattern[1..]);
    } else if HasSuffix(pattern, "*") {
      assert pattern == pattern[..|pattern| - 1] + "*";
      TrailingStar(s, pattern[..|pattern| - 1]);
    } else {
      GlobLiteral(s, pattern);
    }
  }

  /** The pattern with its stars taken out. */
  function Strip(pattern: string): (s: string)
    ensures |s| <= |pattern|
  {
    if pattern == "" then ""
    else if pattern[0] == '*' then Strip(pattern[1..])
    else [pattern[0]] + Strip(pattern[1..])
  }

  lemma {:induction false} StripGlob(pattern: string)
    ensures Glob(Strip(pattern), pattern)
  {
    if pattern != "" {
      StripGlob(pattern[1..]);
    }
  }

  lemma {:induction false} StripConcat(a: string, b: string)
    ensures |Strip(a + b)| == |Strip(a)| + |Strip(b)|
  {
    if a == "" {
      assert a + b == b;
    } else {
      StripConcat(a[1..], b);
      assert (a + b)[1..] == a[1..] + b;
    }
  }

  lemma StripShorter(a: string)
    requires a != ""
    ensures a[0] == '*' || a[|a| - 1] == '*' ==> |Strip(a)| < |a|
  {
    var b := a[..|a| - 1];
    assert a == b + [a[|a| - 1]];
    StripConcat(b, [a[|a| - 1]]);
  }

  lemma InnerStar(pattern: string, i: nat)
    requires 0 < i < |pattern| - 1 && pattern[i] == '*'
    ensures !GinMatch(Strip(pattern), pattern) && Glob(Strip(pattern), pattern)
  {
    StripGlob(pattern);
    StrippedLength(pattern, i);
  }

  /** What is left is shorter than what any of the matcher's tests compares with. */
  lemma StrippedLength(pattern: string, i: nat)
    requires 0 < i < |pattern| - 1 && pattern[i] == '*'
    ensures var n, m := |Strip(pattern)|, |pattern|;
            && n < m
            && (pattern[0] == '*' || pattern[m - 1] == '*' ==> n < m - 1)
            && (pattern[0] == '*' && pattern[m - 1] == '*' ==> n < m - 2)
  {
    var a, b := pattern[..i], pattern[i + 1..];
    assert pattern == a + (['*'] + b);
    StripAround(a, b);
    assert a[0] == pattern[0] && b[|b| - 1] == pattern[|pattern| - 1];
  }

  lemma StripAround(a: string, b: string)
    requires a != "" && b != ""
    ensures var n, m := |Strip(a + (['*'] + b))|, |a| + 1 + |b|;
            && n < m
            && (a[0] == '*' || b[|b| - 1] == '*' ==> n < m - 1)
            && (a[0] == '*' && b[|b| - 1] == '*' ==> n < m - 2)
  {
    StripConcat(a, ['*'] + b);
    StripConcat(['*'], b);
    StripShorter(a);
    StripShorter(b);
  }

  /** The middleware's matcher decides the glob language on every text exactly
      for the patterns whose stars are the first or the last character. */
  lemma GinExact(pattern: string)
    ensures (forall s :: GinMatch(s, pattern) <==> Glob(s, pattern)) <==> StarsAtEnds(pattern)
  {
    if StarsAtEnds(pattern) {
      forall s ensures GinMatch(s, pattern) <==> Glob(s, pattern) {
        GinAgrees(s, pattern);
      }
    } else {
      var i :| 0 < i < |pattern| - 1 && pattern[i] == '*';
      InnerStar(pattern, i);
    }
  }

  lemma FinalStar(s: string, front: string)
    ensures TokenAccepts(s, front + "*") <==> Glob(s, front + "*")
  {
    TokenLanguage(s, front, "");
    assert front + "*" + "" == front + "*" && "*" + "" == "*";
    AnyText(s);
  }

  /** On those patterns both matchers decide the same language. */
  lemma MatchersAgree(s: string, pattern: string)
    requires StarsAtEnds(pattern)
    ensures GinMatch(s, pattern) <==> TokenAccepts(s, pattern)
    ensures TokenAccepts(s, pattern) <==> Glob(s, pattern)
  {
    GinAgrees(s, pattern);
    if HasSuffix(pattern, "*") {
      assert pattern == pattern[..|pattern| - 1] + "*";
      FinalStar(s, pattern[..|pattern| - 1]);
    } else if HasPrefix(pattern, "*") {
      assert pattern == "" + "*" + pattern[1..];
      OneStarSplit("", pattern[1..]);
      OneStarParts(s, pattern, "", pattern[1..]);
    } else {
      assert '*' !in pattern;
      SplitAt(pattern, '*', "");
      GlobLiteral(s, pattern);
    }
  }

  // ----------------------------------------------------------- token.matchPath

  /** matchPath: equality, two literal prefix tests, and the wildcard scan. */
  ghost predicate MatchPath(path: string, pattern: string) {
    || path == pattern
    || (if HasSuffix(pattern, "/*") then HasPrefix(path, pattern[..|pattern| - 2])
        else if HasSuffix(pattern, "*") then HasPrefix(path, pattern[..|pattern| - 1])
        else '*' in pattern && TokenAccepts(path, pattern))
  }

  /** The pattern ends in a star and holds another one, which the prefix tests
      then read as a character. */
  predicate StarBeforeFinalStar(pattern: string) {
    HasSuffix(pattern, "*") && '*' in pattern[..|pattern| - 1]
  }

  lemma {:induction false} StripHasNoStar(pattern: string)
    ensures '*' !in Strip(pattern)
  {
    if pattern != "" {
      StripHasNoStar(pattern[1..]);
    }
  }

  lemma NoStarPrefix(s: string, p: string)
    requires '*' !in s && '*' in p
    ensures !HasPrefix(s, p)
  {
    var i :| 0 <= i < |p| && p[i] == '*';
    if i < |s| {
      assert s[i] != p[i];
    }
  }

  lemma MissedPath(pattern: string)
    requires StarBeforeFinalStar(pattern)
    ensures Glob(Strip(pattern), pattern) && !MatchPath(Strip(pattern), pattern)
  {
    var s, x := Strip(pattern), pattern[..|pattern| - 1];
    StripGlob(pattern);
    StripHasNoStar(pattern);
    assert pattern == x + ['*'];
    NoStarPrefix(s, x);
    if HasSuffix(pattern, "/*") {
      var y := pattern[..|pattern| - 2];
      assert pattern[|pattern| - 2..][0] == '/';
      assert x == y + ['/'];
      NoStarPrefix(s, y);
    }
  }

  lemma FoundPath(path: string, pattern: string)
    requires !StarBeforeFinalStar(pattern) && Glob(path, pattern)
    ensures MatchPath(path, pattern)
  {
    if HasSuffix(pattern, "*") {
      var x := pattern[..|pattern| - 1];
      assert pattern == x + "*";
      TrailingStar(path, x);
      assert HasSuffix(pattern, "/*") ==> pattern[..|pattern| - 2] <= x;
    } else if '*' in pattern {
      TokenAgainstGlob(path, pattern);
    } else {
      GlobLiteral(path, pattern);
    }
  }

  /** matchPath never misses a path of the pattern's language, for exactly the
      patterns that do not hold a second star before a final one. */
  lemma MatchPathMissesExact(pattern: string)
    ensures (forall path :: Glob(path, pattern) ==> MatchPath(path, pattern)) <==> !StarBeforeFinalStar(pattern)
  {
    if StarBeforeFinalStar(pattern) {
      MissedPath(pattern);
    } else {
      forall path | Glob(path, pattern) ensures MatchPath(path, pattern) {
        FoundPath(path, pattern);
      }
    }
  }

  // A final slash and star cover more than the paths below: the bare prefix too,
  // and its extensions without a slash.
  lemma SlashStarExact(path: string, p: string)
    requires '*' !in p
    ensures MatchPath(path, p + "/*") <==> HasPrefix(path, p)
    ensures Glob(path, p + "/*") <==> HasPrefix(path, p + "/")
  {
    var x := p + "/";
    assert p + "/*" == x + "*";
    TrailingStar(path, x);
    assert (p + "/*")[..|p|] == p && (p + "/*")[|p|..] == "/*";
  }

  /** A pattern with a final star is a literal prefix, inner stars included: what is
      before the star, or before a slash and the star. */
  lemma FinalStarLiteral(path: string, p: string)
    requires p == "" || p[|p| - 1] != '/'
    ensures MatchPath(path, p + "*") <==> HasPrefix(path, p)
    ensures MatchPath(path, p + "/*") <==> HasPrefix(path, p)
  {
    OneStarPath(path, p + "*", p);
    SlashStarPath(path, p + "/*", p);
  }

  lemma OneStarPath(path: string, pattern: string, p: string)
    requires pattern == p + "*" && (p == "" || p[|p| - 1] != '/')
    ensures MatchPath(path, pattern) <==> HasPrefix(path, p)
  {
    assert pattern[..|p|] == p && pattern[|p|..] == "*";
    if p != "" {
      assert pattern[|p| - 1..][0] == p[|p| - 1];
    }
  }

  lemma SlashStarPath(path: string, pattern: string, p: string)
    requires pattern == p + "/*"
    ensures MatchPath(path, pattern) <==> HasPrefix(path, p)
  {
    assert pattern[..|p|] == p && pattern[|p|..] == "/*";
  }

  /** Every pattern is a text of its own language. */
  lemma {:induction false} GlobSelf(p: string)
    ensures Glob(p, p)
  {
    if p != "" {
      GlobSelf(p[1..]);
      assert p[0] == '*' ==> Glob(p[1..], p);
    }
  }

  /** When matchPath is the pattern's language: not before a final slash and star,
      before another final star only without a further one, and otherwise as for
      the scan. */
  ghost predicate PathSafe(pattern: string) {
    if HasSuffix(pattern, "/*") then false
    else if HasSuffix(pattern, "*") then '*' !in pattern[..|pattern| - 1]
    else !OverlapAll(SplitOn(pattern, '*'))
  }

  lemma SlashStarFails(pattern: string) returns (path: string)
    requires HasSuffix(pattern, "/*")
    ensures MatchPath(path, pattern) != Glob(path, pattern)
  {
    if StarBeforeFinalStar(pattern) {
      path := Strip(pattern);
      MissedPath(pattern);
    } else {
      path := pattern[..|pattern| - 2];
      assert pattern == path + "/*";
      assert pattern[..|pattern| - 1] == path + "/";
      SlashStarExact(path, path);
    }
  }

  /** Without a star at the end matchPath is the scan, or equality without any. */
  lemma PathIsScan(path: string, pattern: string)
    requires !HasSuffix(pattern, "*")
    ensures MatchPath(path, pattern) <==> TokenAccepts(path, pattern)
  {
    if '*' in pattern {
      GlobSelf(pattern);
      TokenAgainstGlob(pattern, pattern);
    } else {
      SplitAt(pattern, '*', "");
    }
  }

  lemma PathSafeAgrees(path: string, pattern: string)
    requires PathSafe(pattern)
    ensures MatchPath(path, pattern) <==> Glob(path, pattern)
  {
    if HasSuffix(pattern, "*") {
      var x := pattern[..|pattern| - 1];
      assert pattern == x + "*";
      TrailingStar(path, x);
    } else {
      PathIsScan(path, pattern);
      TokenExact(pattern);
    }
  }

  lemma PathUnsafe(pattern: string) returns (path: string)
    requires !PathSafe(pattern)
    ensures MatchPath(path, pattern) != Glob(path, pattern)
  {
    if HasSuffix(pattern, "/*") {
      path := SlashStarFails(pattern);
    } else if HasSuffix(pattern, "*") {
      path := Strip(pattern);
      MissedPath(pattern);
    } else {
      path := OverlapAccepted(pattern);
      PathIsScan(path, pattern);
    }
  }

  /** matchPath is the pattern's language on every path exactly for safe patterns. */
  lemma MatchPathExact(pattern: string)
    ensures (forall path :: MatchPath(path, pattern) <==> Glob(path, pattern)) <==> PathSafe(pattern)
  {
    if PathSafe(pattern) {
      forall path ensures MatchPath(path, pattern) <==> Glob(path, pattern) {
        PathSafeAgrees(path, pattern);
      }
    } else {
      var path := PathUnsafe(pattern);
    }
  }
}
