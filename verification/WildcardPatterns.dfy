/** For which patterns the scan of token/token.go decides the glob language on every
    text. */
module WildcardPatterns {
  import opened Text
  import opened Wildcard

  // --------------------------------- the patterns on which the matcher is right

  function Total(parts: seq<string>): nat {
    if parts == [] then 0 else |parts[0]| + Total(parts[1..])
  }

  /** An end of p, and after it all of rest, fit into the literal tail. Both empty
      would be no overlap. */
  ghost predicate Reaches(p: string, rest: seq<string>, tail: string) {
    exists k: nat :: ReachesBy(p, rest, tail, k)
  }

  /** The end of p of length k is a start of the tail, and rest embeds after it. */
  ghost predicate ReachesBy(p: string, rest: seq<string>, tail: string, k: nat) {
    && k <= |p| && k <= |tail| && p[|p| - k..] == tail[..k]
    && Embeds(tail[k..], rest) && k + Total(rest) > 0
  }

  /** Some part before the last, with those between, reaches into the last. */
  ghost predicate OverlapAll(parts: seq<string>)
    requires parts != []
  {
    exists j: nat | j < |parts| - 1 :: OverlapAt(parts, j)
  }

  ghost predicate OverlapAt(parts: seq<string>, j: nat)
    requires j < |parts| - 1
  {
    var n := |parts| - 1;
    Reaches(parts[j], parts[j + 1..n], parts[n])
  }

  /** The same on the first part, the middle ones and the tail. */
  ghost predicate OverlapIn(p: string, rest: seq<string>, tail: string, j: nat)
    requires j <= |rest|
  {
    Reaches(if j == 0 then p else rest[j - 1], rest[j..], tail)
  }

  /** A text built around an overlap: accepted, and too short for the language. */
  lemma {:induction false} OverlapText(p: string, rest: seq<string>, tail: string, j: nat) returns (s: string)
    requires j <= |rest| && OverlapIn(p, rest, tail, j)
    ensures HasPrefix(s, p) && HasSuffix(s, tail) && Embeds(s[|p|..], rest)
    ensures |s| < |p| + Total(rest) + |tail|
    decreases j
  {
    if j == 0 {
      assert rest[0..] == rest;
      var k: nat :| ReachesBy(p, rest, tail, k);
      s := SharedText(p, tail, k);
    } else {
      assert rest[1..][j - 1..] == rest[j..];
      var t := OverlapText(rest[0], rest[1..], tail, j - 1);
      s := p + t;
      PrependPart(p, t, rest, tail);
    }
  }

  lemma {:induction false} TotalSnoc(parts: seq<string>)
    requires parts != []
    ensures Total(parts) == Total(parts[..|parts| - 1]) + |parts[|parts| - 1]|
  {
    if |parts| > 1 {
      TotalSnoc(parts[1..]);
      assert parts[1..][..|parts| - 2] == parts[..|parts| - 1][1..];
    }
  }

  /** p and the tail, sharing the k characters that end one and start the other. */
  lemma SharedText(p: string, tail: string, k: nat) returns (s: string)
    requires k <= |p| && k <= |tail| && p[|p| - k..] == tail[..k]
    ensures HasPrefix(s, p) && HasSuffix(s, tail)
    ensures |s| == |p| + |tail| - k && s[|p|..] == tail[k..]
  {
    s := p + tail[k..];
    assert s[|p| - k..] == p[|p| - k..] + tail[k..] == tail;
  }

  lemma PrependPart(p: string, t: string, middle: seq<string>, tail: string)
    requires HasSuffix(t, tail) && middle != [] && HasPrefix(t, middle[0])
    requires Embeds(t[|middle[0]|..], middle[1..])
    ensures HasPrefix(p + t, p) && HasSuffix(p + t, tail)
    ensures (p + t)[|p|..] == t && Embeds(t, middle)
  {
    assert (p + t)[|p + t| - |tail|..] == t[|t| - |tail|..];
    EmbedsAt(t, middle, 0);
  }

  /** A text of the language is as long as the literal parts together. */
  lemma {:induction false} StarThenLength(s: string, parts: seq<string>)
    requires parts != [] && StarThen(s, parts)
    ensures |s| >= Total(parts)
    decreases |parts|
  {
    if |parts| == 1 {
      assert parts[1..] == [];
    } else {
      var i := StarThenWhere(s, parts);
      StarThenLength(s[i + |parts[0]|..], parts[1..]);
    }
  }

  lemma GlobLength(s: string, pattern: string)
    requires Glob(s, pattern)
    ensures |s| >= Total(SplitOn(pattern, '*'))
  {
    GlobIsParts(s, pattern);
    var parts := SplitOn(pattern, '*');
    if |parts| == 1 {
      assert parts[1..] == [];
    } else {
      StarThenLength(s[|parts[0]|..], parts[1..]);
    }
  }

  /** One step of a scan that succeeds. */
  lemma ScanOn(s: string, parts: seq<string>) returns (i: nat)
    requires parts != [] && Embeds(s, parts)
    ensures i == Index(s, parts[0]) && OccursAt(s, parts[0], i)
    ensures var next := i + |parts[0]|;
            Embeds(s[next..], parts[1..]) && ScanEnd(s, parts) == next + ScanEnd(s[next..], parts[1..])
  {
    FirstEmbeds(s, parts);
    ScanFinds(s, parts);
    i := Index(s, parts[0]);
  }

  /** The scan of the parts in s succeeds and ends inside the tail of s. */
  ghost predicate EndsInside(s: string, rest: seq<string>, tail: string) {
    HasSuffix(s, tail) && Embeds(s, rest) && ScanEnd(s, rest) + |tail| > |s|
  }

  lemma StillInside(s: string, rest: seq<string>, tail: string, next: nat)
    requires rest != [] && HasSuffix(s, tail) && next + |tail| <= |s|
    requires Embeds(s[next..], rest[1..]) && next + ScanEnd(s[next..], rest[1..]) + |tail| > |s|
    ensures EndsInside(s[next..], rest[1..], tail)
  {
    SuffixOfSuffix(s, next, tail);
  }

  /** One part less, if that part ends before the tail; otherwise it overlaps. */
  lemma InsideStep(s: string, p: string, rest: seq<string>, tail: string) returns (next: nat)
    requires EndsInside(s, rest, tail)
    ensures rest != [] && next <= |s|
    ensures EndsInside(s[next..], rest[1..], tail) || Reaches(rest[0], rest[1..], tail) || Reaches(p, rest, tail)
  {
    hide Embeds, ScanEnd, Index, Reaches;
    SomePart(s, rest, tail);
    var i := ScanOn(s, rest);
    next := i + |rest[0]|;
    if next + |tail| <= |s| {
      StillInside(s, rest, tail, next);
    } else if i + |tail| <= |s| {
      EndsInTail(s, rest[0], i, rest[1..], tail);
    } else {
      StartsInTail(s, rest, tail);
      ReachesWhole(p, rest, tail);
    }
  }

  lemma SomePart(s: string, rest: seq<string>, tail: string)
    requires EndsInside(s, rest, tail)
    ensures rest != []
  {
  }

  lemma ReachesWhole(p: string, rest: seq<string>, tail: string)
    requires Embeds(tail, rest) && Total(rest) > 0
    ensures Reaches(p, rest, tail)
  {
    assert tail[0..] == tail;
    assert ReachesBy(p, rest, tail, 0);
  }

  /** Where the scan first crosses the start of the tail, parts overlap it. Here s is
      the text after p, which still holds the whole tail. */
  lemma {:induction false} Crossing(s: string, p: string, rest: seq<string>, tail: string) returns (j: nat)
    requires EndsInside(s, rest, tail)
    ensures j <= |rest| && OverlapIn(p, rest, tail, j)
    decreases |rest|
  {
    var next := InsideStep(s, p, rest, tail);
    if Reaches(p, rest, tail) {
      OverlapFirst(p, rest, tail);
      j := 0;
    } else if Reaches(rest[0], rest[1..], tail) {
      OverlapFirst(rest[0], rest[1..], tail);
      OverlapLater(p, rest, tail, 0);
      j := 1;
    } else {
      j := Crossing(s[next..], rest[0], rest[1..], tail);
      OverlapLater(p, rest, tail, j);
      j := j + 1;
    }
  }

  lemma OverlapFirst(p: string, rest: seq<string>, tail: string)
    requires Reaches(p, rest, tail)
    ensures OverlapIn(p, rest, tail, 0)
  {
    assert rest[0..] == rest;
  }

  lemma OverlapLater(p: string, rest: seq<string>, tail: string, j: nat)
    requires rest != [] && j <= |rest| - 1 && OverlapIn(rest[0], rest[1..], tail, j)
    ensures OverlapIn(p, rest, tail, j + 1)
  {
    assert rest[1..][j..] == rest[j + 1..];
  }

  /** A part that starts before the tail and ends in it. */
  lemma EndsInTail(s: string, p: string, at: nat, rest: seq<string>, tail: string)
    requires HasSuffix(s, tail) && at + |p| <= |s| && s[at..at + |p|] == p
    requires at <= |s| - |tail| < at + |p| && Embeds(s[at + |p|..], rest)
    ensures Reaches(p, rest, tail)
  {
    var cut := |s| - |tail|;
    var k := at + |p| - cut;
    assert p[|p| - k..] == s[cut..at + |p|] == tail[..k];
    assert tail[k..] == s[at + |p|..];
    assert ReachesBy(p, rest, tail, k);
  }

  /** A part that starts in the tail: it and the following ones embed there. */
  lemma StartsInTail(s: string, rest: seq<string>, tail: string)
    requires HasSuffix(s, tail) && rest != []
    requires var i := Index(s, rest[0]);
             i >= 0 && i + |tail| > |s| && Embeds(s[i + |rest[0]|..], rest[1..])
    ensures Embeds(tail, rest) && Total(rest) > 0
  {
    var p, i := rest[0], Index(s, rest[0]);
    InTail(s, p, i, tail);
    EmbedsAt(tail, rest, i + |tail| - |s|);
    assert OccursAt(s, "", 0);
  }

  lemma EmbedsAt(s: string, parts: seq<string>, i: nat)
    requires parts != [] && OccursAt(s, parts[0], i) && Embeds(s[i + |parts[0]|..], parts[1..])
    ensures Embeds(s, parts)
  {
  }

  lemma InTail(s: string, p: string, i: nat, tail: string)
    requires HasSuffix(s, tail) && OccursAt(s, p, i) && i + |tail| >= |s|
    ensures var k := i + |tail| - |s|; OccursAt(tail, p, k) && tail[k + |p|..] == s[i + |p|..]
  {
    var cut := |s| - |tail|;
    var k := i - cut;
    assert tail[k..k + |p|] == s[cut..][k..k + |p|] == s[i..i + |p|];
    assert tail[k + |p|..] == s[cut..][k + |p|..] == s[i + |p|..];
  }

  /** An accepted text outside the language exhibits an overlap. */
  lemma AcceptedOverlaps(s: string, pattern: string)
    requires TokenAccepts(s, pattern) && !Glob(s, pattern)
    ensures OverlapAll(SplitOn(pattern, '*'))
  {
    TokenAgainstGlob(s, pattern);
    PartsOverlap(s, SplitOn(pattern, '*'));
  }

  lemma PartsOverlap(s: string, parts: seq<string>)
    requires |parts| > 1 && HasPrefix(s, parts[0]) && HasSuffix(s, parts[|parts| - 1])
    requires var rest, t := parts[1..|parts| - 1], s[|parts[0]|..];
             Embeds(t, rest) && ScanEnd(t, rest) + |parts[|parts| - 1]| > |t|
    ensures OverlapAll(parts)
  {
    var n := |parts| - 1;
    var p, tail := parts[0], parts[n];
    if |p| + |tail| <= |s| {
      SuffixOfSuffix(s, |p|, tail);
      var j := Crossing(s[|p|..], p, parts[1..n], tail);
      SameOverlap(parts, j);
    } else {
      EndsInTail(s, p, 0, parts[1..n], tail);
      assert OverlapAt(parts, 0);
    }
  }

  lemma EndsAndMiddle(parts: seq<string>)
    requires |parts| > 1
    ensures Total(parts) == |parts[0]| + Total(parts[1..|parts| - 1]) + |parts[|parts| - 1]|
  {
    TotalSnoc(parts[1..]);
    assert parts[1..][..|parts| - 2] == parts[1..|parts| - 1];
  }

  lemma SameOverlap(parts: seq<string>, j: nat)
    requires j < |parts| - 1
    ensures OverlapAt(parts, j) <==> OverlapIn(parts[0], parts[1..|parts| - 1], parts[|parts| - 1], j)
  {
    assert parts[1..|parts| - 1][j..] == parts[j + 1..|parts| - 1];
  }

  lemma PartsText(parts: seq<string>) returns (s: string)
    requires parts != [] && OverlapAll(parts)
    ensures HasPrefix(s, parts[0]) && HasSuffix(s, parts[|parts| - 1])
    ensures |parts| > 1 && Embeds(s[|parts[0]|..], parts[1..|parts| - 1]) && |s| < Total(parts)
  {
    var j: nat :| j < |parts| - 1 && OverlapAt(parts, j);
    SameOverlap(parts, j);
    s := OverlapText(parts[0], parts[1..|parts| - 1], parts[|parts| - 1], j);
    EndsAndMiddle(parts);
  }

  lemma OverlapAccepted(pattern: string) returns (s: string)
    requires OverlapAll(SplitOn(pattern, '*'))
    ensures TokenAccepts(s, pattern) && !Glob(s, pattern)
  {
    s := PartsText(SplitOn(pattern, '*'));
    if Glob(s, pattern) {
      GlobLength(s, pattern);
    }
  }

  /** For every pattern: the matcher decides the language on every text exactly when
      no part, together with the parts after it, reaches into the last one. */
  lemma TokenExact(pattern: string)
    ensures (forall s :: TokenAccepts(s, pattern) <==> Glob(s, pattern)) <==> !OverlapAll(SplitOn(pattern, '*'))
  {
    if OverlapAll(SplitOn(pattern, '*')) {
      var s := OverlapAccepted(pattern);
    } else {
      forall s ensures TokenAccepts(s, pattern) <==> Glob(s, pattern) {
        TokenAgainstGlob(s, pattern);
        if TokenAccepts(s, pattern) && !Glob(s, pattern) {
          AcceptedOverlaps(s, pattern);
        }
      }
    }
  }

  // ---------------------------------------------------- patterns with one star

  /** Some end of p is also a start of q. */
  predicate Overlap(p: string, q: string) {
    exists k | 1 <= k <= |p| && k <= |q| :: p[|p| - k..] == q[..k]
  }

  lemma OneStarSplit(p: string, q: string)
    requires '*' !in p && '*' !in q
    ensures SplitOn(p + "*" + q, '*') == [p, q]
  {
    SplitAt(p, '*', q);
    SplitAt(q, '*', "");
  }

  /** For p*q that is: no end of p is a start of q. */
  lemma OneStarExact(p: string, q: string)
    requires '*' !in p && '*' !in q
    ensures (forall s :: TokenAccepts(s, p + "*" + q) <==> Glob(s, p + "*" + q)) <==> !Overlap(p, q)
  {
    OneStarSplit(p, q);
    TokenExact(p + "*" + q);
    OneStarOverlap(p, q);
  }

  lemma OneStarOverlap(p: string, q: string)
    ensures OverlapAll([p, q]) <==> Overlap(p, q)
  {
    var parts := [p, q];
    assert parts[0 + 1..1] == [] && Total([]) == 0;
    assert OverlapAt(parts, 0) <==> Reaches(p, [], q);
    forall k: nat ensures ReachesBy(p, [], q, k) <==> 1 <= k <= |p| && k <= |q| && p[|p| - k..] == q[..k] {
    }
  }

  /** With several stars a whole part can lie inside the last one: a*b*cb accepts
      "acb", although no end of a or b is a start of cb. */
  lemma InnerPartSwallowed()
    ensures TokenAccepts("acb", "a*b*cb") && !Glob("acb", "a*b*cb")
    ensures !Overlap("a", "cb") && !Overlap("b", "cb")
  {
    SwallowedParts();
    SwallowedScan();
    TokenAgainstGlob("acb", "a*b*cb");
  }

  lemma SwallowedParts()
    ensures SplitOn("a*b*cb", '*') == ["a", "b", "cb"]
  {
    assert "a*b*cb" == "a" + "*" + ("b" + "*" + "cb");
    SplitAt("a", '*', "b" + "*" + "cb");
    OneStarSplit("b", "cb");
  }

  lemma SwallowedScan()
    ensures HasPrefix("acb", "a") && HasSuffix("acb", "cb") && "acb"[1..] == "cb"
    ensures ["a", "b", "cb"][1..2] == ["b"] && ScanEnd("cb", ["b"]) == 2 && Embeds("cb", ["b"])
  {
    assert "cb"[0..1][0] == 'c' && OccursAt("cb", "b", 1);
    assert ["b"][1..] == [];
    ScanFinds("cb", ["b"]);
  }

  lemma OneStarParts(s: string, pattern: string, p: string, q: string)
    requires SplitOn(pattern, '*') == [p, q]
    ensures TokenAccepts(s, pattern) <==> HasPrefix(s, p) && HasSuffix(s, q)
    ensures Glob(s, pattern) <==> HasPrefix(s, p) && HasSuffix(s, q) && |p| + |q| <= |s|
  {
    TwoParts(s, pattern, p, q);
    TokenAgainstGlob(s, pattern);
  }

  lemma TwoParts(s: string, pattern: string, p: string, q: string)
    requires SplitOn(pattern, '*') == [p, q]
    ensures TokenAccepts(s, pattern) <==> HasPrefix(s, p) && HasSuffix(s, q)
    ensures LeavesRoom(s, pattern) <==> (HasPrefix(s, p) ==> |p| + |q| <= |s|)
  {
    assert SplitOn(pattern, '*')[1..1] == [];
  }
}
