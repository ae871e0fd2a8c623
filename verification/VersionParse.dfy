/** The parser and printer of util/version/version.go. The two regular
    expressions are hand-written greedy recognisers; the parser is proved to
    accept exactly the printed form of a version, padded as documented. */
module VersionParse {
  import opened Optional
  import opened VersionText

  datatype Version = Version(components: seq<nat>, semver: bool, preRelease: string, buildMetadata: string)

  datatype ParseError =
    | NoMatch
    | WrongShape
    | ZeroPrefixed(part: string)
    | NotUint(part: string)
    | BadExtra(extra: string)

  datatype Result<+T> = Ok(value: T) | Err(error: ParseError)

  // -------------------------------------------------------------- recognisers

  /** The optional "v" before the numbers. */
  function Unmark(s: string): string {
    if s != "" && s[0] == 'v' then s[1..] else s
  }

  /** versionMatchRE: optional white space, optional "v", greedy dotted digits,
      and a remainder that "." can match, that is, without a newline. */
  function MatchVersion(str: string): Option<(string, string)> {
    var s := str[RunLen(IsSpace, str)..];
    var t := Unmark(s);
    var n := DottedLen(IsDigit, t);
    if n == 0 || '\n' in t[n..] then None else Some((t[..n], t[n..]))
  }

  /** An optional section: its mark followed by greedy dotted identifiers. */
  function TakeSection(mark: char, s: string): (r: (string, string)) {
    if s != "" && s[0] == mark && DottedLen(IsIdentChar, s[1..]) > 0 then
      var n := DottedLen(IsIdentChar, s[1..]);
      (s[1..][..n], s[1..][n..])
    else
      ("", s)
  }

  /** extraMatchRE: pre-release, build metadata, trailing white space. */
  function MatchExtra(extra: string): Option<(string, string)> {
    var (pre, rest) := TakeSection('-', extra);
    var (build, tail) := TakeSection('+', rest);
    if All(IsSpace, tail) then Some((pre, build)) else None
  }

  predicate HasZeroPrefix(part: string) {
    part != "" && part[0] == '0' && part != "0"
  }

  function ParseComponents(parts: seq<string>, strict: bool, semver: bool): Result<seq<nat>> {
    if parts == [] then Ok([])
    else if strict && HasZeroPrefix(parts[0]) then Err(ZeroPrefixed(parts[0]))
    else if ParseUint(parts[0]).None? then Err(NotUint(parts[0]))
    else
      match ParseComponents(parts[1..], semver, semver)
      case Ok(ns) => Ok([ParseUint(parts[0]).value] + ns)
      case Err(e) => Err(e)
  }

  /** The first pre-release identifier that is a uint written with a leading zero. */
  function CheckIdentifiers(ids: seq<string>): Option<string> {
    if ids == [] then None
    else if ParseUint(ids[0]).Some? && HasZeroPrefix(ids[0]) then Some(ids[0])
    else CheckIdentifiers(ids[1..])
  }

  /** What the parser asks of a pre-release identifier: no leading zero, if it is a
      number that fits. */
  predicate Canonical(id: string) {
    ParseUint(id).Some? ==> NoLeadingZero(id)
  }

  predicate AllCanonical(ids: seq<string>) {
    forall i | 0 <= i < |ids| :: Canonical(ids[i])
  }

  /** Identifiers are checked one by one, and the first bad one is reported. */
  lemma {:induction false} CheckedExact(ids: seq<string>)
    ensures CheckIdentifiers(ids) == None <==> AllCanonical(ids)
    ensures CheckIdentifiers(ids).Some? ==>
      exists i | 0 <= i < |ids| :: ids[i] == CheckIdentifiers(ids).value && FirstBad(ids, i)
  {
    if ids != [] {
      var rest := ids[1..];
      CheckedExact(rest);
      assert forall i | 0 <= i < |rest| :: rest[i] == ids[i + 1];
      assert forall i | 1 <= i < |ids| :: ids[i] == rest[i - 1];
      if !Canonical(ids[0]) {
        assert FirstBad(ids, 0);
      } else if CheckIdentifiers(rest).Some? {
        var i :| 0 <= i < |rest| && rest[i] == CheckIdentifiers(rest).value && FirstBad(rest, i);
        assert FirstBad(ids, i + 1);
      }
    }
  }

  predicate FirstBad(ids: seq<string>, i: int) {
    0 <= i < |ids| && !Canonical(ids[i]) && forall j | 0 <= j < i :: Canonical(ids[j])
  }

  function ParseExtra(v: Version, extra: string): Result<Version> {
    match MatchExtra(extra)
    case None => Err(BadExtra(extra))
    case Some((pre, build)) =>
      match CheckIdentifiers(Split(pre))
      case Some(id) => Err(ZeroPrefixed(id))
      case None => Ok(v.(preRelease := pre, buildMetadata := build))
  }

  /** The extra part is looked at only when there is one. */
  function ExtraResult(v: Version, extra: string): Result<Version> {
    if extra == "" then Ok(v) else ParseExtra(v, extra)
  }

  function ParseGroups(numbers: string, extra: string, semver: bool): Result<Version> {
    var parts := Split(numbers);
    if (semver && |parts| != 3) || (!semver && |parts| < 2) then Err(WrongShape)
    else
      match ParseComponents(parts, true, semver)
      case Err(e) => Err(e)
      case Ok(ns) =>
        var v := Version(ns, semver, "", "");
        if semver then ExtraResult(v, extra) else Ok(v)
  }

  function Parse(str: string, semver: bool): Result<Version> {
    match MatchVersion(str)
    case None => Err(NoMatch)
    case Some((numbers, extra)) => ParseGroups(numbers, extra, semver)
  }

  /** Component i breaks a rule: a leading zero where none is allowed, or too large. */
  predicate BadComponent(part: string, strict: bool) {
    (strict && !NoLeadingZero(part)) || ParseUint(part).None?
  }

  predicate FirstBadComponent(parts: seq<string>, i: int, strict: bool, semver: bool) {
    && 0 <= i < |parts| && BadComponent(parts[i], (i == 0 && strict) || semver)
    && forall j | 0 <= j < i :: !BadComponent(parts[j], (j == 0 && strict) || semver)
  }

  /** Numbers are read one by one, and the first bad one is reported with its reason,
      the leading zero before the size. */
  lemma {:induction false} ComponentsError(parts: seq<string>, strict: bool, semver: bool)
    requires semver ==> strict
    ensures var r := ParseComponents(parts, strict, semver);
      r.Err? ==> exists i | 0 <= i < |parts| ::
        && FirstBadComponent(parts, i, strict, semver)
        && r.error == if ((i == 0 && strict) || semver) && !NoLeadingZero(parts[i]) then ZeroPrefixed(parts[i]) else NotUint(parts[i])
    ensures var r := ParseComponents(parts, strict, semver);
      r.Ok? ==> |r.value| == |parts| && forall i | 0 <= i < |parts| ::
        !BadComponent(parts[i], (i == 0 && strict) || semver) && r.value[i] == ParseUint(parts[i]).value
  {
    if parts != [] {
      var rest := parts[1..];
      ComponentsError(rest, semver, semver);
      assert forall i | 0 <= i < |rest| :: rest[i] == parts[i + 1];
      assert forall i | 1 <= i < |parts| :: parts[i] == rest[i - 1];
      if BadComponent(parts[0], strict) {
        assert FirstBadComponent(parts, 0, strict, semver);
      } else if ParseComponents(rest, semver, semver).Err? {
        var e := ParseComponents(rest, semver, semver).error;
        var i :| 0 <= i < |rest| && FirstBadComponent(rest, i, semver, semver) &&
          e == if ((i == 0 && semver) || semver) && !NoLeadingZero(rest[i]) then ZeroPrefixed(rest[i]) else NotUint(rest[i]);
        assert FirstBadComponent(parts, i + 1, strict, semver);
      }
    }
  }

  function Prepend(ns: seq<nat>, r: Result<seq<nat>>): Result<seq<nat>> {
    match r
    case Ok(rest) => Ok(ns + rest)
    case Err(e) => Err(e)
  }

  lemma PrependNothing(r: Result<seq<nat>>)
    ensures Prepend([], r) == r
  {
    if r.Ok? {
      assert [] + r.value == r.value;
    }
  }

  lemma ComponentsStep(ns: seq<nat>, parts: seq<string>, strict: bool, semver: bool)
    requires parts != [] && !(strict && HasZeroPrefix(parts[0])) && ParseUint(parts[0]).Some?
    ensures Prepend(ns, ParseComponents(parts, strict, semver)) ==
            Prepend(ns + [ParseUint(parts[0]).value], ParseComponents(parts[1..], semver, semver))
  {
    var r := ParseComponents(parts[1..], semver, semver);
    if r.Ok? {
      assert ns + ([ParseUint(parts[0]).value] + r.value) == ns + [ParseUint(parts[0]).value] + r.value;
    }
  }

  /** The loop of parse over the dotted numbers. */
  method ParseNumbers(components: seq<string>, semver: bool) returns (r: Result<seq<nat>>)
    ensures r == ParseComponents(components, true, semver)
  {
    var ns: seq<nat> := [];
    var i := 0;
    assert components[0..] == components;
    PrependNothing(ParseComponents(components, true, semver));
    while i < |components|
      invariant 0 <= i <= |components|
      invariant ParseComponents(components, true, semver) ==
                Prepend(ns, ParseComponents(components[i..], i == 0 || semver, semver))
    {
      var comp := components[i];
      assert components[i..][0] == comp && components[i..][1..] == components[i + 1..];
      if (i == 0 || semver) && HasZeroPrefix(comp) {
        return Err(ZeroPrefixed(comp));
      }
      var num := ParseUint(comp);
      if num.None? {
        return Err(NotUint(comp));
      }
      ComponentsStep(ns, components[i..], i == 0 || semver, semver);
      ns := ns + [num.value];
      i := i + 1;
    }
    assert ns + [] == ns;
    return Ok(ns);
  }

  /** The loop of parse over the pre-release identifiers. */
  method FirstZeroPrefixed(ids: seq<string>) returns (r: Option<string>)
    ensures r == CheckIdentifiers(ids)
    ensures r.None? <==> AllCanonical(ids)
    ensures r.Some? ==> exists i | 0 <= i < |ids| :: ids[i] == r.value && FirstBad(ids, i)
  {
    CheckedExact(ids);
    var i := 0;
    while i < |ids|
      invariant 0 <= i <= |ids|
      invariant CheckIdentifiers(ids) == CheckIdentifiers(ids[i..])
    {
      assert ids[i..][1..] == ids[i + 1..];
      if ParseUint(ids[i]).Some? && HasZeroPrefix(ids[i]) {
        return Some(ids[i]);
      }
      i := i + 1;
    }
    return None;
  }

  /** parse */
  method ParseVersion(str: string, semver: bool) returns (r: Result<Version>)
    ensures r == Parse(str, semver)
  {
    var parts := MatchVersion(str);
    if parts.None? {
      return Err(NoMatch);
    }
    var (numbers, extra) := parts.value;
    var components := Split(numbers);
    if (semver && |components| != 3) || (!semver && |components| < 2) {
      return Err(WrongShape);
    }
    var ns := ParseNumbers(components, semver);
    if ns.Err? {
      return Err(ns.error);
    }
    var v := Version(ns.value, semver, "", "");
    if semver && extra != "" {
      var extraParts := MatchExtra(extra);
      if extraParts.None? {
        return Err(BadExtra(extra));
      }
      v := v.(preRelease := extraParts.value.0, buildMetadata := extraParts.value.1);
      var bad := FirstZeroPrefixed(Split(v.preRelease));
      if bad.Some? {
        return Err(ZeroPrefixed(bad.value));
      }
    }
    return Ok(v);
  }

  // ------------------------------------------------------------------ printer

  function Numerals(ns: seq<nat>): (ps: seq<string>)
    ensures |ps| == |ns| && forall i | 0 <= i < |ns| :: ps[i] == Numeral(ns[i])
  {
    seq(|ns|, i requires 0 <= i < |ns| => Numeral(ns[i]))
  }

  function Marked(mark: char, s: string): string {
    if s == "" then "" else [mark] + s
  }

  /** Version.String */
  function Render(v: Version): string {
    Join(Numerals(v.components)) + Marked('-', v.preRelease) + Marked('+', v.buildMetadata)
  }

  lemma {:induction false} JoinSnoc(ps: seq<string>, p: string)
    requires ps != []
    ensures Join(ps + [p]) == Join(ps) + "." + p
  {
    if |ps| > 1 {
      JoinSnoc(ps[1..], p);
      assert (ps + [p])[1..] == ps[1..] + [p];
    } else {
      assert (ps + [p])[1..] == [p];
    }
  }

  method PrintVersion(v: Version) returns (buffer: string)
    ensures buffer == Render(v)
  {
    buffer := "";
    var i := 0;
    while i < |v.components|
      invariant 0 <= i <= |v.components|
      invariant buffer == Join(Numerals(v.components[..i]))
    {
      assert v.components[..i + 1] == v.components[..i] + [v.components[i]];
      assert Numerals(v.components[..i + 1]) == Numerals(v.components[..i]) + [Numeral(v.components[i])];
      if i > 0 {
        JoinSnoc(Numerals(v.components[..i]), Numeral(v.components[i]));
        buffer := buffer + ".";
      }
      buffer := buffer + Numeral(v.components[i]);
      i := i + 1;
    }
    assert v.components[..i] == v.components;
    if v.preRelease != "" {
      buffer := buffer + "-";
      buffer := buffer + v.preRelease;
    }
    if v.buildMetadata != "" {
      buffer := buffer + "+";
      buffer := buffer + v.buildMetadata;
    }
  }

  // ------------------------------------------------------- what the REs accept

  predicate Padding(pad: string, mark: string, tail: string) {
    && All(IsSpace, pad) && (mark == "" || mark == "v")
    && All(IsSpace, tail) && '\n' !in tail
  }

  lemma Cut(a: string, b: string)
    ensures (a + b)[..|a|] == a && (a + b)[|a|..] == b
  {
  }

  lemma Paste(s: string, n: nat)
    requires n <= |s|
    ensures s == s[..n] + s[n..]
  {
  }

  lemma Regroup(a: string, b: string, c: string, d: string)
    ensures a + b + c + d == a + (b + (c + d))
  {
  }

  lemma MatchVersionIs(pad: string, mark: string, t: string, extra: string)
    requires All(IsSpace, pad) && (mark == "" || mark == "v")
    requires IsDotted(IsDigit, t) && Stops(IsDigit, extra)
    ensures MatchVersion(pad + mark + t + extra) == if '\n' in extra then None else Some((t, extra))
  {
    DottedLenIs(IsDigit, t, extra);
    var rest := mark + (t + extra);
    Regroup(pad, mark, t, extra);
    RunLenIs(IsSpace, pad, rest);
    Cut(pad, rest);
    Cut(mark, t + extra);
    Cut(t, extra);
    UnmarkIs(mark, t + extra);
  }

  lemma UnmarkIs(mark: string, s: string)
    requires (mark == "" || mark == "v") && s != "" && s[0] != 'v'
    ensures Unmark(mark + s) == s
  {
  }

  lemma UnmarkParts(s: string) returns (mark: string)
    ensures (mark == "" || mark == "v") && s == mark + Unmark(s)
  {
    mark := if s != "" && s[0] == 'v' then "v" else "";
  }

  lemma MatchVersionParts(str: string) returns (pad: string, mark: string)
    requires MatchVersion(str).Some?
    ensures var (t, extra) := MatchVersion(str).value;
            && All(IsSpace, pad) && (mark == "" || mark == "v")
            && IsDotted(IsDigit, t) && Stops(IsDigit, extra) && '\n' !in extra
            && str == pad + mark + t + extra
  {
    var n := RunLen(IsSpace, str);
    pad := str[..n];
    mark := UnmarkParts(str[n..]);
    var t := Unmark(str[n..]);
    DottedLenMatches(IsDigit, t);
    var m := DottedLen(IsDigit, t);
    Paste(str, n);
    Paste(t, m);
    Regroup(pad, mark, t[..m], t[m..]);
  }

  predicate IsSection(s: string) {
    s == "" || IsDotted(IsIdentChar, s)
  }

  /** What may follow a section: nothing, another mark, or white space. */
  predicate AfterSection(rest: string) {
    rest == "" || rest[0] == '+' || IsSpace(rest[0])
  }

  lemma TakeSectionIs(mark: char, s: string, rest: string)
    requires IsSection(s) && AfterSection(rest)
    requires rest == "" || rest[0] != mark
    ensures TakeSection(mark, Marked(mark, s) + rest) == (s, rest)
  {
    if s == "" {
      assert Marked(mark, s) + rest == rest;
    } else {
      DottedLenIs(IsIdentChar, s, rest);
      assert Marked(mark, s) + rest == [mark] + (s + rest);
      Cut([mark], s + rest);
      Cut(s, rest);
    }
  }

  lemma MarkThenRest(mark: char, x: string, s: string, rest: string)
    requires x != "" && x[0] == mark && |s| <= |x| - 1 && s == x[1..][..|s|] && rest == x[1..][|s|..] && s != ""
    ensures x == Marked(mark, s) + rest
  {
    assert x[1..] == s + rest;
    assert x == [mark] + s + rest;
  }

  lemma TakeSectionParts(mark: char, x: string)
    ensures var (s, rest) := TakeSection(mark, x);
            IsSection(s) && x == Marked(mark, s) + rest
  {
    var (s, rest) := TakeSection(mark, x);
    if s != "" {
      DottedLenMatches(IsIdentChar, x[1..]);
      MarkThenRest(mark, x, s, rest);
    }
  }

  lemma MatchExtraIs(pre: string, build: string, tail: string)
    requires IsSection(pre) && IsSection(build) && All(IsSpace, tail)
    ensures MatchExtra(Marked('-', pre) + Marked('+', build) + tail) == Some((pre, build))
  {
    var rest := Marked('+', build) + tail;
    Associate(Marked('-', pre), Marked('+', build), tail);
    TakeSectionIs('-', pre, rest);
    TakeSectionIs('+', build, tail);
  }

  lemma MatchExtraParts(extra: string) returns (tail: string)
    requires MatchExtra(extra).Some?
    ensures var (pre, build) := MatchExtra(extra).value;
            && IsSection(pre) && IsSection(build) && All(IsSpace, tail)
            && extra == Marked('-', pre) + Marked('+', build) + tail
  {
    var (pre, rest) := TakeSection('-', extra);
    TakeSectionParts('-', extra);
    TakeSectionParts('+', rest);
    var (build, t) := TakeSection('+', rest);
    tail := t;
    Associate(Marked('-', pre), Marked('+', build), tail);
  }

  lemma Associate(a: string, b: string, c: string)
    ensures a + (b + c) == a + b + c
  {
  }
}
