/** Parser against printer: which strings are accepted, what they parse to, and
    when printing gives the input back. */
module VersionRoundTrip {
  import opened Optional
  import opened VersionText
  import opened VersionParse

  predicate Uints(ns: seq<nat>) {
    forall i | 0 <= i < |ns| :: ns[i] <= MAX_UINT
  }

  /** The versions ParseSemantic can return. */
  predicate SemverOk(v: Version) {
    && v.semver && |v.components| == 3 && Uints(v.components)
    && IsSection(v.preRelease) && IsSection(v.buildMetadata)
    && AllCanonical(Split(v.preRelease))
  }

  lemma NumeralsDotted(ns: seq<nat>)
    requires ns != []
    ensures Split(Join(Numerals(ns))) == Numerals(ns)
    ensures IsDotted(IsDigit, Join(Numerals(ns)))
  {
    SplitJoin(Numerals(ns));
  }

  lemma {:induction false} ParseNumerals(ns: seq<nat>, strict: bool, semver: bool)
    requires Uints(ns)
    ensures ParseComponents(Numerals(ns), strict, semver) == Ok(ns)
  {
    if ns != [] {
      DecimalNumeral(ns[0]);
      ParseNumerals(ns[1..], semver, semver);
      assert Numerals(ns)[1..] == Numerals(ns[1..]);
      assert [ns[0]] + ns[1..] == ns;
    }
  }

  lemma {:induction false} ParsedComponents(parts: seq<string>, strict: bool, semver: bool)
    requires ParseComponents(parts, strict, semver).Ok?
    ensures var ns := ParseComponents(parts, strict, semver).value;
            |ns| == |parts| && Uints(ns) && (strict && semver ==> parts == Numerals(ns))
  {
    if parts != [] {
      ParsedComponents(parts[1..], semver, semver);
      var ns := ParseComponents(parts[1..], semver, semver).value;
      if strict && semver {
        NumeralDecimal(parts[0]);
        NumeralsCons(Decimal(parts[0]), ns);
        assert parts == [parts[0]] + parts[1..];
      }
    }
  }

  lemma NumeralsCons(n: nat, ns: seq<nat>)
    ensures Numerals([n] + ns) == [Numeral(n)] + Numerals(ns)
  {
  }

  function ExtraText(v: Version): string {
    Marked('-', v.preRelease) + Marked('+', v.buildMetadata)
  }

  lemma ExtraStops(v: Version, tail: string)
    requires All(IsSpace, tail)
    ensures Stops(IsDigit, ExtraText(v) + tail)
  {
  }

  lemma SectionChars(s: string)
    requires IsSection(s)
    ensures forall i | 0 <= i < |s| :: IsIdentChar(s[i]) || s[i] == '.'
    ensures s != "" ==> IsIdentChar(s[|s| - 1])
  {
    if s != "" {
      JoinSplit(s);
      DottedChars(Split(s));
    }
  }

  lemma {:induction false} DottedChars(ps: seq<string>)
    requires ps != [] && forall i | 0 <= i < |ps| :: ps[i] != "" && All(IsIdentChar, ps[i])
    ensures var s := Join(ps);
            && s != "" && IsIdentChar(s[|s| - 1])
            && forall i | 0 <= i < |s| :: IsIdentChar(s[i]) || s[i] == '.'
  {
    if |ps| > 1 {
      DottedChars(ps[1..]);
    }
  }

  lemma NoNewlineInExtra(v: Version, tail: string)
    requires IsSection(v.preRelease) && IsSection(v.buildMetadata) && '\n' !in tail
    ensures '\n' !in ExtraText(v) + tail
  {
    SectionChars(v.preRelease);
    SectionChars(v.buildMetadata);
  }

  /** Completeness: the printed form of a version, padded, parses to it. */
  lemma ParsePadded(v: Version, pad: string, mark: string, tail: string)
    requires SemverOk(v) && Padding(pad, mark, tail)
    ensures Parse(pad + mark + Render(v) + tail, true) == Ok(v)
  {
    var t, extra := Join(Numerals(v.components)), ExtraText(v) + tail;
    RegroupRender(pad, mark, v, tail);
    NumeralsDotted(v.components);
    ExtraStops(v, tail);
    NoNewlineInExtra(v, tail);
    MatchVersionIs(pad, mark, t, extra);
    ParseNumerals(v.components, true, true);
    CheckedExact(Split(v.preRelease));
    if extra != "" {
      MatchExtraIs(v.preRelease, v.buildMetadata, tail);
    } else {
      assert v.preRelease == "" && v.buildMetadata == "";
    }
  }

  lemma ParsedNumbers(str: string)
    requires Parse(str, true).Ok?
    ensures var v := Parse(str, true).value;
            v.semver && |v.components| == 3 && Uints(v.components) &&
            Join(Numerals(v.components)) == MatchVersion(str).value.0
  {
    var (t, extra) := MatchVersion(str).value;
    ParsedComponents(Split(t), true, true);
    JoinSplit(t);
  }

  lemma ParsedExtra(v0: Version, extra: string) returns (tail: string)
    requires ParseExtra(v0, extra).Ok?
    ensures var v := ParseExtra(v0, extra).value;
            && IsSection(v.preRelease) && IsSection(v.buildMetadata) && All(IsSpace, tail)
            && AllCanonical(Split(v.preRelease)) && extra == ExtraText(v) + tail
  {
    tail := MatchExtraParts(extra);
    CheckedExact(Split(MatchExtra(extra).value.0));
  }

  lemma ParsedTail(v0: Version, extra: string) returns (tail: string)
    requires v0.preRelease == "" && v0.buildMetadata == ""
    requires ExtraResult(v0, extra).Ok? && '\n' !in extra
    ensures var v := ExtraResult(v0, extra).value;
            && IsSection(v.preRelease) && IsSection(v.buildMetadata)
            && AllCanonical(Split(v.preRelease))
            && All(IsSpace, tail) && '\n' !in tail && extra == ExtraText(v) + tail
  {
    if extra == "" {
      tail := "";
    } else {
      tail := ParsedExtra(v0, extra);
      SuffixChars(ExtraText(ExtraResult(v0, extra).value), tail, '\n');
    }
  }

  lemma ParsedGroups(str: string)
    requires Parse(str, true).Ok?
    ensures MatchVersion(str).Some?
    ensures var v, extra := Parse(str, true).value, MatchVersion(str).value.1;
            Parse(str, true) == ExtraResult(Version(v.components, true, "", ""), extra)
  {
  }

  lemma SuffixChars(a: string, b: string, ch: char)
    requires ch !in a + b
    ensures ch !in b
  {
    assert forall i | 0 <= i < |b| :: b[i] == (a + b)[|a| + i];
  }

  /** Soundness: an accepted string is the padded printed form of the result. */
  lemma ParsedParts(str: string) returns (pad: string, mark: string, tail: string)
    requires Parse(str, true).Ok?
    ensures var v := Parse(str, true).value;
            SemverOk(v) && Padding(pad, mark, tail) && str == pad + mark + Render(v) + tail
  {
    var v := Parse(str, true).value;
    pad, mark := MatchVersionParts(str);
    ParsedNumbers(str);
    ParsedGroups(str);
    tail := ParsedTail(Version(v.components, true, "", ""), MatchVersion(str).value.1);
    RegroupRender(pad, mark, v, tail);
  }

  lemma RegroupRender(pad: string, mark: string, v: Version, tail: string)
    ensures pad + mark + Render(v) + tail == pad + mark + Join(Numerals(v.components)) + (ExtraText(v) + tail)
  {
  }

  /** ParseSemantic accepts exactly white space, an optional "v", a printed
      version, and white space without a newline. */
  lemma ParseSemanticExact(str: string, v: Version)
    ensures Parse(str, true) == Ok(v) <==>
            SemverOk(v) && exists pad, mark, tail :: Padding(pad, mark, tail) && str == pad + mark + Render(v) + tail
  {
    if Parse(str, true) == Ok(v) {
      var pad, mark, tail := ParsedParts(str);
    }
    if SemverOk(v) && exists pad, mark, tail :: Padding(pad, mark, tail) && str == pad + mark + Render(v) + tail {
      var pad, mark, tail :| Padding(pad, mark, tail) && str == pad + mark + Render(v) + tail;
      ParsePadded(v, pad, mark, tail);
    }
  }

  lemma Unpadded(r: string)
    ensures "" + "" + r + "" == r
  {
  }

  lemma ParsePrinted(v: Version)
    requires SemverOk(v)
    ensures Parse(Render(v), true) == Ok(v)
  {
    ParsePadded(v, "", "", "");
    Unpadded(Render(v));
  }

  /** Printing a parsed semantic version and parsing it again changes nothing. */
  lemma SemanticRoundTrip(str: string)
    requires Parse(str, true).Ok?
    ensures Parse(Render(Parse(str, true).value), true) == Parse(str, true)
  {
    var pad, mark, tail := ParsedParts(str);
    ParsePrinted(Parse(str, true).value);
  }

  lemma RenderEnds(v: Version)
    requires SemverOk(v)
    ensures var s := Render(v); s != "" && IsDigit(s[0]) && !IsSpace(s[|s| - 1])
  {
    var t := Join(Numerals(v.components));
    NumeralsDotted(v.components);
    DottedLenIs(IsDigit, t, "");
    DottedDigits(Numerals(v.components));
    SectionChars(v.preRelease);
    SectionChars(v.buildMetadata);
  }

  lemma {:induction false} DottedDigits(ps: seq<string>)
    requires ps != [] && forall i | 0 <= i < |ps| :: ps[i] != "" && All(IsDigit, ps[i])
    ensures var s := Join(ps); s != "" && IsDigit(s[|s| - 1])
  {
    if |ps| > 1 {
      DottedDigits(ps[1..]);
    }
  }

  /** An accepted string is printed back unchanged exactly when it starts with
      a digit and does not end in white space. */
  lemma PrintsInputBackExact(str: string)
    requires Parse(str, true).Ok?
    ensures str != ""
    ensures Render(Parse(str, true).value) == str <==> IsDigit(str[0]) && !IsSpace(str[|str| - 1])
  {
    var v := Parse(str, true).value;
    var pad, mark, tail := ParsedParts(str);
    RenderEnds(v);
    PaddedExact(pad, mark, Render(v), tail);
  }

  lemma PaddedExact(pad: string, mark: string, r: string, tail: string)
    requires Padding(pad, mark, tail) && r != "" && IsDigit(r[0]) && !IsSpace(r[|r| - 1])
    ensures var s := pad + mark + r + tail;
            s != "" && (r == s <==> IsDigit(s[0]) && !IsSpace(s[|s| - 1]))
  {
    PaddedEnds(pad, mark, r, tail);
  }

  lemma PaddedEnds(pad: string, mark: string, r: string, tail: string)
    requires r != ""
    ensures var s := pad + mark + r + tail;
            && s != ""
            && s[0] == (if pad != "" then pad[0] else if mark != "" then mark[0] else r[0])
            && s[|s| - 1] == (if tail != "" then tail[|tail| - 1] else r[|r| - 1])
            && (s == r <==> pad == "" && mark == "" && tail == "")
  {
    var s := pad + mark + r + tail;
    assert |s| == |pad| + |mark| + |r| + |tail|;
  }

  /** Parsing the printed form generically keeps the components and drops the rest. */
  lemma GenericKeepsComponents(str: string, semver: bool)
    requires Parse(str, semver).Ok?
    ensures var v := Parse(str, semver).value;
            |v.components| >= 2 && Uints(v.components) &&
            Parse(Render(v), false) == Ok(Version(v.components, false, "", ""))
  {
    var v := Parse(str, semver).value;
    ParsedComponents(Split(MatchVersion(str).value.0), true, semver);
    if semver {
      var pad, mark, tail := ParsedParts(str);
    }
    ParseRendered(v);
  }

  lemma ParseRendered(v: Version)
    requires |v.components| >= 2 && Uints(v.components)
    requires IsSection(v.preRelease) && IsSection(v.buildMetadata)
    ensures Parse(Render(v), false) == Ok(Version(v.components, false, "", ""))
  {
    var t := Join(Numerals(v.components));
    NoNewlineInExtra(v, "");
    ExtraStops(v, "");
    NumeralsDotted(v.components);
    RegroupRender("", "", v, "");
    MatchVersionIs("", "", t, ExtraText(v) + "");
    Unpadded(Render(v));
    ParseNumerals(v.components, true, false);
  }

  // -------------------------------------------------- the generic language, exactly

  /** Numbers read off digit strings that may have leading zeros. */
  predicate ReadsAs(parts: seq<string>, ns: seq<nat>) {
    |parts| == |ns| && forall i | 0 <= i < |ns| :: All(IsDigit, parts[i]) && Decimal(parts[i]) == ns[i] <= MAX_UINT
  }

  lemma {:induction false} ComponentsExact(parts: seq<string>, strict: bool, ns: seq<nat>)
    requires forall i | 0 <= i < |parts| :: parts[i] != "" && All(IsDigit, parts[i])
    ensures ParseComponents(parts, strict, false) == Ok(ns) <==>
            ReadsAs(parts, ns) && (strict && parts != [] ==> NoLeadingZero(parts[0]))
  {
    if parts != [] {
      var rest := if ns == [] then [] else ns[1..];
      ComponentsExact(parts[1..], false, rest);
      if ns != [] {
        assert ns == [ns[0]] + rest;
        assert ReadsAs(parts, ns) <==> Decimal(parts[0]) == ns[0] <= MAX_UINT && ReadsAs(parts[1..], rest) by {
          assert forall i | 0 <= i < |parts| - 1 :: parts[1..][i] == parts[i + 1];
          assert forall i | 1 <= i < |parts| :: parts[i] == parts[1..][i - 1];
          assert forall i | 1 <= i < |ns| :: ns[i] == rest[i - 1];
        }
      }
    }
  }

  /** Any text that ParseGeneric takes apart: what follows the dotted number is free,
      except that it cannot continue the number or hold a newline. */
  predicate GenericForm(str: string, pad: string, mark: string, t: string, extra: string) {
    && All(IsSpace, pad) && (mark == "" || mark == "v")
    && IsDotted(IsDigit, t) && Stops(IsDigit, extra) && '\n' !in extra
    && str == pad + mark + t + extra
  }

  /** Two or more fields, the first without a leading zero, each within 64 bits. */
  predicate GenericValue(t: string, v: Version) {
    && !v.semver && v.preRelease == "" && v.buildMetadata == ""
    && |v.components| >= 2 && ReadsAs(Split(t), v.components) && NoLeadingZero(Split(t)[0])
  }

  lemma FormParsed(str: string, v: Version, pad: string, mark: string, t: string, extra: string)
    requires GenericForm(str, pad, mark, t, extra)
    ensures Parse(str, false) == Ok(v) <==> GenericValue(t, v)
  {
    MatchVersionIs(pad, mark, t, extra);
    ComponentsExact(Split(t), true, v.components);
  }

  /** ParseGeneric accepts exactly these texts, and reads exactly these numbers. */
  lemma ParseGenericExact(str: string, v: Version)
    ensures Parse(str, false) == Ok(v) <==>
            exists pad, mark, t, extra :: GenericForm(str, pad, mark, t, extra) && GenericValue(t, v)
  {
    if Parse(str, false) == Ok(v) {
      var pad, mark := MatchVersionParts(str);
      var (t, extra) := MatchVersion(str).value;
      assert GenericForm(str, pad, mark, t, extra);
      FormParsed(str, v, pad, mark, t, extra);
    }
    if pad, mark, t, extra :| GenericForm(str, pad, mark, t, extra) && GenericValue(t, v) {
      FormParsed(str, v, pad, mark, t, extra);
    }
  }

  lemma FormMatched(str: string, semver: bool, pad: string, mark: string, t: string, extra: string)
    requires GenericForm(str, pad, mark, t, extra)
    ensures Parse(str, semver) == ParseGroups(t, extra, semver) && Parse(str, semver) != Err(NoMatch)
    ensures Parse(str, semver) == Err(WrongShape) <==> if semver then |Split(t)| != 3 else |Split(t)| < 2
  {
    MatchVersionIs(pad, mark, t, extra);
    ComponentsError(Split(t), true, semver);
  }

  /** "Could not parse" is said of exactly the texts without the general form. */
  lemma NoMatchExact(str: string, semver: bool)
    ensures Parse(str, semver) == Err(NoMatch) <==>
            !exists pad, mark, t, extra :: GenericForm(str, pad, mark, t, extra)
  {
    if pad, mark, t, extra :| GenericForm(str, pad, mark, t, extra) {
      FormMatched(str, semver, pad, mark, t, extra);
    }
    if Parse(str, semver) != Err(NoMatch) {
      var pad, mark := MatchVersionParts(str);
      var (t, extra) := MatchVersion(str).value;
      assert GenericForm(str, pad, mark, t, extra);
    }
  }

  lemma StopsBeforeSpace(extra: string, ws: string)
    requires Stops(IsDigit, extra) && All(IsSpace, ws)
    ensures Stops(IsDigit, extra + ws)
  {
    if extra == "" {
      assert extra + ws == ws;
    }
  }

  /** The documentation says surrounding white space is ignored. At the end that
      is true of exactly the white space that contains no newline. */
  lemma TrailingSpaceExact(str: string, semver: bool, ws: string)
    requires Parse(str, semver).Ok? && All(IsSpace, ws)
    ensures Parse(str + ws, semver) == Parse(str, semver) <==> '\n' !in ws
    ensures '\n' in ws ==> Parse(str + ws, semver) == Err(NoMatch)
  {
    var pad, mark := MatchVersionParts(str);
    var (t, extra) := MatchVersion(str).value;
    AppendLast(pad, mark, t, extra, ws);
    StopsBeforeSpace(extra, ws);
    MatchVersionIs(pad, mark, t, extra + ws);
    NewlineIn(extra, ws);
    if '\n' !in ws {
      GroupsThenSpace(t, extra, semver, ws);
    }
  }

  lemma GroupsThenSpace(t: string, extra: string, semver: bool, ws: string)
    requires ParseGroups(t, extra, semver).Ok? && All(IsSpace, ws)
    ensures ParseGroups(t, extra + ws, semver) == ParseGroups(t, extra, semver)
  {
    if semver {
      var ns := ParseComponents(Split(t), true, semver).value;
      ExtraThenSpace(Version(ns, semver, "", ""), extra, ws);
    }
  }

  lemma AppendLast(a: string, b: string, c: string, d: string, w: string)
    ensures a + b + c + d + w == a + b + c + (d + w)
  {
  }

  lemma NewlineIn(a: string, b: string)
    ensures '\n' in a + b <==> '\n' in a || '\n' in b
  {
  }

  lemma NoExtra(v: Version)
    requires v.preRelease == "" && v.buildMetadata == ""
    ensures ParseExtra(v, "") == Ok(v)
  {
    assert CheckIdentifiers([""]) == None && Split("") == [""];
    assert TakeSection('-', "") == ("", "") && TakeSection('+', "") == ("", "");
  }

  lemma ExtraThenSpace(v: Version, extra: string, ws: string)
    requires v.preRelease == "" && v.buildMetadata == ""
    requires All(IsSpace, ws) && ExtraResult(v, extra).Ok?
    ensures ExtraResult(v, extra + ws) == ExtraResult(v, extra)
  {
    NoExtra(v);
    MatchExtraThenSpace(extra, ws);
  }

  lemma MatchExtraThenSpace(extra: string, ws: string)
    requires All(IsSpace, ws) && MatchExtra(extra).Some?
    ensures MatchExtra(extra + ws) == MatchExtra(extra)
  {
    var tail := MatchExtraParts(extra);
    var (pre, build) := MatchExtra(extra).value;
    MoreSpace(tail, ws);
    MatchExtraIs(pre, build, tail + ws);
    AppendThird(Marked('-', pre), Marked('+', build), tail, ws);
  }

  lemma AppendThird(a: string, b: string, c: string, w: string)
    ensures a + b + c + w == a + b + (c + w)
  {
  }

  lemma MoreSpace(a: string, b: string)
    requires All(IsSpace, a) && All(IsSpace, b)
    ensures All(IsSpace, a + b)
  {
  }

  /** Leading white space of every kind is ignored. */
  lemma LeadingSpaceIgnored(str: string, semver: bool, ws: string)
    requires Parse(str, semver).Ok? && All(IsSpace, ws)
    ensures Parse(ws + str, semver) == Parse(str, semver)
  {
    var pad, mark := MatchVersionParts(str);
    var (t, extra) := MatchVersion(str).value;
    MoreSpace(ws, pad);
    MatchVersionIs(ws + pad, mark, t, extra);
    PrependFirst(ws, pad, mark, t, extra);
  }

  lemma PrependFirst(w: string, a: string, b: string, c: string, d: string)
    ensures w + (a + b + c + d) == (w + a) + b + c + d
  {
  }
}
