/** The guarded global version of version/dynamic.go. */
module DynamicVersion {
  import opened Optional
  import opened VersionText
  import opened VersionParse
  import opened VersionRoundTrip

  const FORMAT := "+$Format:%H$"
  const REST := "-master" + FORMAT
  /** v0.0.0-master+$Format:%H$ */
  const PLACEHOLDER := "v" + "0.0.0" + REST

  datatype Rejection = Empty | Unparsable(e: ParseError) | BadDefault(d: ParseError) | Mismatch

  /** Major, Minor and Patch. */
  function Numbers(v: Version): seq<nat> {
    var c := v.components;
    [if |c| > 0 then c[0] else 0, if |c| > 1 then c[1] else 0, if |c| > 2 then c[2] else 0]
  }

  /** What the default version is compared as. */
  function Reference(defaultVersion: string): Result<Version> {
    Parse(if defaultVersion == PLACEHOLDER then "v0.0.0-master" else defaultVersion, true)
  }

  function Validate(dynamicVersion: string, defaultVersion: string): Option<Rejection> {
    if |dynamicVersion| == 0 then Some(Empty)
    else if dynamicVersion == defaultVersion then None
    else
      match Parse(dynamicVersion, true)
      case Err(e) => Some(Unparsable(e))
      case Ok(vRuntime) =>
        match Reference(defaultVersion)
        case Err(e) => Some(BadDefault(e))
        case Ok(vDefault) => if Numbers(vRuntime) != Numbers(vDefault) then Some(Mismatch) else None
  }

  /** The placeholder is indeed not a semantic version; it stands for 0.0.0. */
  lemma PlaceholderReference()
    ensures Parse(PLACEHOLDER, true).Err?
    ensures Reference(PLACEHOLDER) == Ok(Version([0, 0, 0], true, "master", ""))
  {
    PlaceholderRejected();
    StandInParsed();
  }

  /** A version with a plain pre-release, marked and printed. */
  lemma StandInParsed()
    ensures Parse("v0.0.0-master", true) == Ok(Version([0, 0, 0], true, "master", ""))
  {
    ZerosText();
    PlainSection("master");
    PlainVersion([0, 0, 0], "0.0.0", "master");
    StandInText();
  }

  lemma PlainVersion(ns: seq<nat>, t: string, pre: string)
    requires |ns| == 3 && Uints(ns) && Join(Numerals(ns)) == t
    requires pre != "" && IsSection(pre) && AllCanonical(Split(pre))
    ensures Parse("v" + t + ("-" + pre), true) == Ok(Version(ns, true, pre, ""))
  {
    var v := Version(ns, true, pre, "");
    ParsePadded(v, "", "v", "");
    Unwrap(t, "-" + pre, Render(v));
  }

  lemma Unwrap(t: string, x: string, r: string)
    requires r == t + x + ""
    ensures "" + "v" + r + "" == "v" + t + x
  {
  }

  lemma StandInText()
    ensures "v" + "0.0.0" + ("-" + "master") == "v0.0.0-master"
  {
  }

  lemma PlaceholderText()
    ensures REST == Marked('-', "master") + FORMAT && '\n' !in REST
    ensures |FORMAT| > 1 && FORMAT[0] == '+' && FORMAT[1] == '$'
  {
  }

  lemma PlaceholderRejected()
    ensures Parse(PLACEHOLDER, true).Err?
  {
    ZerosText();
    NumeralsDotted([0, 0, 0]);
    PlainSection("master");
    PlaceholderText();
    BadBuild("master", FORMAT);
    RejectedRest("0.0.0", REST);
  }

  lemma RejectedRest(t: string, extra: string)
    requires IsDotted(IsDigit, t) && Stops(IsDigit, extra) && extra != "" && MatchExtra(extra) == None
    ensures Parse("v" + t + extra, true).Err?
  {
    MatchVersionIs("", "v", t, extra);
    assert "" + "v" == "v";
  }

  lemma ZerosText()
    ensures Join(Numerals([0, 0, 0])) == "0.0.0"
  {
    var ps := Numerals([0, 0, 0]);
    assert ps == ["0", "0", "0"] && ps[1..] == ["0", "0"] && ps[1..][1..] == ["0"];
  }

  /** Letters alone make a section of one identifier. */
  lemma PlainSection(s: string)
    requires s != "" && forall i | 0 <= i < |s| :: 'a' <= s[i] <= 'z'
    ensures IsSection(s) && AllCanonical(Split(s))
  {
    SplitAtDot(s, "");
    assert !IsDigit(s[0]);
  }

  lemma BadBuild(pre: string, rest: string)
    requires IsSection(pre) && |rest| > 1 && rest[0] == '+' && rest[1] == '$'
    ensures MatchExtra(Marked('-', pre) + rest) == None
  {
    TakeSectionIs('-', pre, rest);
    NoBuild(rest);
  }

  lemma NoBuild(rest: string)
    requires |rest| > 1 && rest[0] == '+' && rest[1] == '$'
    ensures TakeSection('+', rest) == ("", rest) && !All(IsSpace, rest)
  {
    NoDotted(IsIdentChar, rest[1..]);
  }

  /** A value the guarded global may hold. */
  predicate Allowed(s: string, defaultVersion: string) {
    s == defaultVersion || HasNumbersOf(s, defaultVersion)
  }

  /** s parses, and has the default's three numbers: 0.0.0 for the placeholder. */
  predicate HasNumbersOf(s: string, defaultVersion: string) {
    Parse(s, true).Ok? &&
    if defaultVersion == PLACEHOLDER then Parse(s, true).value.components == [0, 0, 0]
    else Parse(defaultVersion, true).Ok? && Parse(s, true).value.components == Parse(defaultVersion, true).value.components
  }

  lemma NumbersAre(s: string)
    requires Parse(s, true).Ok?
    ensures var v := Parse(s, true).value; |v.components| == 3 && Numbers(v) == v.components
  {
    ParsedNumbers(s);
  }

  /** Comparing with the reference is comparing with the default's numbers. */
  lemma ReferenceExact(s: string, defaultVersion: string)
    requires Parse(s, true).Ok?
    ensures HasNumbersOf(s, defaultVersion) <==>
            var d := Reference(defaultVersion); d.Ok? && Numbers(Parse(s, true).value) == Numbers(d.value)
  {
    NumbersAre(s);
    if defaultVersion == PLACEHOLDER {
      PlaceholderReference();
    } else if Parse(defaultVersion, true).Ok? {
      NumbersAre(defaultVersion);
    }
  }

  /** Acceptance, and the reasons for which a call is rejected. */
  lemma ValidateExact(s: string, defaultVersion: string)
    ensures Validate(s, defaultVersion).None? <==> s != "" && Allowed(s, defaultVersion)
    ensures Validate(s, defaultVersion) == Some(Empty) <==> s == ""
    ensures Validate(s, defaultVersion) == Some(Mismatch) ==> Parse(s, true).Ok? && !HasNumbersOf(s, defaultVersion)
  {
    if Parse(s, true).Ok? {
      ReferenceExact(s, defaultVersion);
    }
  }

  /** The stored value after a run of calls, oldest first. */
  function Run(calls: seq<string>, defaultVersion: string): string {
    if calls == [] then defaultVersion
    else
      var last := calls[|calls| - 1];
      if Validate(last, defaultVersion).None? then last else Run(calls[..|calls| - 1], defaultVersion)
  }

  /** After every run the stored version is the default, or the argument of one of
      the calls, a semantic version with the default's three numbers. */
  lemma {:induction false} RunAllowed(calls: seq<string>, defaultVersion: string)
    ensures var s := Run(calls, defaultVersion);
            Allowed(s, defaultVersion) && (s != defaultVersion ==> s in calls)
  {
    if calls != [] {
      ValidateExact(calls[|calls| - 1], defaultVersion);
      RunAllowed(calls[..|calls| - 1], defaultVersion);
    }
  }

  /** The package-level atomic value and its setter, with the calls made so far. */
  class GitVersion {
    const gitVersion: string
    var stored: string
    ghost var calls: seq<string>

    ghost predicate Valid()
      reads this
    {
      stored == Run(calls, gitVersion)
    }

    constructor (gitVersion: string)
      ensures Valid() && this.gitVersion == gitVersion && stored == gitVersion && calls == []
    {
      this.gitVersion := gitVersion;
      stored, calls := gitVersion, [];
    }

    /** A rejected call changes nothing; an accepted one stores its argument. */
    method SetDynamicVersion(dynamicVersion: string) returns (err: Option<Rejection>)
      requires Valid()
      modifies this
      ensures Valid() && Allowed(stored, gitVersion)
      ensures calls == old(calls) + [dynamicVersion]
      ensures stored == if err.None? then dynamicVersion else old(stored)
      ensures err.None? <==> dynamicVersion != "" && Allowed(dynamicVersion, gitVersion)
    {
      err := Validate(dynamicVersion, gitVersion);
      if err.None? {
        stored := dynamicVersion;
      }
      calls := calls + [dynamicVersion];
      ValidateExact(dynamicVersion, gitVersion);
      RunAllowed(calls, gitVersion);
    }
  }
}
