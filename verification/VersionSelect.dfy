/** HighestSupportedVersion of util/version/version.go. */
module VersionSelect {
  import opened Optional
  import opened VersionText
  import opened VersionParse
  import opened VersionRoundTrip
  import opened VersionOrder

  datatype Selection = Highest(version: Version) | EmptyList | NoneParsed | NotV1(found: Version)

  /** The entries as ParseGeneric reads them. */
  function ParsedAll(versions: seq<string>): (rs: seq<Result<Version>>)
    ensures |rs| == |versions| && forall i | 0 <= i < |rs| :: rs[i] == Parse(versions[i], false)
    ensures forall i | 0 <= i < |rs| :: rs[i].Ok? ==> IsGeneric(rs[i].value)
  {
    forall s: string | Parse(s, false).Ok? ensures IsGeneric(Parse(s, false).value) {
      GenericKeepsComponents(s, false);
    }
    seq(|versions|, i requires 0 <= i < |versions| => Parse(versions[i], false))
  }

  predicate IsGeneric(v: Version) {
    !v.semver && |v.components| >= 2
  }

  /** Entry i parses and may be chosen: its major version is at most 1. */
  predicate Candidate(rs: seq<Result<Version>>, i: int) {
    0 <= i < |rs| && rs[i].Ok? && IsGeneric(rs[i].value) && rs[i].value.components[0] <= 1
  }

  /** Entry i is at least every candidate from "from" on, and above every later one. */
  ghost predicate IsTop(rs: seq<Result<Version>>, i: int, from: int)
    requires Candidate(rs, i)
  {
    forall j | from <= j < |rs| && Candidate(rs, j) ::
      var c := Compare(rs[j].value, rs[i].value);
      c <= 0 && (j > i ==> c < 0)
  }

  /** A candidate that beats the top so far is the new top. */
  lemma NewTop(rs: seq<Result<Version>>, i: int, k: int)
    requires Candidate(rs, i) && Candidate(rs, k) && k < i && IsTop(rs, i, k + 1)
    requires Compare(rs[i].value, rs[k].value) < 0
    ensures IsTop(rs, k, k)
  {
    var vi, vk := rs[i].value.components, rs[k].value.components;
    forall j | k <= j < |rs| && Candidate(rs, j)
      ensures var c := Compare(rs[j].value, rs[k].value); c <= 0 && (j > k ==> c < 0)
    {
      if j == k {
        PaddedCmpFlip(vk, vk);
      } else {
        PaddedCmpTransitive(rs[j].value.components, vi, vk);
      }
    }
  }

  lemma KeepTop(rs: seq<Result<Version>>, i: int, k: int)
    requires Candidate(rs, i) && 0 <= k < i && IsTop(rs, i, k + 1)
    requires Candidate(rs, k) ==> Compare(rs[i].value, rs[k].value) >= 0
    ensures IsTop(rs, i, k)
  {
    if Candidate(rs, k) {
      PaddedCmpFlip(rs[i].value.components, rs[k].value.components);
    }
  }

  lemma FirstTop(rs: seq<Result<Version>>, k: int)
    requires Candidate(rs, k) && forall j | k < j < |rs| :: !Candidate(rs, j)
    ensures IsTop(rs, k, k)
  {
    PaddedCmpFlip(rs[k].value.components, rs[k].value.components);
  }

  /** If any candidate has major version 1, so has the top. */
  lemma TopMajor(rs: seq<Result<Version>>, i: int, j: int)
    requires Candidate(rs, i) && IsTop(rs, i, 0) && Candidate(rs, j)
    ensures rs[j].value.components[0] <= rs[i].value.components[0]
  {
    PaddedStep(rs[j].value.components, rs[i].value.components);
  }

  /** Entry i is a v1 version that no supported entry exceeds. */
  ghost predicate IsHighestV1(rs: seq<Result<Version>>, i: int) {
    Candidate(rs, i) && rs[i].value.components[0] == 1 && IsTop(rs, i, 0)
  }

  /** Entry i is the top although its major version is 0. */
  ghost predicate IsHighestV0(rs: seq<Result<Version>>, i: int) {
    Candidate(rs, i) && rs[i].value.components[0] == 0 && IsTop(rs, i, 0)
  }

  predicate HasV1(rs: seq<Result<Version>>) {
    exists i | 0 <= i < |rs| :: rs[i].Ok? && rs[i].value.components != [] && rs[i].value.components[0] == 1
  }

  /** The state of the loop once the entries after i have been looked at. */
  ghost predicate Seen(rs: seq<Result<Version>>, i: int, highest: Option<Version>, top: int) {
    match highest
    case None => forall j | i < j < |rs| :: !Candidate(rs, j)
    case Some(v) => i < top && Candidate(rs, top) && v == rs[top].value && IsTop(rs, top, i + 1)
  }

  lemma SeenStep(rs: seq<Result<Version>>, i: int, highest: Option<Version>, top: int)
    requires 0 <= i < |rs| && Seen(rs, i, highest, top)
    ensures if Candidate(rs, i) && (highest.None? || LessThan(highest.value, rs[i].value))
            then Seen(rs, i - 1, Some(rs[i].value), i)
            else Seen(rs, i - 1, highest, top)
  {
    if highest.Some? {
      if Candidate(rs, i) && LessThan(highest.value, rs[i].value) {
        NewTop(rs, top, i);
      } else {
        KeepTop(rs, top, i);
      }
    } else if Candidate(rs, i) {
      FirstTop(rs, i);
    }
  }

  /** The loop from the right. The result is a v1 entry at least as high as every
      entry with major at most 1, the rightmost among equals; there is one exactly
      when some entry parses with major version 1. */
  method HighestSupportedVersion(versions: seq<string>) returns (r: Selection)
    ensures var rs := ParsedAll(versions);
            && (r.Highest? ==> exists i :: IsHighestV1(rs, i) && r.version == rs[i].value)
            && (r.Highest? <==> HasV1(rs))
            && (r.EmptyList? <==> versions == [])
            && (r.NoneParsed? <==> versions != [] && forall i :: !Candidate(rs, i))
            && (r.NotV1? ==> exists i :: IsHighestV0(rs, i) && r.found == rs[i].value)
  {
    if |versions| == 0 {
      return EmptyList;
    }
    ghost var rs := ParsedAll(versions);
    var highest: Option<Version> := None;
    ghost var top := 0;
    var i := |versions| - 1;
    while i >= 0
      invariant -1 <= i < |versions|
      invariant Seen(rs, i, highest, top)
    {
      SeenStep(rs, i, highest, top);
      var current := ParseVersion(versions[i], false);
      if current.Ok? && current.value.components[0] <= 1 {
        if highest.None? || LessThan(highest.value, current.value) {
          highest, top := Some(current.value), i;
        }
      }
      i := i - 1;
    }
    if highest.None? {
      NoV1(rs);
      return NoneParsed;
    }
    V1Exact(rs, top);
    if highest.value.components[0] != 1 {
      assert IsHighestV0(rs, top);
      return NotV1(highest.value);
    }
    return Highest(highest.value);
  }

  lemma NoV1(rs: seq<Result<Version>>)
    requires forall i :: !Candidate(rs, i)
    requires forall i | 0 <= i < |rs| :: rs[i].Ok? ==> IsGeneric(rs[i].value)
    ensures !HasV1(rs)
  {
    assert forall j | 0 <= j < |rs| :: rs[j].Ok? ==> !Candidate(rs, j);
  }

  lemma V1Exact(rs: seq<Result<Version>>, top: int)
    requires Candidate(rs, top) && IsTop(rs, top, 0)
    requires forall i | 0 <= i < |rs| :: rs[i].Ok? ==> IsGeneric(rs[i].value)
    ensures HasV1(rs) <==> IsHighestV1(rs, top)
  {
    if HasV1(rs) {
      var j :| 0 <= j < |rs| && rs[j].Ok? && rs[j].value.components != [] && rs[j].value.components[0] == 1;
      TopMajor(rs, top, j);
    }
  }
}
