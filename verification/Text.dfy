/** Splitting strings, as strings.Split does with a one-character separator. */
module Text {

  function SplitOn(s: string, sep: char): (ps: seq<string>)
    ensures ps != [] && forall i | 0 <= i < |ps| :: sep !in ps[i]
  {
    if s == "" then [""]
    else
      var ps := SplitOn(s[1..], sep);
      if s[0] == sep then [""] + ps else [[s[0]] + ps[0]] + ps[1..]
  }

  /** Splitting stops at the first separator. */
  lemma {:induction false} SplitAt(a: string, sep: char, b: string)
    requires sep !in a
    ensures SplitOn(a + [sep] + b, sep) == [a] + SplitOn(b, sep)
    ensures SplitOn(a, sep) == [a]
  {
    var s := a + [sep] + b;
    if a == "" {
      assert s[1..] == b;
    } else {
      SplitAt(a[1..], sep, b);
      assert s[1..] == a[1..] + [sep] + b;
      assert [a[0]] + a[1..] == a;
    }
  }

  /** A text with a separator, cut at the first one. */
  lemma {:induction false} FirstSeparator(s: string, sep: char) returns (a: string, b: string)
    requires sep in s
    ensures sep !in a && s == a + [sep] + b
  {
    if s[0] == sep {
      a, b := "", s[1..];
    } else {
      assert sep in s[1..];
      a, b := FirstSeparator(s[1..], sep);
      a := [s[0]] + a;
    }
  }
}
