/** Concrete settings of the generator: the defaults of id/options.go and the
    resource identifiers of rid/rid.go. */
module Rid {
  import opened Arithmetic
  import opened IdCode
  import opened CodeUniqueness
  import opened IdUniqueness

  const DEFAULT_CHARSET := "abcdefghijklmnopqrstuvwxyz1234567890"
  const DEFAULT_ID_LENGTH := 6

  /** All resource ids of one counter period: 36^6. */
  const PERIOD: nat := 2176782336

  function RidOptions(salt: Uint64): (o: CodeOptions)
    ensures WellFormed(o)
  {
    var fs := [WithCodeChars(DEFAULT_CHARSET), WithCodeL(DEFAULT_ID_LENGTH), WithCodeSalt(salt)];
    ConfigureWellFormed(DEFAULT_OPTIONS, fs);
    Configure(DEFAULT_OPTIONS, fs)
  }

  /** The salt in force: WithCodeSalt ignores zero. */
  function SaltOf(salt: Uint64): Uint64 {
    if salt > 0 then salt else DEFAULT_OPTIONS.salt
  }

  lemma RidSettings(salt: Uint64)
    ensures RidOptions(salt) == CodeOptions(DEFAULT_CHARSET, 17, 5, 6, SaltOf(salt))
    ensures Runs(RidOptions(salt)) && |DEFAULT_CHARSET| == 36
    ensures Space(RidOptions(salt)) == PERIOD
  {
    var f0, f1, f2 := WithCodeChars(DEFAULT_CHARSET), WithCodeL(DEFAULT_ID_LENGTH), WithCodeSalt(salt);
    assert [f0, f1, f2][1..] == [f1, f2] && [f1, f2][1..] == [f2] && [f2][1..] == [];
    var o1 := Apply(DEFAULT_OPTIONS, f0);
    var o2 := Apply(o1, f1);
    assert Configure(o2, [f2]) == Apply(o2, f2);
    assert Configure(o1, [f1, f2]) == Configure(o2, [f2]);
    assert Pow(36, 6) == 36 * Pow(36, 5) == 36 * 36 * Pow(36, 4) == 36 * 36 * 36 * Pow(36, 3);
  }

  /** Where a character of the default charset stands. */
  function Place(ch: char): int {
    if 'a' <= ch <= 'z' then ch as int - 'a' as int
    else if ch == '0' then 35
    else 26 + (ch as int - '1' as int)
  }

  lemma CharsetDistinct()
    ensures Distinct(DEFAULT_CHARSET)
  {
    assert forall i | 0 <= i < 36 :: Place(DEFAULT_CHARSET[i]) == i;
  }

  /** The box of the resource ids is sound. */
  lemma RidBoxSound(salt: Uint64)
    ensures Runs(RidOptions(salt)) && BoxSound(RidOptions(salt))
    ensures Invertible(RidOptions(salt))
  {
    RidSettings(salt);
    CharsetDistinct();
    assert Gcd(17, 36) == Gcd(36, 17) == Gcd(17, 2) == Gcd(2, 1) == Gcd(1, 0) == 1;
    assert Gcd(5, 6) == Gcd(6, 5) == Gcd(5, 1) == Gcd(1, 0) == 1;
    BoxSoundInRange(RidOptions(salt));
  }

  /** ResourceID.New: the prefix, a hyphen and the code of the counter. */
  function New(prefix: string, counter: nat, salt: Uint64): string {
    RidSettings(salt);
    prefix + "-" + Code(RidOptions(salt), counter)
  }

  /** A resource id is its prefix, a hyphen and six characters of the charset. */
  lemma NewShape(prefix: string, counter: nat, salt: Uint64)
    ensures exists code :: New(prefix, counter, salt) == prefix + "-" + code && IsShortCode(code)
  {
    RidSettings(salt);
    var o := RidOptions(salt);
    var code := Code(o, counter);
    EncodedInAlphabet(o, Expand(o, counter));
    InCharset(o, code);
    assert New(prefix, counter, salt) == prefix + "-" + code;
  }

  predicate IsShortCode(code: string) {
    |code| == 6 && forall i | 0 <= i < 6 :: 'a' <= code[i] <= 'z' || '0' <= code[i] <= '9'
  }

  lemma InCharset(o: CodeOptions, code: string)
    requires o.chars == DEFAULT_CHARSET && |code| == 6 && InAlphabet(o, code)
    ensures IsShortCode(code)
  {
    forall i | 0 <= i < 6 ensures 'a' <= code[i] <= 'z' || '0' <= code[i] <= '9' {
      CharsetRange(code[i]);
    }
  }

  lemma CharsetRange(ch: char)
    requires ch in DEFAULT_CHARSET
    ensures 'a' <= ch <= 'z' || '0' <= ch <= '9'
  {
    var i :| 0 <= i < 36 && DEFAULT_CHARSET[i] == ch;
  }

  ghost predicate RidsUnique(salt: Uint64) {
    forall p, a: nat, q, b: nat | a < PERIOD && b < PERIOD && New(p, a, salt) == New(q, b, salt) ::
      p == q && a == b
  }

  lemma SameTail(p: string, x: string, q: string, y: string)
    requires |x| == |y| && p + "-" + x == q + "-" + y
    ensures p == q && x == y
  {
    var s := p + "-" + x;
    assert |p| == |q|;
    assert p == s[..|p|] && q == s[..|p|];
    assert x == s[|p| + 1..] && y == s[|p| + 1..];
  }

  /** Resource ids never repeat, over all prefixes (even ones containing "-")
      and all counters below 36^6, exactly when the salt leaves room for
      17 * (36^6 - 1) below 2^64. */
  lemma RidsUniqueExact(salt: Uint64)
    ensures RidsUnique(salt) <==> 17 * (PERIOD - 1) + SaltOf(salt) < U64
  {
    var o := RidOptions(salt);
    RidSettings(salt);
    RidBoxSound(salt);
    assert U64 == 8474317238 * PERIOD + 370843648;
    DivModUnique(U64, PERIOD, 8474317238, 370843648);
    CoprimeIff(17, 36);
    UniqueExact(o);
    if CodesUnique(o, PERIOD) {
      forall p, a: nat, q, b: nat | a < PERIOD && b < PERIOD && New(p, a, salt) == New(q, b, salt)
        ensures p == q && a == b
      {
        SameTail(p, Code(o, a), q, Code(o, b));
      }
    } else {
      var a: nat, b: nat :| a < PERIOD && b < PERIOD && Code(o, a) == Code(o, b) && a != b;
      assert New("", a, salt) == New("", b, salt);
    }
  }

  // ------------------------------------------------------------ default codes

  const DEFAULT_PERIOD: nat := 656100000000

  /** Where a character of the default alphabet stands. */
  function DefaultPlace(ch: char): int {
    if ch <= '9' then ch as int - '2' as int
    else if ch <= 'H' then 8 + (ch as int - 'A' as int)
    else if ch <= 'N' then 16 + (ch as int - 'J' as int)
    else if ch <= 'T' then 21 + (ch as int - 'P' as int)
    else 26 + (ch as int - 'V' as int)
  }

  lemma DefaultCharsDistinct()
    ensures Distinct(DEFAULT_OPTIONS.chars)
  {
    assert forall i | 0 <= i < 30 :: DefaultPlace(DEFAULT_OPTIONS.chars[i]) == i;
  }

  lemma DefaultsSound()
    ensures Runs(DEFAULT_OPTIONS) && BoxSound(DEFAULT_OPTIONS)
    ensures Invertible(DEFAULT_OPTIONS)
    ensures Space(DEFAULT_OPTIONS) == DEFAULT_PERIOD
  {
    var o := DEFAULT_OPTIONS;
    DefaultCharsDistinct();
    assert Gcd(17, 30) == Gcd(30, 17) == Gcd(17, 13) == Gcd(13, 4) == Gcd(4, 1) == Gcd(1, 0) == 1;
    assert Gcd(5, 8) == Gcd(8, 5) == Gcd(5, 3) == Gcd(3, 2) == Gcd(2, 1) == Gcd(1, 0) == 1;
    DefaultSpace();
    BoxSoundInRange(o);
  }

  lemma DefaultSpace()
    ensures Pow(30, 8) == DEFAULT_PERIOD
  {
    assert Pow(30, 8) == 900 * Pow(30, 6) == 810000 * Pow(30, 4) == 729000000 * Pow(30, 2);
  }

  /** With the defaults every id below 30^8 gets its own code. */
  lemma DefaultCodesUnique()
    ensures Runs(DEFAULT_OPTIONS) && CodesUnique(DEFAULT_OPTIONS, DEFAULT_PERIOD)
  {
    DefaultsSound();
    CoprimeIff(17, 30);
    UniqueExact(DEFAULT_OPTIONS);
  }
}
