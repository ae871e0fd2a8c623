/** When different ids get different short codes: exact conditions on the options,
    for the ids that NewCode can receive, and the inverse of the whole generator. */
module IdUniqueness {
  import opened Arithmetic
  import opened IdCode
  import opened CodeUniqueness

  /** The uint64 ids below n have different codes: what NewCode is documented to
      give for as many ids as there can be codes. */
  ghost predicate CodesUnique(o: CodeOptions, n: nat)
    requires Runs(o)
  {
    forall a: Uint64, b: Uint64 | a < n && b < n && Code(o, a) == Code(o, b) :: a == b
  }

  // ------------------------------------------------------------------- images

  /** n1*id + salt before any wrapping; n1 may be negative. */
  function Image(o: CodeOptions, id: int): int {
    id * o.n1 + o.salt
  }

  predicate NoWrap(o: CodeOptions, id: int) {
    0 <= Image(o, id) < U64
  }

  lemma ExpandIsImage(o: CodeOptions, id: nat)
    ensures Expand(o, id) == Image(o, id) % U64
    ensures NoWrap(o, id) ==> Expand(o, id) == Image(o, id)
  {
    var q := o.n1 / U64;
    assert o.n1 == Factor(o) + q * U64;
    assert id * (Factor(o) + q * U64) == id * Factor(o) + (id * q) * U64;
    AddMultipleMod(id * Factor(o) + o.salt, id * q, U64);
    if NoWrap(o, id) {
      DivModUnique(Image(o, id), U64, 0, Image(o, id));
    }
  }

  /** Images go one way, so the ids that do not wrap come first. */
  lemma NoWrapBelow(o: CodeOptions, a: nat, b: nat)
    requires NoWrap(o, b) && a <= b
    ensures NoWrap(o, a) && Expand(o, a) == Image(o, a)
  {
    ImagesBetween(o, a, b);
    ExpandIsImage(o, a);
  }

  lemma ImagesBetween(o: CodeOptions, a: nat, b: nat)
    requires a <= b
    ensures o.n1 >= 0 ==> o.salt <= Image(o, a) <= Image(o, b)
    ensures o.n1 < 0 ==> o.salt >= Image(o, a) >= Image(o, b)
  {
    var n := Abs(o.n1);
    assert 0 <= a * n <= b * n;
    assert o.n1 < 0 ==> a * o.n1 == -(a * n) && b * o.n1 == -(b * n);
  }

  lemma SameEncodingIfCongruent(o: CodeOptions, x: nat, y: nat)
    requires Runs(o) && (x - y) % Space(o) == 0
    ensures Encode(o, x) == Encode(o, y)
  {
    ModEqIff(x, y, Space(o));
    DigitsAgree(x, y, |o.chars|, o.l);
  }

  lemma CongruentCollide(o: CodeOptions, a: nat, b: nat)
    requires Runs(o) && a < b < Space(o) <= U64 && (Expand(o, b) - Expand(o, a)) % Space(o) == 0
    ensures !CodesUnique(o, Space(o))
  {
    SameEncodingIfCongruent(o, Expand(o, b), Expand(o, a));
    var i: Uint64, j: Uint64 := a, b;
    assert Code(o, i) == Code(o, j);
  }

  // ------------------------------------------- expansions that keep remainders

  /** Expanding this id leaves the image's remainder modulo c^l: it does not wrap, or
      wrapping does no harm because c^l divides 2^64. */
  predicate Steady(o: CodeOptions, id: int)
    requires WellFormed(o)
  {
    NoWrap(o, id) || U64 % Space(o) == 0
  }

  /** All ids below c^l are steady, because the last one is. */
  predicate AllSteady(o: CodeOptions)
    requires WellFormed(o)
  {
    Steady(o, Space(o) - 1)
  }

  lemma SteadyExpand(o: CodeOptions, a: nat)
    requires WellFormed(o) && Steady(o, a)
    ensures Expand(o, a) % Space(o) == Image(o, a) % Space(o)
  {
    ExpandIsImage(o, a);
    if U64 % Space(o) == 0 {
      var k := U64 / Space(o);
      assert U64 == k * Space(o);
      ModOfMultiple(Image(o, a), k, Space(o));
    }
  }

  lemma SteadyBelow(o: CodeOptions, a: nat)
    requires WellFormed(o) && AllSteady(o) && a < Space(o)
    ensures Steady(o, a)
  {
    if NoWrap(o, Space(o) - 1) {
      NoWrapBelow(o, a, Space(o) - 1);
    }
  }

  /** n1 can be undone modulo c^l. */
  predicate Invertible(o: CodeOptions) {
    Coprime(Abs(o.n1), |o.chars|)
  }

  function Inverse(o: CodeOptions): (x: int)
    requires WellFormed(o) && Invertible(o)
    ensures IsInverse(o.n1, x, Space(o))
  {
    SignedInverse(o.n1, |o.chars|, o.l)
  }

  /** Images are congruent exactly when the ids are, for an invertible n1. */
  lemma FactorCancels(o: CodeOptions, a: int, b: int)
    requires WellFormed(o) && Invertible(o)
    ensures (Image(o, a) - Image(o, b)) % Space(o) == 0 <==> (a - b) % Space(o) == 0
  {
    assert o.n1 * (a - b) == Image(o, a) - Image(o, b);
    CancelFactor(o.n1, Inverse(o), Space(o), a - b);
  }

  /** The exact period: two ids share a code iff they agree modulo c^l. */
  lemma CodePeriod(o: CodeOptions, a: nat, b: nat)
    requires Runs(o) && BoxSound(o) && Invertible(o)
    requires Steady(o, a) && Steady(o, b)
    ensures Code(o, a) == Code(o, b) <==> a % Space(o) == b % Space(o)
  {
    SteadyExpand(o, a);
    SteadyExpand(o, b);
    SameEncoding(o, Expand(o, a), Expand(o, b));
    ModEqIff(Image(o, a), Image(o, b), Space(o));
    FactorCancels(o, a, b);
    ModEqIff(a, b, Space(o));
  }

  // -------------------------------------------------------- reading codes back

  /** The id below c^l whose image is congruent to x. */
  function IdFor(o: CodeOptions, x: nat): (a: nat)
    requires WellFormed(o) && Invertible(o)
    ensures a < Space(o)
  {
    ((x - o.salt) * Inverse(o)) % Space(o)
  }

  lemma ExpandIdFor(o: CodeOptions, x: nat)
    requires Runs(o) && AllSteady(o) && Invertible(o)
    ensures (Expand(o, IdFor(o, x)) - x) % Space(o) == 0
  {
    var a := SolveLinear(o.n1, Inverse(o), Space(o), x - o.salt);
    SteadyBelow(o, a);
    SteadyExpand(o, a);
    assert o.n1 * a - (x - o.salt) == Image(o, a) - x;
    ModEqIff(Image(o, a), x, Space(o));
    ModEqIff(Expand(o, a), x, Space(o));
  }

  /** The id of a code: the inverse of Code on the ids below c^l. */
  function IdOf(o: CodeOptions, s: string): nat
    requires Runs(o) && Invertible(o) && |s| == o.l && InAlphabet(o, s)
  {
    IdFor(o, Decode(o, s))
  }

  /** Every string of length l over the alphabet is the code of an id below c^l. */
  lemma CodeOfId(o: CodeOptions, s: string)
    requires Runs(o) && BoxSound(o) && Invertible(o) && AllSteady(o)
    requires |s| == o.l && InAlphabet(o, s)
    ensures IdOf(o, s) < Space(o) && Code(o, IdOf(o, s)) == s
  {
    var x := Decode(o, s);
    ExpandIdFor(o, x);
    SameEncodingIfCongruent(o, Expand(o, IdFor(o, x)), x);
    EncodeDecode(o, s);
  }

  /** Reading a code back gives the id modulo c^l. */
  lemma IdOfCode(o: CodeOptions, a: nat)
    requires Runs(o) && BoxSound(o) && Invertible(o) && AllSteady(o) && Steady(o, a)
    ensures InAlphabet(o, Code(o, a)) && IdOf(o, Code(o, a)) == a % Space(o)
  {
    var s := Code(o, a);
    EncodedInAlphabet(o, Expand(o, a));
    var b := IdOf(o, s);
    CodeOfId(o, s);
    SteadyBelow(o, b);
    CodePeriod(o, b, a);
    DivModUnique(b, Space(o), 0, b);
  }

  // ------------------------------------------- n1 sharing a divisor with c^l

  lemma {:induction false} PowDivisible(c: nat, g: nat, l: nat)
    requires g > 0 && c > 0 && c % g == 0 && l > 0
    ensures Pow(c, l) % g == 0
  {
    assert c == (c / g) * g;
    assert c * Pow(c, l - 1) == ((c / g) * Pow(c, l - 1)) * g;
    MultipleModZero((c / g) * Pow(c, l - 1), g);
  }

  /** The greatest divisor that n1 and c^l share. */
  function Shared(o: CodeOptions): (g: nat)
    requires WellFormed(o)
    ensures g > 0
  {
    Gcd(Abs(o.n1), Space(o))
  }

  lemma SharedAboveOne(o: CodeOptions)
    requires WellFormed(o) && !Invertible(o)
    ensures Shared(o) > 1
  {
    var n, c, m := Abs(o.n1), |o.chars|, Space(o);
    var d := Gcd(n, c);
    GcdDivides(n, c);
    PowDivisible(c, d, o.l);
    if Shared(o) == 1 {
      QuotientTimes(n, d);
      QuotientTimes(m, d);
      CommonDivisorOfCoprime(n, m, d, n / d, m / d);
    }
  }

  /** c^l/g is a distance that n1 maps to a multiple of c^l. */
  lemma SharedMultiple(o: CodeOptions) returns (b: nat)
    requires WellFormed(o) && Shared(o) > 1
    ensures 0 < b < Space(o) && b * Shared(o) == Space(o) && (b * o.n1) % Space(o) == 0
  {
    GcdDivides(Abs(o.n1), Space(o));
    b := SharedDivisor(Abs(o.n1), Space(o), Shared(o));
    AbsProduct(b, o.n1);
    AbsDivisible(b * o.n1, Space(o));
  }

  lemma AbsProduct(b: nat, n: int)
    ensures Abs(b * n) == b * Abs(n)
  {
  }

  /** While remainders are kept, ids 0 and c^l/g collide. */
  lemma SharedFactor(o: CodeOptions)
    requires Runs(o) && AllSteady(o) && Space(o) <= U64 && !Invertible(o)
    ensures !CodesUnique(o, Space(o))
  {
    SharedAboveOne(o);
    var b := SharedMultiple(o);
    SteadyBelow(o, 0);
    SteadyBelow(o, b);
    SteadyExpand(o, 0);
    SteadyExpand(o, b);
    assert Image(o, b) - Image(o, 0) == b * o.n1;
    ModEqIff(Image(o, b), Image(o, 0), Space(o));
    ModEqIff(Expand(o, b), Expand(o, 0), Space(o));
    CongruentCollide(o, 0, b);
  }

  // -------------------------------------------------------- no wrap that counts

  lemma BrokenBox(o: CodeOptions)
    requires Runs(o) && AllSteady(o) && Space(o) <= U64 && Invertible(o)
    requires !BoxUnique(o)
    ensures !CodesUnique(o, Space(o))
  {
    var m := Space(o);
    var x: nat, y: nat :| x < m && y < m && Encode(o, x) == Encode(o, y) && x != y;
    var a: Uint64, b: Uint64 := IdFor(o, x), IdFor(o, y);
    ExpandIdFor(o, x);
    ExpandIdFor(o, y);
    SameEncodingIfCongruent(o, Expand(o, a), x);
    SameEncodingIfCongruent(o, Expand(o, b), y);
    if a == b {
      ModEqIff(Expand(o, a), x, m);
      ModEqIff(Expand(o, a), y, m);
      SmallModEqual(x, y, m);
    }
    assert Code(o, a) == Code(o, b);
  }

  lemma SteadyUnique(o: CodeOptions)
    requires Runs(o) && AllSteady(o) && BoxSound(o) && Invertible(o)
    ensures CodesUnique(o, Space(o))
  {
    forall a: Uint64, b: Uint64 | a < Space(o) && b < Space(o) && Code(o, a) == Code(o, b) ensures a == b {
      SteadyBelow(o, a);
      SteadyBelow(o, b);
      CodePeriod(o, a, b);
      SmallModEqual(a, b, Space(o));
    }
  }

  // ------------------------------------------------------------ wrapping salts

  /** The images of the first c^l ids leave uint64 at most once, above for a
      positive n1 and below for a negative one. */
  predicate WrapsAtMostOnce(o: CodeOptions)
    requires WellFormed(o)
  {
    -U64 <= Image(o, Space(o) - 1) < 2 * U64
  }

  /** What a wrap takes away from the image. */
  function Lap(o: CodeOptions): int { if o.n1 < 0 then -U64 else U64 }

  lemma ExpandOnce(o: CodeOptions, a: nat)
    requires WellFormed(o) && WrapsAtMostOnce(o) && a < Space(o)
    ensures Expand(o, a) == Image(o, a) - if NoWrap(o, a) then 0 else Lap(o)
  {
    ImagesBetween(o, a, Space(o) - 1);
    ExpandIsImage(o, a);
    if !NoWrap(o, a) {
      var x := Image(o, a);
      DivModUnique(x, U64, if x < 0 then -1 else 1, if x < 0 then x + U64 else x - U64);
    }
  }

  /** The first id whose expansion wraps, among those up to hi. */
  lemma {:induction false} FirstWrap(o: CodeOptions, hi: nat) returns (t: nat)
    requires !NoWrap(o, hi)
    ensures 0 < t <= hi && !NoWrap(o, t) && NoWrap(o, t - 1)
    decreases hi
  {
    if hi == 0 || NoWrap(o, hi - 1) {
      t := hi;
    } else {
      t := FirstWrap(o, hi - 1);
    }
  }

  /** Two ids on either side of the wrap collide, for a distance that n1 maps to a
      lap, modulo c^l. */
  lemma LapCollides(o: CodeOptions, d: nat)
    requires Runs(o) && WrapsAtMostOnce(o) && Space(o) <= U64 && !NoWrap(o, Space(o) - 1)
    requires 0 < d < Space(o) && (d * o.n1 - Lap(o)) % Space(o) == 0
    ensures !CodesUnique(o, Space(o))
  {
    var t := FirstWrap(o, Space(o) - 1);
    var a := if t < d then 0 else t - d;
    AcrossTheWrap(o, a, a + d, t);
    CongruentCollide(o, a, a + d);
  }

  lemma AcrossTheWrap(o: CodeOptions, a: nat, b: nat, t: nat)
    requires WellFormed(o) && WrapsAtMostOnce(o) && 0 < t <= b < Space(o) && a < t
    requires NoWrap(o, t - 1) && !NoWrap(o, t)
    ensures Expand(o, b) - Expand(o, a) == (b - a) * o.n1 - Lap(o)
  {
    NoWrapBelow(o, a, t - 1);
    if NoWrap(o, b) {
      NoWrapBelow(o, t, b);
    }
    ExpandOnce(o, a);
    ExpandOnce(o, b);
    assert b * o.n1 - a * o.n1 == (b - a) * o.n1;
  }

  /** Two ids on one side of the wrap collide, for a distance that n1 maps to a
      multiple of c^l. */
  lemma SameSideCollides(o: CodeOptions, a: nat, b: nat)
    requires Runs(o) && WrapsAtMostOnce(o) && a < b < Space(o) <= U64
    requires NoWrap(o, a) <==> NoWrap(o, b)
    requires ((b - a) * o.n1) % Space(o) == 0
    ensures !CodesUnique(o, Space(o))
  {
    ExpandOnce(o, a);
    ExpandOnce(o, b);
    assert b * o.n1 - a * o.n1 == (b - a) * o.n1;
    CongruentCollide(o, a, b);
  }

  /** An invertible n1 has such a distance for a wrap that counts. */
  lemma HarmfulWrap(o: CodeOptions)
    requires Runs(o) && Invertible(o) && Space(o) <= U64
    requires WrapsAtMostOnce(o) && !NoWrap(o, Space(o) - 1) && U64 % Space(o) != 0
    ensures !CodesUnique(o, Space(o))
  {
    var d := SolveLinear(o.n1, Inverse(o), Space(o), Lap(o));
    assert o.n1 * d == d * o.n1;
    if d == 0 {
      AbsDivisible(-Lap(o), Space(o));
    }
    LapCollides(o, d);
  }

  /** Of three ids in steps of c^l/g, two lie on one side of the wrap. */
  lemma ThreeIds(o: CodeOptions)
    requires Runs(o) && WrapsAtMostOnce(o) && Space(o) <= U64 && Shared(o) >= 3
    ensures !CodesUnique(o, Space(o))
  {
    var b := SharedMultiple(o);
    Doubled(b, Shared(o));
    ImagesBetween(o, 0, 0);
    if NoWrap(o, b) {
      SameSideCollides(o, 0, b);
    } else {
      if NoWrap(o, 2 * b) {
        NoWrapBelow(o, b, 2 * b);
      }
      SameSideCollides(o, b, 2 * b);
    }
  }

  lemma Doubled(b: nat, g: nat)
    requires b > 0 && g >= 3
    ensures 2 * b < b * g
  {
  }

  /** If 2 is all that n1 and c^l share, some distance crosses the wrap: half of n1
      is invertible modulo half of c^l, and a lap is even. */
  lemma SharedTwo(o: CodeOptions)
    requires Runs(o) && WrapsAtMostOnce(o) && Space(o) <= U64 && Shared(o) == 2 && !NoWrap(o, Space(o) - 1)
    ensures !CodesUnique(o, Space(o))
  {
    var n, m := o.n1, Space(o);
    var b := SharedMultiple(o);
    var d := HalfLap(o, b);
    if d == 0 {
      DistanceZero(b, n, m, Lap(o));
      LapCollides(o, b);
    } else {
      LapCollides(o, d);
    }
  }

  lemma DistanceZero(b: int, n: int, m: int, lap: int)
    requires m > 0 && (b * n) % m == 0 && (0 * n - lap) % m == 0
    ensures (b * n - lap) % m == 0
  {
    var i, j := (b * n) / m, (0 * n - lap) / m;
    assert b * n - lap == (i + j) * m;
    MultipleModZero(i + j, m);
  }

  lemma HalfLap(o: CodeOptions, b: nat) returns (d: nat)
    requires WellFormed(o) && Shared(o) == 2 && b * 2 == Space(o)
    ensures d < Space(o) && (d * o.n1 - Lap(o)) % Space(o) == 0
  {
    var k, w := HalfFactor(o.n1, b);
    d := SolveLinear(k, w, b, Lap(o) / 2);
    TwiceSolved(k, d, Lap(o) / 2, b);
  }

  lemma HalfFactor(n: int, b: nat) returns (k: int, w: int)
    requires b > 0 && Gcd(Abs(n), b * 2) == 2
    ensures n == 2 * k && IsInverse(k, w, b)
  {
    GcdDivides(Abs(n), b * 2);
    AbsDivisible(n, 2);
    var (x, y) := Bezout(Abs(n), b * 2);
    k, w := n / 2, if n < 0 then -x else x;
    SameSign(n, x);
    HalfInverse(k, w, b, y);
  }

  lemma HalfInverse(k: int, w: int, b: int, y: int)
    requires b > 0 && (2 * k) * w + (b * 2) * y == 2
    ensures IsInverse(k, w, b)
  {
    assert (2 * k) * w == 2 * (k * w) && (b * 2) * y == 2 * (b * y);
    assert k * w - 1 == (-y) * b;
    MultipleModZero(-y, b);
  }

  lemma TwiceSolved(k: int, d: int, half: int, b: int)
    requires b > 0 && (k * d - half) % b == 0
    ensures (d * (2 * k) - 2 * half) % (b * 2) == 0
  {
    var q := (k * d - half) / b;
    assert k * d - half == q * b;
    assert d * (2 * k) == 2 * (k * d) && q * (b * 2) == 2 * (q * b);
    MultipleModZero(q, b * 2);
  }

  /** A wrap that counts, and a factor that is not invertible. */
  lemma SharedWrap(o: CodeOptions)
    requires Runs(o) && WrapsAtMostOnce(o) && Space(o) <= U64 && !Invertible(o) && !NoWrap(o, Space(o) - 1)
    ensures !CodesUnique(o, Space(o))
  {
    SharedAboveOne(o);
    if Shared(o) == 2 {
      SharedTwo(o);
    } else {
      ThreeIds(o);
    }
  }

  /** When a wrap counts, one is too many, whatever the other settings. */
  lemma AnyWrap(o: CodeOptions)
    requires Runs(o) && WrapsAtMostOnce(o) && Space(o) <= U64 && !AllSteady(o)
    ensures !CodesUnique(o, Space(o))
  {
    if Invertible(o) {
      HarmfulWrap(o);
    } else {
      SharedWrap(o);
    }
  }

  // --------------------------------------------- more codes than ids: c^l > 2^64

  lemma PowTwo64()
    ensures Pow(2, 64) == U64
  {
    assert Pow(2, 4) == 2 * Pow(2, 3) == 4 * Pow(2, 2) == 8 * Pow(2, 1) == 16;
    PowSum(2, 4, 4);
    PowSum(2, 8, 8);
    PowSum(2, 16, 16);
    PowSum(2, 32, 32);
  }

  /** The inverse of an odd n1 modulo 2^64. */
  lemma OddInverse(n: int) returns (x: int)
    requires n % 2 != 0
    ensures IsInverse(n, x, U64)
  {
    AbsDivisible(n, 2);
    assert Gcd(Abs(n), 2) == Gcd(2, Abs(n) % 2) == Gcd(2, 1) == Gcd(1, 0) == 1;
    PowTwo64();
    x := SignedInverse(n, 2, 64);
  }

  /** For an odd n1 the expansion permutes uint64. */
  lemma ExpandPermutes(o: CodeOptions, x: Uint64) returns (a: Uint64)
    requires o.n1 % 2 != 0
    ensures Expand(o, a) == x
  {
    var i := OddInverse(o.n1);
    a := SolveLinear(o.n1, i, U64, x - o.salt);
    assert o.n1 * a - (x - o.salt) == Image(o, a) - x;
    ExpandIsImage(o, a);
    ModEqIff(Image(o, a), x, U64);
    DivModUnique(x, U64, 0, x);
  }

  lemma ExpandInjective(o: CodeOptions, a: Uint64, b: Uint64)
    requires o.n1 % 2 != 0 && Expand(o, a) == Expand(o, b)
    ensures a == b
  {
    var i := OddInverse(o.n1);
    ExpandIsImage(o, a);
    ExpandIsImage(o, b);
    ModEqIff(Image(o, a), Image(o, b), U64);
    assert o.n1 * (a - b) == Image(o, a) - Image(o, b);
    CancelFactor(o.n1, i, U64, a - b);
    ModEqIff(a, b, U64);
    SmallModEqual(a, b, U64);
  }

  /** For an even n1 ids 0 and 2^63 expand to one number. */
  lemma EvenCollides(o: CodeOptions)
    requires Runs(o) && o.n1 % 2 == 0
    ensures !CodesUnique(o, U64)
  {
    var half: Uint64 := U64 / 2;
    var zero: Uint64 := 0;
    ExpandIsImage(o, half);
    ExpandIsImage(o, zero);
    assert Image(o, half) == Image(o, zero) + (o.n1 / 2) * U64;
    AddMultipleMod(Image(o, zero), o.n1 / 2, U64);
    assert Code(o, zero) == Code(o, half);
  }

  /** All 2^64 ids have different codes exactly when n1 is odd and the box keeps all
      uint64 numbers apart, whatever the salt and the number of wraps. */
  lemma AllIdsExact(o: CodeOptions)
    requires Runs(o)
    ensures CodesUnique(o, U64) <==> o.n1 % 2 != 0 && EncodesApart(o, U64)
  {
    if o.n1 % 2 == 0 {
      EvenCollides(o);
    } else if EncodesApart(o, U64) {
      forall a: Uint64, b: Uint64 | Code(o, a) == Code(o, b) ensures a == b {
        ExpandInjective(o, a, b);
      }
    } else {
      var x: nat, y: nat :| x < U64 && y < U64 && Encode(o, x) == Encode(o, y) && x != y;
      var a := ExpandPermutes(o, x);
      var b := ExpandPermutes(o, y);
      assert Code(o, a) == Code(o, b);
    }
  }

  /** With a sound box of at least 2^64 codes that is: n1 is odd. */
  lemma LongCodesExact(o: CodeOptions)
    requires Runs(o) && BoxSound(o) && Space(o) >= U64
    ensures CodesUnique(o, U64) <==> o.n1 % 2 != 0
  {
    AllIdsExact(o);
    forall x: nat, y: nat | x < U64 && y < U64 && Encode(o, x) == Encode(o, y) ensures x == y {
      SameEncoding(o, x, y);
      SmallModEqual(x, y, Space(o));
    }
  }

  // ---------------------------------------------------------------- the result

  /** The ids below c^l get different codes, for n1 of either sign, exactly when:
      - if c^l is at most 2^64, the box is sound, nothing above 1 divides both n1 and
        c, and n1*id + salt stays within uint64 or c^l divides 2^64 (or c is 1);
      - if c^l is more, and the ids are all there are, n1 is odd and the box keeps
        uint64 numbers apart.
      Settings that wrap more than once are included if c^l divides 2^64 or is more. */
  lemma UniqueExact(o: CodeOptions)
    requires Runs(o)
    requires Space(o) > U64 || U64 % Space(o) == 0 || WrapsAtMostOnce(o)
    ensures CodesUnique(o, Space(o)) <==>
            if Space(o) <= U64 then
              |o.chars| == 1 || (BoxSound(o) && ShareNoDivisor(o.n1, |o.chars|) && AllSteady(o))
            else o.n1 % 2 != 0 && EncodesApart(o, U64)
  {
    CoprimeIff(o.n1, |o.chars|);
    if Space(o) > U64 {
      AllIdsExact(o);
      assert CodesUnique(o, Space(o)) <==> CodesUnique(o, U64);
    } else if |o.chars| == 1 {
      PowOne(o.l);
    } else if !AllSteady(o) {
      AnyWrap(o);
    } else if !Invertible(o) {
      SharedFactor(o);
    } else if !BoxSound(o) {
      BoxUniqueExact(o);
      BrokenBox(o);
    } else {
      SteadyUnique(o);
    }
  }

  // ------------------------------------------------------------- several wraps

  const LUCKY := CodeOptions("abcde", 7900000000000000004, 1, 1, 11000000000000000004)

  lemma LuckyBox()
    ensures Runs(LUCKY) && BoxSound(LUCKY) && Space(LUCKY) == 5
  {
    var o := LUCKY;
    assert Pow(5, 1) == 5 * Pow(5, 0) == 5;
    assert Gcd(1, 1) == Gcd(1, 0) == 1;
    assert o.chars[0] == 'a' && o.chars[1] == 'b' && o.chars[2] == 'c' && o.chars[3] == 'd' && o.chars[4] == 'e';
    BoxSoundInRange(o);
  }

  lemma LuckyExpand()
    ensures Expand(LUCKY, 0) % 5 == 4 && Expand(LUCKY, 1) % 5 == 2 && Expand(LUCKY, 2) % 5 == 1
    ensures Expand(LUCKY, 3) % 5 == 0 && Expand(LUCKY, 4) % 5 == 3
  {
  }

  /** One setting with c^l below 2^64 that UniqueExact does not cover: the first five
      images pass 2^64 twice, 5 does not divide 2^64, and the codes differ still. */
  lemma LuckyWraps()
    ensures Runs(LUCKY) && !WrapsAtMostOnce(LUCKY) && !AllSteady(LUCKY) && CodesUnique(LUCKY, Space(LUCKY))
  {
    var o := LUCKY;
    LuckyBox();
    LuckyExpand();
    forall a: nat, b: nat | a < 5 && b < 5 && Code(o, a) == Code(o, b) ensures a == b {
      SameEncoding(o, Expand(o, a), Expand(o, b));
    }
  }
}
