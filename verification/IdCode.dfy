/** The short-code generator of id/code.go and its options (id/options.go).
    An id is spread over the uint64 range, written in base c, mixed digit by
    digit in byte arithmetic and finally read out in a permuted order. */
module IdCode {
  import opened Arithmetic

  const U64 := 0x1_0000_0000_0000_0000

  type Uint64 = x: nat | x < U64

  /** n1, n2 and l are Go ints. */
  datatype CodeOptions = CodeOptions(chars: seq<char>, n1: int, n2: int, l: int, salt: Uint64)

  /** A functional option, as passed to NewCode. */
  datatype CodeOption =
    | WithCodeChars(arr: seq<char>)
    | WithCodeN1(n1: int)
    | WithCodeN2(n2: int)
    | WithCodeL(l: int)
    | WithCodeSalt(salt: Uint64)

  const DEFAULT_OPTIONS := CodeOptions("23456789ABCDEFGHJKLMNPQRSTVWXY", 17, 5, 8, 123567369)

  function Apply(o: CodeOptions, f: CodeOption): CodeOptions {
    match f
    case WithCodeChars(arr) => if |arr| > 0 then o.(chars := arr) else o
    case WithCodeN1(n1) => o.(n1 := n1)
    case WithCodeN2(n2) => o.(n2 := n2)
    case WithCodeL(l) => if l > 0 then o.(l := l) else o
    case WithCodeSalt(salt) => if salt > 0 then o.(salt := salt) else o
  }

  function Configure(o: CodeOptions, fs: seq<CodeOption>): CodeOptions
    decreases |fs|
  {
    if fs == [] then o else Configure(Apply(o, fs[0]), fs[1..])
  }

  /** What the setters guarantee: an alphabet and a positive length. */
  predicate WellFormed(o: CodeOptions) {
    |o.chars| > 0 && o.l > 0
  }

  lemma {:induction false} ConfigureWellFormed(o: CodeOptions, fs: seq<CodeOption>)
    requires WellFormed(o)
    ensures WellFormed(Configure(o, fs))
    decreases |fs|
  {
    if fs != [] {
      ConfigureWellFormed(Apply(o, fs[0]), fs[1..]);
    }
  }

  /** One option more changes its own field, if its argument is usable, and no other. */
  lemma {:induction false} ConfigureSnoc(o: CodeOptions, fs: seq<CodeOption>, f: CodeOption)
    ensures var p, q := Configure(o, fs), Configure(o, fs + [f]);
            && q.chars == (if f.WithCodeChars? && f.arr != [] then f.arr else p.chars)
            && q.n1 == (if f.WithCodeN1? then f.n1 else p.n1)
            && q.n2 == (if f.WithCodeN2? then f.n2 else p.n2)
            && q.l == (if f.WithCodeL? && f.l > 0 then f.l else p.l)
            && q.salt == (if f.WithCodeSalt? && f.salt > 0 then f.salt else p.salt)
    decreases |fs|
  {
    if fs == [] {
      assert ([] + [f])[1..] == [];
    } else {
      ConfigureSnoc(Apply(o, fs[0]), fs[1..], f);
      assert (fs + [f])[1..] == fs[1..] + [f];
    }
  }

  // ------------------------------------------------------------ specification

  function Byte(x: int): (b: nat)
    ensures b < 256
  {
    x % 256
  }

  /** The factor n1 after its conversion to uint64. */
  function Factor(o: CodeOptions): (n: nat)
    ensures n < U64
  {
    o.n1 % U64
  }

  /** id * n1 + salt in wrapping uint64 arithmetic. */
  function Expand(o: CodeOptions, id: nat): (x: nat)
    ensures x < U64
  {
    (id * Factor(o) + o.salt) % U64
  }

  predicate AreDigits(ds: seq<nat>, c: nat) {
    forall i | 0 <= i < |ds| :: ds[i] < c
  }

  /** The l lowest base-c digits of x, least significant first. */
  function Digits(x: nat, c: nat, l: nat): (ds: seq<nat>)
    requires c > 0
    ensures |ds| == l && AreDigits(ds, c)
    decreases l
  {
    if l == 0 then [] else [x % c] + Digits(x / c, c, l - 1)
  }

  function Value(ds: seq<nat>, c: nat): nat {
    if ds == [] then 0 else ds[0] + c * Value(ds[1..], c)
  }

  /** What digit 0 adds to digit i, in byte arithmetic. */
  function Shift(i: nat, first: nat): (b: nat)
    ensures b < 256
  {
    Byte(Byte(i) * first)
  }

  function MixDigit(d: nat, first: nat, i: nat, c: nat): (e: nat)
    requires Byte(c) > 0
    ensures e < Byte(c)
  {
    Byte(Byte(d) + Shift(i, first)) % Byte(c)
  }

  /** Digit 0 after its own turn in the loop: it shifts itself by zero. */
  function MixFirst(ds: seq<nat>, c: nat): (e: nat)
    requires Byte(c) > 0
    ensures e < Byte(c)
  {
    if ds == [] then 0 else MixDigit(ds[0], 0, 0, c)
  }

  function Mix(ds: seq<nat>, c: nat): (es: seq<nat>)
    requires Byte(c) > 0
    ensures |es| == |ds|
    ensures forall i | 0 <= i < |es| :: es[i] == MixDigit(ds[i], MixFirst(ds, c), i, c)
    ensures forall i | 0 <= i < |es| :: es[i] < Byte(c)
  {
    seq(|ds|, i requires 0 <= i < |ds| => MixDigit(ds[i], MixFirst(ds, c), i, c))
  }

  /** The position read out as character i of the code. */
  function Slot(n2: int, l: nat, i: nat): (k: nat)
    requires Byte(l) > 0
    ensures k < Byte(l) <= l
  {
    Byte(Byte(i) * Byte(n2)) % Byte(l)
  }

  /** The byte divisors are non-zero, so neither loop divides by zero. */
  predicate Runs(o: CodeOptions) {
    WellFormed(o) && Byte(|o.chars|) > 0 && Byte(o.l) > 0
  }

  function EncodeDigits(o: CodeOptions, ds: seq<nat>): (s: string)
    requires Runs(o) && |ds| == o.l
    ensures |s| == o.l
    ensures forall i | 0 <= i < |s| :: s[i] == o.chars[Mix(ds, |o.chars|)[Slot(o.n2, o.l, i)]]
  {
    seq(o.l, i requires 0 <= i < o.l => o.chars[Mix(ds, |o.chars|)[Slot(o.n2, o.l, i)]])
  }

  /** The code of an already expanded number. */
  function Encode(o: CodeOptions, x: nat): (s: string)
    requires Runs(o)
    ensures |s| == o.l
  {
    EncodeDigits(o, Digits(x, |o.chars|, o.l))
  }

  function Code(o: CodeOptions, id: nat): (s: string)
    requires Runs(o)
    ensures |s| == o.l
  {
    Encode(o, Expand(o, id))
  }

  /** The number of codes: the size of the alphabet to the power of the length. */
  function Space(o: CodeOptions): (m: nat)
    requires WellFormed(o)
    ensures m > 0
  {
    Pow(|o.chars|, o.l)
  }

  // ---------------------------------------------------------------- generator

  lemma DigitsStep(x: nat, c: nat, l: nat)
    requires c > 0 && l > 0
    ensures x / c >= 0
    ensures Digits(x, c, l)[0] == x % c && Digits(x, c, l)[1..] == Digits(x / c, c, l - 1)
  {
  }

  /** One turn of the mixing loop, read off the digits already stored. */
  lemma MixStep(ds: seq<nat>, c: nat, i: nat)
    requires Byte(c) > 0 && i < |ds|
    ensures var first := if i == 0 then Byte(ds[0]) else Mix(ds, c)[0];
            Mix(ds, c)[i] == Byte(Byte(ds[i]) + Shift(i, first)) % Byte(c)
  {
    if i == 0 {
      assert Byte(0) == 0 && 0 * Byte(ds[0]) == 0;
    }
    assert 0 * MixFirst(ds, c) == 0;
  }

  datatype Outcome = Made(code: string) | DivideByZero

  /** The first loop: extract the digits one by one, mixing digit 0 into each. */
  method FillSlots(o: CodeOptions, id: nat, slIdx: array<nat>)
    requires WellFormed(o) && Byte(|o.chars|) > 0 && slIdx.Length == o.l
    modifies slIdx
    ensures slIdx[..] == Mix(Digits(id, |o.chars|, o.l), |o.chars|)
  {
    var c := |o.chars|;
    var x: nat := id;
    ghost var ds := Digits(id, c, o.l);
    var i := 0;
    while i < o.l
      invariant 0 <= i <= o.l
      invariant ds[i..] == Digits(x, c, o.l - i)
      invariant forall j | 0 <= j < i :: slIdx[j] == Mix(ds, c)[j]
    {
      DigitsStep(x, c, o.l - i);
      assert ds[i] == ds[i..][0] && ds[i + 1..] == ds[i..][1..];
      MixStep(ds, c, i);
      slIdx[i] := Byte(x % c);
      slIdx[i] := Byte(slIdx[i] + Byte(Byte(i) * slIdx[0])) % Byte(c);
      x := x / c;
      i := i + 1;
    }
  }

  /** The second loop: read the slots out in permuted order. */
  method ReadOut(o: CodeOptions, slIdx: array<nat>, ghost ds: seq<nat>) returns (code: string)
    requires Runs(o) && |ds| == o.l && slIdx[..] == Mix(ds, |o.chars|)
    ensures code == EncodeDigits(o, ds)
  {
    code := "";
    var i := 0;
    while i < o.l
      invariant 0 <= i <= o.l
      invariant code == EncodeDigits(o, ds)[..i]
    {
      var idx := Byte(Byte(i) * Byte(o.n2)) % Byte(o.l);
      assert idx == Slot(o.n2, o.l, i) && slIdx[idx] == slIdx[..][idx];
      code := code + [o.chars[slIdx[idx]]];
      i := i + 1;
    }
  }

  method NewCode(id: nat, options: seq<CodeOption>) returns (r: Outcome)
    requires id < U64
    ensures var o := Configure(DEFAULT_OPTIONS, options);
            WellFormed(o) && (Runs(o) <==> |o.chars| % 256 != 0 && o.l % 256 != 0) &&
            r == if Runs(o) then Made(Code(o, id)) else DivideByZero
  {
    var o := Configure(DEFAULT_OPTIONS, options);
    ConfigureWellFormed(DEFAULT_OPTIONS, options);
    var x := Expand(o, id);
    var slIdx := new nat[o.l];
    if Byte(|o.chars|) == 0 {
      return DivideByZero;
    }
    FillSlots(o, x, slIdx);
    if Byte(o.l) == 0 {
      return DivideByZero;
    }
    var code := ReadOut(o, slIdx, Digits(x, |o.chars|, o.l));
    return Made(code);
  }

  // ------------------------------------------------------- positional numbers

  /** Reading l digits back gives x modulo c^l. */
  lemma {:induction false} ValueOfDigits(x: nat, c: nat, l: nat)
    requires c > 0
    ensures Value(Digits(x, c, l), c) == x % Pow(c, l)
    decreases l
  {
    if l > 0 {
      var p := Pow(c, l - 1);
      var ds := Digits(x, c, l);
      assert ds[0] == x % c && ds[1..] == Digits(x / c, c, l - 1);
      ValueOfDigits(x / c, c, l - 1);
      HornerMod(x, c, p);
    }
  }

  lemma HornerMod(x: nat, c: nat, p: nat)
    requires c > 0 && p > 0
    ensures c * p > 0 && x % (c * p) == x % c + c * ((x / c) % p)
  {
    var q, y := (x / c) / p, (x / c) % p;
    assert x == (x / c) * c + x % c && x / c == q * p + y;
    HornerBound(x % c, y, c, p);
    assert (q * p + y) * c == q * (c * p) + c * y;
    DivModUnique(x, c * p, q, x % c + c * y);
  }

  lemma HornerBound(r: int, y: int, c: int, p: int)
    requires 0 <= r < c && 0 <= y < p
    ensures 0 <= r + c * y < c * p
  {
    assert c * y <= c * (p - 1);
    assert 0 <= c * y;
  }

  /** A digit string is recovered from the number it denotes. */
  lemma {:induction false} DigitsOfValue(ds: seq<nat>, c: nat)
    requires c > 0 && AreDigits(ds, c)
    ensures Value(ds, c) < Pow(c, |ds|)
    ensures Digits(Value(ds, c), c, |ds|) == ds
  {
    if ds != [] {
      DigitsOfValue(ds[1..], c);
      var v := Value(ds[1..], c);
      HornerBound(ds[0], v, c, Pow(c, |ds| - 1));
      DivModUnique(Value(ds, c), c, v, ds[0]);
    }
  }

  lemma DigitsAgree(x: nat, y: nat, c: nat, l: nat)
    requires c > 0
    ensures Digits(x, c, l) == Digits(y, c, l) <==> x % Pow(c, l) == y % Pow(c, l)
  {
    DigitsOfRemainder(x, c, l);
    DigitsOfRemainder(y, c, l);
    ValueOfDigits(x, c, l);
    ValueOfDigits(y, c, l);
  }

  lemma DigitsOfRemainder(x: nat, c: nat, l: nat)
    requires c > 0
    ensures Digits(x % Pow(c, l), c, l) == Digits(x, c, l)
  {
    ValueOfDigits(x, c, l);
    DigitsOfValue(Digits(x, c, l), c);
  }

  // --------------------------------------------------- when the mixing is safe

  predicate Distinct(cs: seq<char>) {
    forall i, j | 0 <= i < j < |cs| :: cs[i] != cs[j]
  }

  /** No byte sum of a digit and a shift wraps, or wrapping does no harm
      because c divides 256. */
  predicate MixSafe(c: nat, l: nat) {
    && 0 < c <= 255
    && (256 % c == 0 || forall i, d | 0 <= i < l && 0 <= d < c :: Shift(i, d) + c <= 256)
  }

  /** Every stored digit is read out by some character of the code. */
  ghost predicate AllSlotsUsed(n2: int, l: nat)
    requires Byte(l) > 0
  {
    forall k: nat | k < l :: SlotUsed(n2, l, k)
  }

  ghost predicate SlotUsed(n2: int, l: nat, k: nat)
    requires Byte(l) > 0
  {
    exists i: nat | i < l :: Slot(n2, l, i) == k
  }

  ghost predicate BoxSound(o: CodeOptions)
    requires Runs(o)
  {
    Distinct(o.chars) && MixSafe(|o.chars|, o.l) && AllSlotsUsed(o.n2, o.l)
  }

  function UnmixDigit(e: nat, first: nat, i: nat, c: nat): (d: nat)
    requires c > 0
    ensures d < c
  {
    (e - Shift(i, first)) % c
  }

  lemma SafeMixDigit(d: nat, first: nat, i: nat, c: nat, l: nat)
    requires MixSafe(c, l) && d < c && first < c && i < l
    ensures Byte(c) == c && MixDigit(d, first, i, c) == (d + Shift(i, first)) % c
  {
    var u := d + Shift(i, first);
    assert Byte(d) == d && Byte(c) == c;
    if 256 % c == 0 {
      ByteThenMod(u, c);
    } else {
      assert u < 256;
    }
  }

  lemma ByteThenMod(u: nat, c: nat)
    requires c > 0 && 256 % c == 0
    ensures Byte(u) % c == u % c
  {
    var k := 256 / c;
    assert 256 == k * c;
    ModOfMultiple(u, k, c);
  }

  /** With one fixed digit 0, mixing and unmixing a digit undo each other. */
  lemma UnmixMix(d: nat, first: nat, i: nat, c: nat, l: nat)
    requires MixSafe(c, l) && d < c && first < c && i < l
    ensures Byte(c) == c && UnmixDigit(MixDigit(d, first, i, c), first, i, c) == d
  {
    SafeMixDigit(d, first, i, c, l);
    ModSumLeft(d + Shift(i, first), 0 - Shift(i, first), c);
    DivModUnique(d, c, 0, d);
  }

  lemma MixUnmix(e: nat, first: nat, i: nat, c: nat, l: nat)
    requires MixSafe(c, l) && e < c && first < c && i < l
    ensures Byte(c) == c && MixDigit(UnmixDigit(e, first, i, c), first, i, c) == e
  {
    SafeMixDigit(UnmixDigit(e, first, i, c), first, i, c, l);
    ModSumLeft(e - Shift(i, first), Shift(i, first), c);
    DivModUnique(e, c, 0, e);
  }

  /** The whole mixing step undone: digit 0 first, then every digit. */
  function Unmix(es: seq<nat>, c: nat): (ds: seq<nat>)
    requires c > 0
    ensures |ds| == |es| && AreDigits(ds, c)
    ensures forall i | 0 <= i < |es| :: ds[i] == UnmixDigit(es[i], es[0], i, c)
  {
    seq(|es|, i requires 0 <= i < |es| => UnmixDigit(es[i], es[0], i, c))
  }

  lemma MixKeepsFirst(ds: seq<nat>, c: nat)
    requires 0 < c <= 255 && AreDigits(ds, c) && ds != []
    ensures Byte(c) == c && MixFirst(ds, c) == ds[0] == Mix(ds, c)[0]
  {
    assert Shift(0, 0) == 0 && Shift(0, ds[0]) == 0;
    DivModUnique(ds[0], c, 0, ds[0]);
  }

  lemma UnmixOfMix(ds: seq<nat>, c: nat)
    requires MixSafe(c, |ds|) && AreDigits(ds, c)
    ensures Byte(c) == c && Unmix(Mix(ds, c), c) == ds
  {
    if ds != [] {
      MixKeepsFirst(ds, c);
      forall i | 0 <= i < |ds| ensures Unmix(Mix(ds, c), c)[i] == ds[i] {
        UnmixMix(ds[i], ds[0], i, c, |ds|);
      }
    }
  }

  lemma MixOfUnmix(es: seq<nat>, c: nat)
    requires MixSafe(c, |es|) && AreDigits(es, c)
    ensures Byte(c) == c && Mix(Unmix(es, c), c) == es
  {
    var ds := Unmix(es, c);
    if es != [] {
      assert Shift(0, es[0]) == 0;
      DivModUnique(es[0], c, 0, es[0]);
      assert ds[0] == es[0];
      MixKeepsFirst(ds, c);
      forall i | 0 <= i < |es| ensures Mix(ds, c)[i] == es[i] {
        MixUnmix(es[i], es[0], i, c, |es|);
      }
    }
  }

  // -------------------------------------------------- the permutation of slots

  /** Where slot k is read out: the search over the l positions. */
  function FindSlot(n2: int, l: nat, k: nat, i: nat): (j: nat)
    requires Byte(l) > 0 && i <= l
    ensures j <= l && (j < l ==> Slot(n2, l, j) == k)
    ensures j == l ==> forall m | i <= m < l :: Slot(n2, l, m) != k
    decreases l - i
  {
    if i == l then l else if Slot(n2, l, i) == k then i else FindSlot(n2, l, k, i + 1)
  }

  lemma FindSlotFinds(n2: int, l: nat, k: nat)
    requires Byte(l) > 0 && AllSlotsUsed(n2, l) && k < l
    ensures FindSlot(n2, l, k, 0) < l && Slot(n2, l, FindSlot(n2, l, k, 0)) == k
  {
    assert SlotUsed(n2, l, k);
  }

  function SlotSet(n2: int, l: nat, at: set<nat>): (ks: set<nat>)
    requires Byte(l) > 0
  {
    set i | i in at :: Slot(n2, l, i)
  }

  lemma {:induction false} SlotSetSize(n2: int, l: nat, at: set<nat>)
    requires Byte(l) > 0
    ensures |SlotSet(n2, l, at)| <= |at|
    decreases |at|
  {
    if at != {} {
      var i :| i in at;
      SlotSetSize(n2, l, at - {i});
      assert SlotSet(n2, l, at) == SlotSet(n2, l, at - {i}) + {Slot(n2, l, i)};
    }
  }

  function Below(l: nat): (s: set<nat>)
    ensures |s| == l && forall i: nat :: i in s <==> i < l
  {
    if l == 0 then {} else Below(l - 1) + {l - 1}
  }

  /** Counting: if every slot is used, no slot is used twice. */
  lemma SlotsInjective(n2: int, l: nat, i: nat, j: nat)
    requires Byte(l) > 0 && AllSlotsUsed(n2, l)
    requires i < l && j < l && Slot(n2, l, i) == Slot(n2, l, j)
    ensures i == j
  {
    if i != j {
      var rest := Below(l) - {j};
      assert |rest| == l - 1;
      forall k | k in Below(l) ensures k in SlotSet(n2, l, rest) {
        assert SlotUsed(n2, l, k);
        var m: nat :| m < l && Slot(n2, l, m) == k;
        if m == j {
          assert i in rest;
        } else {
          assert m in rest;
        }
      }
      assert Below(l) <= SlotSet(n2, l, rest);
      SubsetSize(Below(l), SlotSet(n2, l, rest));
      SlotSetSize(n2, l, rest);
    }
  }

  lemma {:induction false} SubsetSize(a: set<nat>, b: set<nat>)
    requires a <= b
    ensures |a| <= |b|
    decreases |a|
  {
    if a != {} {
      var x :| x in a;
      SubsetSize(a - {x}, b - {x});
    }
  }

  /** Within byte range the slots form a permutation exactly when n2 is coprime
      to the length, which is the condition the defaults are commented with. */
  lemma SlotsExact(n2: nat, l: nat)
    requires 0 < l <= 255 && (l - 1) * n2 <= 255 && n2 <= 255
    ensures Byte(l) == l && (AllSlotsUsed(n2, l) <==> Coprime(n2, l))
  {
    if Coprime(n2, l) {
      forall k: nat | k < l ensures SlotUsed(n2, l, k) {
        var i := SlotOfInverse(n2, l, k);
        SlotInRange(n2, l, i);
      }
    } else if AllSlotsUsed(n2, l) {
      SlotsMissOne(n2, l);
      assert SlotUsed(n2, l, 1);
      var i: nat :| i < l && Slot(n2, l, i) == 1;
      SlotInRange(n2, l, i);
    }
  }

  lemma SlotInRange(n2: nat, l: nat, i: nat)
    requires i < l <= 255 && (l - 1) * n2 <= 255 && n2 <= 255
    ensures Byte(l) == l && Slot(n2, l, i) == (i * n2) % l
  {
    ProductInRange(i, l - 1, n2);
    ByteSmall(i);
    ByteSmall(n2);
    ByteSmall(i * n2);
    ByteSmall(l);
  }

  lemma ProductInRange(i: nat, j: nat, n: nat)
    requires i <= j
    ensures 0 <= i * n <= j * n
  {
  }

  lemma ByteSmall(x: nat)
    requires x < 256
    ensures Byte(x) == x
  {
  }

  lemma SlotOfInverse(n2: nat, l: nat, k: nat) returns (i: nat)
    requires 0 < l && k < l && Coprime(n2, l)
    ensures i < l && (i * n2) % l == k
  {
    assert Pow(l, 1) == l * Pow(l, 0) == l;
    i := SolveLinear(n2, InversePow(n2, l, 1), l, k);
    ModEqIff(n2 * i, k, l);
    DivModUnique(k, l, 0, k);
  }

  lemma SlotsMissOne(n2: nat, l: nat)
    requires 0 < l && !Coprime(n2, l)
    ensures 1 < l && forall i: nat :: (i * n2) % l != 1
  {
    var g := Gcd(n2, l);
    GcdDivides(n2, l);
    if l == 1 {
      DivModUnique(1, g, 0, 1);
    }
    forall i: nat ensures (i * n2) % l != 1 {
      assert l == (l / g) * g;
      ScaleMod(i, n2, g);
      ModOfMultiple(i * n2, l / g, g);
      DivModUnique(1, g, 0, 1);
    }
  }
}
