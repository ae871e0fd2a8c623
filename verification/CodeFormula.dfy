/** What character stands where in a code, as a formula in plain integers. */
module CodeFormula {
  import opened Arithmetic
  import opened IdCode

  lemma DivTwice(x: nat, c: nat, p: nat)
    requires c > 0 && p > 0
    ensures c * p > 0 && (x / c) / p == x / (c * p)
  {
    var q, r := x / c, x % c;
    var u, v := q / p, q % p;
    assert q == u * p + v;
    assert c * (u * p + v) == u * (c * p) + c * v;
    assert x == u * (c * p) + (c * v + r);
    HornerBound(r, v, c, p);
    DivModUnique(x, c * p, u, c * v + r);
  }

  /** Digit k of x in base c. */
  lemma {:induction false} DigitAt(x: nat, c: nat, l: nat, k: nat)
    requires c > 0 && k < l
    ensures Digits(x, c, l)[k] == (x / Pow(c, k)) % c
    decreases k
  {
    DigitsStep(x, c, l);
    if k > 0 {
      DigitAt(x / c, c, l - 1, k - 1);
      DivTwice(x, c, Pow(c, k - 1));
      assert Digits(x, c, l)[k] == Digits(x, c, l)[1..][k - 1];
    }
  }

  lemma ExpandFormula(o: CodeOptions, id: nat)
    ensures Expand(o, id) == (id * o.n1 + o.salt) % U64
  {
    var q := o.n1 / U64;
    assert o.n1 == Factor(o) + q * U64;
    assert id * (Factor(o) + q * U64) == id * Factor(o) + (id * q) * U64;
    AddMultipleMod(id * Factor(o) + o.salt, id * q, U64);
  }

  /** Digit 0 is stored reduced, and shifts itself by nothing. */
  lemma FirstStored(ds: seq<nat>, c: nat)
    requires c % 256 > 0 && ds != []
    ensures MixFirst(ds, c) == ds[0] % 256 % (c % 256)
  {
    assert Byte(0) * 0 == 0;
    assert Shift(0, 0) == 0;
    ByteSmall(Byte(ds[0]));
  }

  lemma MixedAt(ds: seq<nat>, c: nat, k: nat)
    requires c % 256 > 0 && k < |ds| && k < 256
    ensures var e := ds[0] % 256 % (c % 256);
            Mix(ds, c)[k] == (ds[k] % 256 + (k * e) % 256) % 256 % (c % 256)
  {
    var e := ds[0] % 256 % (c % 256);
    FirstStored(ds, c);
    ByteSmall(k);
    assert Mix(ds, c)[k] == MixDigit(ds[k], e, k, c);
  }

  /** Every character of every code, for all settings that run. With y the wrapped
      n1*id + salt, position i shows digit k = i*n2 mod l, in byte arithmetic, to which
      k times the stored digit 0 has been added. */
  lemma CodeFormula(o: CodeOptions, id: nat, i: nat)
    requires Runs(o) && i < o.l
    ensures var c, y := |o.chars|, (id * o.n1 + o.salt) % U64;
            var k := ((i % 256) * (o.n2 % 256)) % 256 % (o.l % 256);
            var e := (y % c) % 256 % (c % 256);
            var d := (y / Pow(c, k)) % c;
            Code(o, id)[i] == o.chars[(d % 256 + (k * e) % 256) % 256 % (c % 256)]
  {
    var c, y := |o.chars|, (id * o.n1 + o.salt) % U64;
    var k := Slot(o.n2, o.l, i);
    ExpandFormula(o, id);
    DigitAt(y, c, o.l, k);
    DigitAt(y, c, o.l, 0);
    assert y / Pow(c, 0) == y;
    MixedAt(Digits(y, c, o.l), c, k);
  }

  /** The same when no byte overflows. */
  lemma CodeInRange(o: CodeOptions, id: nat, i: nat)
    requires WellFormed(o) && |o.chars| <= 255 && o.l <= 255 && 0 <= o.n2 <= 255
    requires (o.l - 1) * (|o.chars| - 1) + |o.chars| <= 256 && (o.l - 1) * o.n2 <= 255
    requires i < o.l
    ensures var c, y, k := |o.chars|, (id * o.n1 + o.salt) % U64, (i * o.n2) % o.l;
            Runs(o) && Code(o, id)[i] == o.chars[(y / Pow(c, k) + k * (y % c)) % c]
  {
    var c, y, k := |o.chars|, (id * o.n1 + o.salt) % U64, (i * o.n2) % o.l;
    CodeFormula(o, id, i);
    SlotNoOverflow(i, o.n2, o.l);
    var q := y / Pow(c, k);
    NoOverflow(q % c, k, y % c, o.l, c);
    ModSumLeft(q, k * (y % c), c);
  }

  lemma SlotNoOverflow(i: nat, n2: nat, l: nat)
    requires i < l <= 255 && n2 <= 255 && (l - 1) * n2 <= 255
    ensures ((i % 256) * (n2 % 256)) % 256 % (l % 256) == (i * n2) % l
  {
    ProductInRange(i, l - 1, n2);
  }

  lemma NoOverflow(d: nat, k: nat, e: nat, l: nat, c: nat)
    requires 0 < c <= 255 && k < l && d < c && e < c && (l - 1) * (c - 1) + c <= 256
    ensures d % 256 == d && e % 256 % (c % 256) == e
    ensures (d % 256 + (k * e) % 256) % 256 % (c % 256) == (d + k * e) % c
  {
    ProductBound(k, l - 1, e, c - 1);
    SmallSum(d, k * e, c);
    SmallSum(e, 0, c);
    DivModUnique(e, c, 0, e);
  }

  lemma ProductBound(i: nat, j: nat, d: nat, e: nat)
    requires i <= j && d <= e
    ensures 0 <= i * d <= j * e
  {
    ProductInRange(i, j, d);
    ProductInRange(d, e, j);
    assert j * d == d * j && j * e == e * j;
  }

  lemma SmallSum(d: nat, p: nat, c: nat)
    requires 0 < c <= 255 && d < c && p + c <= 256
    ensures d % 256 == d && p % 256 == p && c % 256 == c
    ensures (d % 256 + p % 256) % 256 == d + p
  {
  }

  predicate HasDefaults(o: CodeOptions) {
    o == DEFAULT_OPTIONS
  }

  lemma DefaultShape(o: CodeOptions)
    requires HasDefaults(o)
    ensures |o.chars| == 30 && o.n1 == 17 && o.n2 == 5 && o.l == 8 && o.salt == 123567369
  {
  }

  /** The defaults: 17*id + 123567369 in base 30, digits read out in steps of 5. */
  lemma DefaultCodeAt(o: CodeOptions, id: nat, y: nat, i: nat)
    requires |o.chars| == 30 && o.n1 == 17 && o.n2 == 5 && o.l == 8 && o.salt == 123567369 && i < 8
    requires y == (id * 17 + 123567369) % U64
    ensures var k := (i * 5) % 8; Runs(o) && Code(o, id)[i] == o.chars[(y / Pow(30, k) + k * (y % 30)) % 30]
  {
    CodeInRange(o, id, i);
  }

  lemma SmallPowers()
    ensures Pow(30, 0) == 1 && Pow(30, 1) == 30 && Pow(30, 2) == 900 && Pow(30, 3) == 27000
    ensures Pow(30, 4) == 810000 && Pow(30, 5) == 24300000 && Pow(30, 6) == 729000000 && Pow(30, 7) == 21870000000
  {
    assert Pow(30, 3) == 30 * Pow(30, 2) == 900 * Pow(30, 1) == 27000 * Pow(30, 0);
    assert Pow(30, 6) == 30 * Pow(30, 5) == 900 * Pow(30, 4) == 27000 * Pow(30, 3);
  }

  const QUOTIENTS: seq<nat> := [123567386, 4118912, 137297, 4576, 152, 5, 0, 0]

  lemma FirstQuotients(k: nat)
    requires k < 8
    ensures 123567386 / Pow(30, k) == QUOTIENTS[k]
  {
    SmallPowers();
  }

  /** Where the characters of the first code stand in the alphabet. */
  const PLACES: seq<nat> := [26, 15, 9, 2, 16, 28, 6, 4]

  lemma FirstPlaces(i: nat)
    requires i < 8
    ensures var k := (i * 5) % 8; (QUOTIENTS[k] + k * 26) % 30 == PLACES[i]
  {
    assert QUOTIENTS[0] == 123567386 && QUOTIENTS[1] == 4118912 && QUOTIENTS[2] == 137297 && QUOTIENTS[3] == 4576;
    assert QUOTIENTS[4] == 152 && QUOTIENTS[5] == 5 && QUOTIENTS[6] == 0 && QUOTIENTS[7] == 0;
  }

  lemma FirstCharacters(o: CodeOptions, i: nat)
    requires HasDefaults(o) && i < 8
    ensures PLACES[i] < 30 == |o.chars| && o.chars[PLACES[i]] == "VHB4JX86"[i]
  {
  }

  lemma PlaceOf(y: nat, i: nat)
    requires y == 123567386 && i < 8
    ensures var k := (i * 5) % 8; (y / Pow(30, k) + k * (y % 30)) % 30 == PLACES[i]
  {
    FirstQuotients((i * 5) % 8);
    FirstPlaces(i);
  }

  lemma FirstCodeAt(o: CodeOptions, id: nat, y: nat, i: nat, place: nat)
    requires |o.chars| == 30 && o.n1 == 17 && o.n2 == 5 && o.l == 8 && o.salt == 123567369 && i < 8
    requires y == (id * 17 + 123567369) % U64
    requires var k := (i * 5) % 8; place == (y / Pow(30, k) + k * (y % 30)) % 30
    ensures Runs(o) && place < 30 && Code(o, id)[i] == o.chars[place]
  {
    DefaultCodeAt(o, id, y, i);
  }

  lemma FirstExpanded(id: nat)
    requires id == 1
    ensures (id * 17 + 123567369) % U64 == 123567386
  {
  }

  /** The first id with the defaults. */
  lemma FirstCode(o: CodeOptions, id: nat)
    requires o == DEFAULT_OPTIONS && id == 1
    ensures Runs(o) && Code(o, id) == "VHB4JX86"
  {
    DefaultShape(o);
    FirstExpanded(id);
    var t := "VHB4JX86";
    forall i | 0 <= i < 8 ensures Runs(o) && Code(o, id)[i] == t[i] {
      PlaceOf(123567386, i);
      FirstCodeAt(o, id, 123567386, i, PLACES[i]);
      FirstCharacters(o, i);
    }
    assert Runs(o) && |Code(o, id)| == |t|;
  }
}
