/** Integer facts behind the short-code generator: powers, remainders, Euclid's
    algorithm and inverses modulo a power. */
module Arithmetic {

  function Pow(b: nat, e: nat): (r: nat)
    ensures b > 0 ==> r > 0
  {
    if e == 0 then 1 else b * Pow(b, e - 1)
  }

  lemma {:induction false} PowSum(b: nat, i: nat, j: nat)
    ensures Pow(b, i + j) == Pow(b, i) * Pow(b, j)
  {
    if i > 0 {
      PowSum(b, i - 1, j);
      MulAssociative(b, Pow(b, i - 1), Pow(b, j));
    }
  }

  lemma MulAssociative(x: int, y: int, z: int)
    ensures x * (y * z) == (x * y) * z
  {
  }

  lemma MulBounds(d: int, m: int)
    requires m > 0
    ensures d >= 1 ==> d * m >= m
    ensures d <= -1 ==> d * m <= -m
  {
  }

  lemma DivModUnique(a: int, m: int, q: int, r: int)
    requires 0 <= r < m
    requires a == q * m + r
    ensures a / m == q && a % m == r
  {
    var d := a / m - q;
    assert a == (a / m) * m + a % m;
    assert d * m == r - a % m;
    MulBounds(d, m);
  }

  lemma MultipleModZero(k: int, m: int)
    requires m > 0
    ensures (k * m) % m == 0
  {
    DivModUnique(k * m, m, k, 0);
  }

  lemma AddMultipleMod(a: int, k: int, m: int)
    requires m > 0
    ensures (a + k * m) % m == a % m
  {
    assert a + k * m == (a / m + k) * m + a % m;
    DivModUnique(a + k * m, m, a / m + k, a % m);
  }

  /** Equal remainders mean that the difference is a multiple of the modulus. */
  lemma ModEqIff(a: int, b: int, m: int)
    requires m > 0
    ensures a % m == b % m <==> (a - b) % m == 0
  {
    if a % m == b % m {
      assert a - b == (a / m - b / m) * m;
      MultipleModZero(a / m - b / m, m);
    }
    if (a - b) % m == 0 {
      var k := (a - b) / m;
      assert a == b + k * m;
      AddMultipleMod(b, k, m);
    }
  }

  lemma ModSumLeft(a: int, b: int, m: int)
    requires m > 0
    ensures (a % m + b) % m == (a + b) % m
  {
    assert a + b == (a % m + b) + (a / m) * m;
    AddMultipleMod(a % m + b, a / m, m);
  }

  /** Two numbers below m that agree modulo m are equal. */
  lemma SmallModEqual(a: int, b: int, m: int)
    requires 0 <= a < m && 0 <= b < m
    requires a % m == b % m
    ensures a == b
  {
    DivModUnique(a, m, 0, a);
    DivModUnique(b, m, 0, b);
  }

  /** A remainder modulo a multiple of m keeps the remainder modulo m. */
  lemma ModOfMultiple(a: int, k: int, m: int)
    requires k > 0 && m > 0
    ensures k * m > 0 && (a % (k * m)) % m == a % m
  {
    assert k * m > 0;
    var q := a / (k * m);
    assert a == q * (k * m) + a % (k * m);
    assert q * (k * m) == (q * k) * m;
    AddMultipleMod(a % (k * m), q * k, m);
  }

  // ------------------------------------------------------------------ Euclid

  function Gcd(a: nat, b: nat): (g: nat)
    ensures a > 0 || b > 0 ==> g > 0
    decreases b
  {
    if b == 0 then a else Gcd(b, a % b)
  }

  predicate Coprime(a: nat, b: nat) {
    Gcd(a, b) == 1
  }

  lemma CombineMultiples(a: int, b: int, q: int, r: int, g: int)
    requires g > 0 && a == q * b + r && b % g == 0 && r % g == 0
    ensures a % g == 0
  {
    var i, j := b / g, r / g;
    assert b == i * g && r == j * g;
    assert q * (i * g) + j * g == (q * i + j) * g;
    MultipleModZero(q * i + j, g);
  }

  lemma {:induction false} GcdDivides(a: nat, b: nat)
    requires a > 0 || b > 0
    ensures a % Gcd(a, b) == 0 && b % Gcd(a, b) == 0
    decreases b
  {
    if b == 0 {
      DivModUnique(a, a, 1, 0);
      DivModUnique(0, a, 0, 0);
    } else {
      GcdDivides(b, a % b);
      CombineMultiples(a, b, a / b, a % b, Gcd(a, b));
    }
  }

  /** Coefficients x and y with a*x + b*y equal to the greatest common divisor. */
  function Bezout(a: nat, b: nat): (r: (int, int))
    ensures a * r.0 + b * r.1 == Gcd(a, b)
    decreases b
  {
    if b == 0 then (1, 0)
    else
      var (x, y) := Bezout(b, a % b);
      BezoutStep(a, b, a / b, a % b, x, y);
      (y, x - (a / b) * y)
  }

  lemma BezoutStep(a: int, b: int, q: int, r: int, x: int, y: int)
    requires a == q * b + r
    ensures a * y + b * (x - q * y) == b * x + r * y
  {
    assert a * y == (q * b) * y + r * y;
    assert b * (x - q * y) == b * x - (q * b) * y;
  }

  lemma CommonDivisorOfCoprime(a: nat, b: nat, d: nat, i: int, j: int)
    requires Coprime(a, b) && d > 0 && a == d * i && b == d * j
    ensures d == 1
  {
    var (x, y) := Bezout(a, b);
    FactorOfOne(d, i, j, x, y);
  }

  lemma FactorOfOne(d: int, i: int, j: int, x: int, y: int)
    requires d > 0 && (d * i) * x + (d * j) * y == 1
    ensures d == 1
  {
    var p, q := i * x, j * y;
    assert (d * i) * x == d * p;
    assert (d * j) * y == d * q;
    assert (p + q) * d == d * p + d * q;
    MulBounds(p + q, d);
  }

  lemma QuotientTimes(a: nat, d: nat)
    requires d > 0 && a % d == 0
    ensures a == d * (a / d)
  {
  }

  function Abs(n: int): nat { if n < 0 then -n else n }

  /** Coprimality as usually stated: nothing above 1 divides both. */
  ghost predicate ShareNoDivisor(a: int, b: int) {
    forall d: nat | d > 1 && a % d == 0 :: b % d != 0
  }

  lemma AbsDivisible(a: int, d: nat)
    requires d > 0
    ensures Abs(a) % d == 0 <==> a % d == 0
  {
    if Abs(a) % d == 0 {
      ScaleMod(-1, Abs(a), d);
    } else if a % d == 0 {
      ScaleMod(-1, a, d);
    }
  }

  lemma CoprimeIff(a: int, b: nat)
    requires b > 0
    ensures Coprime(Abs(a), b) <==> ShareNoDivisor(a, b)
  {
    var g := Gcd(Abs(a), b);
    if g == 1 {
      forall d: nat | d > 1 && a % d == 0 ensures b % d != 0 {
        if b % d == 0 {
          AbsDivisible(a, d);
          QuotientTimes(Abs(a), d);
          QuotientTimes(b, d);
          CommonDivisorOfCoprime(Abs(a), b, d, Abs(a) / d, b / d);
        }
      }
    } else {
      GcdDivides(Abs(a), b);
      AbsDivisible(a, g);
    }
  }

  /** x is an inverse of n modulo m. */
  predicate IsInverse(n: int, x: int, m: int)
    requires m > 0
  {
    (n * x - 1) % m == 0
  }

  /** An inverse of n modulo c^e, lifted one power at a time. */
  function InversePow(n: nat, c: nat, e: nat): (x: int)
    requires c > 0 && Coprime(n, c)
    ensures IsInverse(n, x, Pow(c, e))
  {
    if e == 0 then
      assert (n * 0 - 1) % 1 == 0;
      0
    else
      var (u, v) := Bezout(n, c);
      var w := InversePow(n, c, e - 1);
      var p := Pow(c, e - 1);
      LiftInverse(n, u, v, w, c, p);
      u + w - n * u * w
  }

  /** The same for a factor of either sign. */
  function SignedInverse(n: int, c: nat, e: nat): (x: int)
    requires c > 0 && Coprime(Abs(n), c)
    ensures IsInverse(n, x, Pow(c, e))
  {
    var x := InversePow(Abs(n), c, e);
    SameSign(n, x);
    if n < 0 then -x else x
  }

  lemma SameSign(n: int, x: int)
    ensures n * (if n < 0 then -x else x) == Abs(n) * x
  {
  }

  lemma LiftInverse(n: int, u: int, v: int, w: int, c: int, p: int)
    requires c > 0 && p > 0
    requires n * u + c * v == 1 && IsInverse(n, w, p)
    ensures c * p > 0 && IsInverse(n, u + w - n * u * w, c * p)
  {
    var k := (n * w - 1) / p;
    assert n * w - 1 == k * p;
    var z := u + w - n * u * w;
    assert (n * u - 1) * (n * w - 1) == n * (n * u * w) - n * u - n * w + 1 by {
      assert (n * u) * (n * w) == n * (n * u * w);
    }
    assert n * z - 1 == -((n * u - 1) * (n * w - 1)) by {
      assert n * z == n * u + n * w - n * (n * u * w);
    }
    assert n * u - 1 == -(c * v);
    assert (c * v) * (k * p) == (v * k) * (c * p);
    assert n * z - 1 == (v * k) * (c * p);
    assert c * p > 0;
    MultipleModZero(v * k, c * p);
  }

  lemma ScaleMod(n: int, d: int, m: int)
    requires m > 0 && d % m == 0
    ensures (n * d) % m == 0
  {
    var k := d / m;
    assert d == k * m;
    assert n * (k * m) == (n * k) * m;
    MultipleModZero(n * k, m);
  }

  lemma CancelWitness(n: int, x: int, m: int, d: int, k: int, j: int)
    requires n * x == 1 + k * m && n * d == j * m
    ensures d == (j * x - k * d) * m
  {
    assert (n * x) * d == (n * d) * x;
    assert (1 + k * m) * d == d + (k * d) * m;
    assert (j * m) * x == (j * x) * m;
  }

  /** An invertible factor can be cancelled modulo m. */
  lemma CancelFactor(n: int, x: int, m: int, d: int)
    requires m > 0 && IsInverse(n, x, m)
    ensures (n * d) % m == 0 <==> d % m == 0
  {
    if (n * d) % m == 0 {
      var k, j := (n * x - 1) / m, (n * d) / m;
      CancelWitness(n, x, m, d, k, j);
      MultipleModZero(j * x - k * d, m);
    } else if d % m == 0 {
      ScaleMod(n, d, m);
    }
  }

  /** A common divisor of n and m gives a non-zero multiple of n that m divides. */
  lemma SharedDivisor(n: nat, m: nat, g: nat) returns (b: nat)
    requires g > 1 && m > 0 && n % g == 0 && m % g == 0
    ensures 0 < b < m && b * g == m && (b * n) % m == 0
  {
    b := m / g;
    var q := n / g;
    QuotientSmaller(m, g, b);
    assert b * n == q * m by {
      assert n == q * g && b * (q * g) == q * (b * g);
    }
    MultipleModZero(q, m);
  }

  lemma QuotientSmaller(m: nat, g: nat, b: nat)
    requires m > 0 && g > 1 && m == b * g
    ensures 0 < b < m
  {
    assert b * g >= b * 2;
  }

  /** The solution below m of n * a = z, modulo m. */
  lemma SolveLinear(n: int, x: int, m: int, z: int) returns (a: nat)
    requires m > 0 && IsInverse(n, x, m)
    ensures a == (z * x) % m && (n * a - z) % m == 0
  {
    var k, q := (n * x - 1) / m, (z * x) / m;
    a := (z * x) % m;
    SolutionWitness(n, x, m, z, k, q, a);
    MultipleModZero(k * z - n * q, m);
  }

  lemma SolutionWitness(n: int, x: int, m: int, z: int, k: int, q: int, a: int)
    requires n * x == 1 + k * m && z * x == q * m + a
    ensures n * a - z == (k * z - n * q) * m
  {
    assert n * (z * x) == (n * x) * z;
    assert n * (q * m + a) == (n * q) * m + n * a;
    assert (1 + k * m) * z == z + (k * z) * m;
  }
}
