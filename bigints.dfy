/**
 * Arbitrary-precision integers with JavaScript BigInt semantics: `/`
 * truncates toward zero and `%` takes the sign of the dividend, whereas
 * Dafny's own `/` and `%` are Euclidean. Also the power of ten used for
 * alignment, divisibility, and the module-private `gcd` of Decimal.ts.
 */
module BigInts {

  function Abs(x: int): nat {
    if x < 0 then -x else x
  }

  function Min(a: int, b: int): int {
    if a <= b then a else b
  }

  /** BigInt `a / b`: the quotient rounded toward zero. */
  function TDiv(a: int, b: int): int
    requires b != 0
  {
    var q := Abs(a) / Abs(b);
    if (a < 0) == (b < 0) then q else -q
  }

  /** BigInt `a % b`: what is left after TDiv, carrying the dividend's sign. */
  function TMod(a: int, b: int): (r: int)
    requires b != 0
    ensures Abs(r) < Abs(b)
    ensures r == 0 || (r < 0 <==> a < 0)
  {
    var r := Abs(a) % Abs(b);
    if a < 0 then -r else r
  }

  /** `10n ** BigInt(k)` */
  function Pow10(k: nat): (r: nat)
    ensures r >= 1
  {
    if k == 0 then 1 else 10 * Pow10(k - 1)
  }

  /** `b ** BigInt(n)` */
  function Pow(b: int, n: nat): int {
    if n == 0 then 1 else b * Pow(b, n - 1)
  }

  predicate Divides(d: int, n: int) {
    if d == 0 then n == 0 else n % d == 0
  }

  // ---------------------------------------------------------------------
  // Division with remainder

  lemma MulAtLeast(x: int, d: int)
    requires x != 0
    ensures Abs(x * d) >= Abs(d)
  {
    if x > 0 && d >= 0 {
      assert x * d == (x - 1) * d + d;
    } else if x > 0 {
      assert x * d == (x - 1) * d + d;
      assert (x - 1) * (-d) >= 0;
    } else if d >= 0 {
      assert -(x * d) == (-x - 1) * d + d;
    } else {
      assert x * d == (-x - 1) * (-d) + (-d);
    }
  }

  /** Euclidean division is unique. */
  lemma EuclidUnique(n: int, d: int, q: int, r: int)
    requires d != 0 && n == q * d + r && 0 <= r < Abs(d)
    ensures n / d == q && n % d == r
  {
    var q0, r0 := n / d, n % d;
    assert (q - q0) * d == r0 - r;
    if q != q0 {
      MulAtLeast(q - q0, d);
    }
  }

  /** TDiv and TMod are the truncated quotient and remainder. */
  lemma TruncatedDivision(a: int, b: int)
    requires b != 0
    ensures a == TDiv(a, b) * b + TMod(a, b)
  {
    var q, r := Abs(a) / Abs(b), Abs(a) % Abs(b);
    assert Abs(a) == q * Abs(b) + r;
  }

  /** Any decomposition with a dividend-signed remainder smaller than the divisor is the truncated one. */
  lemma TruncatedUnique(a: int, b: int, q: int, r: int)
    requires b != 0 && a == q * b + r && Abs(r) < Abs(b)
    requires r == 0 || (r < 0 <==> a < 0)
    ensures q == TDiv(a, b) && r == TMod(a, b)
  {
    var qa := if (a < 0) == (b < 0) then q else -q;
    var ra := Abs(r);
    MagnitudeDecomposition(a, b, q, r, qa, ra);
    EuclidUnique(Abs(a), Abs(b), qa, ra);
  }

  /** The same decomposition between the magnitudes. */
  lemma MagnitudeDecomposition(a: int, b: int, q: int, r: int, qa: int, ra: int)
    requires b != 0 && a == q * b + r
    requires r == 0 || (r < 0 <==> a < 0)
    requires qa == (if (a < 0) == (b < 0) then q else -q) && ra == Abs(r)
    ensures Abs(a) == qa * Abs(b) + ra
  {
    if a >= 0 && b < 0 {
      NegProduct(q, b);
    } else if a < 0 && b > 0 {
      NegProduct(q, b);
    } else if a < 0 {
      NegProduct(q, b);
    }
  }

  lemma NegProduct(x: int, y: int)
    ensures (-x) * (-y) == x * y && -(x * y) == (-x) * y && -(x * y) == x * (-y)
  {
  }

  /** Scaling dividend and divisor by the same positive factor scales the BigInt remainder. */
  lemma TModScale(a: int, b: int, c: int)
    requires b != 0 && c > 0
    ensures b * c != 0 && TMod(a * c, b * c) == TMod(a, b) * c
  {
    TruncatedDivision(a, b);
    var q, r := TDiv(a, b), TMod(a, b);
    ScaleEquation(a, b, c, q, r);
    PositiveFactor(r, c);
    PositiveFactor(b, c);
    PositiveFactor(a, c);
    MulStrict(Abs(r), Abs(b), c);
    TruncatedUnique(a * c, b * c, q, r * c);
  }

  lemma MulStrict(x: int, y: int, c: int)
    requires x < y && c > 0
    ensures x * c < y * c
  {
    assert y * c - x * c == (y - x) * c;
  }

  lemma ScaleEquation(a: int, b: int, c: int, q: int, r: int)
    requires a == q * b + r
    ensures a * c == q * (b * c) + r * c
  {
  }

  /** Multiplying by a positive factor keeps the sign and scales the magnitude. */
  lemma PositiveFactor(x: int, c: int)
    requires c > 0
    ensures Abs(x * c) == Abs(x) * c
    ensures x * c < 0 <==> x < 0
    ensures x * c == 0 <==> x == 0
  {
    if x < 0 {
      assert Abs(x * c) == (-x) * c;
    }
  }

  // ---------------------------------------------------------------------
  // Powers

  lemma {:induction false} Pow10Add(i: nat, j: nat)
    ensures Pow10(i + j) == Pow10(i) * Pow10(j)
  {
    if i > 0 {
      Pow10Add(i - 1, j);
    }
  }

  lemma {:induction false} Pow10Monotone(i: nat, j: nat)
    requires i < j
    ensures Pow10(i) < Pow10(j)
  {
    if j > i + 1 {
      Pow10Monotone(i, j - 1);
    }
  }

  lemma {:induction false} PowMul(a: int, b: int, n: nat)
    ensures Pow(a * b, n) == Pow(a, n) * Pow(b, n)
  {
    if n > 0 {
      PowMul(a, b, n - 1);
      MulRearrange(a, b, Pow(a, n - 1), Pow(b, n - 1));
    }
  }

  lemma MulRearrange(a: int, b: int, c: int, d: int)
    ensures (a * b) * (c * d) == (a * c) * (b * d)
  {
  }

  lemma {:induction false} Pow10IsPow(k: nat)
    ensures Pow10(k) == Pow(10, k)
  {
    if k > 0 {
      Pow10IsPow(k - 1);
    }
  }

  lemma {:induction false} PowZeroBase(n: nat)
    requires n >= 1
    ensures Pow(0, n) == 0
  {
  }

  lemma {:induction false} PowNonzero(b: int, n: nat)
    requires b != 0
    ensures Pow(b, n) != 0
  {
    if n > 0 {
      PowNonzero(b, n - 1);
    }
  }

  // ---------------------------------------------------------------------
  // Divisibility

  lemma DividesIntro(d: int, n: int, k: int)
    requires n == k * d
    ensures Divides(d, n)
  {
    if d != 0 {
      EuclidUnique(n, d, k, 0);
    }
  }

  lemma DividesElim(d: int, n: int) returns (k: int)
    requires Divides(d, n)
    ensures n == k * d
  {
    if d == 0 {
      k := 0;
    } else {
      k := n / d;
    }
  }

  /** On an exact division the BigInt quotient is the Euclidean one. */
  lemma ExactTDiv(a: int, g: int)
    requires g != 0 && Divides(g, a)
    ensures TDiv(a, g) == a / g && a == TDiv(a, g) * g
  {
    var k := DividesElim(g, a);
    TruncatedUnique(a, g, k, 0);
    EuclidUnique(a, g, k, 0);
  }

  lemma DividesLinear(d: int, a: int, b: int, x: int, y: int)
    requires Divides(d, a) && Divides(d, b)
    ensures Divides(d, a * x + b * y)
  {
    var ka := DividesElim(d, a);
    var kb := DividesElim(d, b);
    LinearFactor(a, ka, d, x);
    LinearFactor(b, kb, d, y);
    assert (ka * x) * d + (kb * y) * d == (ka * x + kb * y) * d;
    DividesIntro(d, a * x + b * y, ka * x + kb * y);
  }

  lemma LinearFactor(a: int, k: int, d: int, x: int)
    requires a == k * d
    ensures a * x == (k * x) * d
  {
  }

  lemma DividesTrans(a: int, b: int, c: int)
    requires Divides(a, b) && Divides(b, c)
    ensures Divides(a, c)
  {
    var k1 := DividesElim(a, b);
    var k2 := DividesElim(b, c);
    assert c == (k2 * k1) * a;
    DividesIntro(a, c, k2 * k1);
  }

  lemma DividesOne(d: int)
    requires Divides(d, 1)
    ensures d == 1 || d == -1
  {
    var k := DividesElim(d, 1);
    if Abs(d) > 1 {
      MulAtLeast(k, d);
    }
  }

  /** A divisor of a positive number is at most that number in absolute value. */
  lemma DividesBound(d: int, n: int)
    requires n != 0 && Divides(d, n)
    ensures Abs(d) <= Abs(n)
  {
    var k := DividesElim(d, n);
    MulAtLeast(k, d);
  }

  // ---------------------------------------------------------------------
  // The Euclidean algorithm of Decimal.ts, on BigInt remainders

  /** What `gcd(a, b)` computes: the value of `a` once `b` reaches 0. */
  function Gcd(a: int, b: int): int
    decreases Abs(b)
  {
    if b == 0 then a else Gcd(b, TMod(a, b))
  }

  /** `gcd` of Decimal.ts: the loop swapping `a` and `b`. */
  method ComputeGcd(a0: int, b0: int) returns (g: int)
    ensures g == Gcd(a0, b0)
    ensures Divides(g, a0) && Divides(g, b0)
    ensures forall d :: Divides(d, a0) && Divides(d, b0) ==> Divides(d, g)
  {
    var a, b := a0, b0;
    while b != 0
      invariant Gcd(a, b) == Gcd(a0, b0)
      decreases Abs(b)
    {
      var t := b;
      b := TMod(a, b);
      a := t;
    }
    g := a;
    GcdDivides(a0, b0);
    forall d | Divides(d, a0) && Divides(d, b0) ensures Divides(d, g) {
      GcdGreatest(a0, b0, d);
    }
  }

  lemma {:induction false} GcdDivides(a: int, b: int)
    ensures Divides(Gcd(a, b), a) && Divides(Gcd(a, b), b)
    decreases Abs(b)
  {
    if b == 0 {
      DividesIntro(a, a, 1);
      DividesIntro(a, 0, 0);
    } else {
      var r := TMod(a, b);
      GcdDivides(b, r);
      TruncatedDivision(a, b);
      DividesLinear(Gcd(b, r), b, r, TDiv(a, b), 1);
    }
  }

  lemma {:induction false} GcdGreatest(a: int, b: int, d: int)
    requires Divides(d, a) && Divides(d, b)
    ensures Divides(d, Gcd(a, b))
    decreases Abs(b)
  {
    if b != 0 {
      var r := TMod(a, b);
      TruncatedDivision(a, b);
      assert r == a * 1 + b * (-TDiv(a, b));
      DividesLinear(d, a, b, 1, -TDiv(a, b));
      GcdGreatest(b, r, d);
    }
  }

  lemma BezoutStep(a: int, b: int, q: int, r: int, x: int, y: int)
    requires a == q * b + r
    ensures a * y + b * (x - q * y) == b * x + r * y
  {
  }

  /** Bezout's identity for the algorithm's result. */
  lemma {:induction false} Bezout(a: int, b: int) returns (x: int, y: int)
    ensures a * x + b * y == Gcd(a, b)
    decreases Abs(b)
  {
    if b == 0 {
      x, y := 1, 0;
    } else {
      var r := TMod(a, b);
      var q := TDiv(a, b);
      TruncatedDivision(a, b);
      var x', y' := Bezout(b, r);
      BezoutStep(a, b, q, r, x', y');
      x, y := y', x' - q * y';
    }
  }

  /** The result is 0 exactly when both arguments are. */
  lemma GcdZero(a: int, b: int)
    ensures Gcd(a, b) == 0 <==> a == 0 && b == 0
  {
    GcdDivides(a, b);
    if a == 0 && b == 0 {
      assert Gcd(a, b) == a;
    }
  }

  /** On non-negative arguments every remainder is non-negative, so is the result. */
  lemma {:induction false} GcdNonNegative(a: int, b: int)
    requires a >= 0 && b >= 0
    ensures Gcd(a, b) >= 0
    decreases b
  {
    if b != 0 {
      GcdNonNegative(b, TMod(a, b));
    }
  }

  lemma UnitCombination(d: int, a: int, c: int, x: int, y: int, g: int)
    requires d * x + a * y == g && (g == 1 || g == -1)
    ensures d * (c * x * g) + (a * c) * (y * g) == c
  {
    assert d * (c * x * g) + (a * c) * (y * g) == c * g * (d * x + a * y);
    assert c * g * g == c;
  }

  /** Euclid's lemma: a divisor of a product that is coprime to one factor divides the other. */
  lemma CoprimeDividesProduct(d: int, a: int, c: int)
    requires Gcd(d, a) == 1 || Gcd(d, a) == -1
    requires Divides(d, a * c)
    ensures Divides(d, c)
  {
    var x, y := Bezout(d, a);
    var g := Gcd(d, a);
    DividesIntro(d, d, 1);
    DividesLinear(d, d, a * c, c * x * g, y * g);
    UnitCombination(d, a, c, x, y, g);
  }

  lemma ReduceCombination(a: int, b: int, g: int, ka: int, kb: int, x: int, y: int)
    requires g != 0 && a == ka * g && b == kb * g && a * x + b * y == g
    ensures ka * x + kb * y == 1
  {
    assert (ka * x + kb * y) * g == 1 * g;
  }

  /** Dividing both arguments by their (nonzero) Gcd leaves a coprime pair. */
  lemma ReducedCoprime(a: int, b: int)
    requires Gcd(a, b) != 0
    ensures Divides(Gcd(a, b), a) && Divides(Gcd(a, b), b)
    ensures var g := Gcd(a, b); Abs(Gcd(a / g, b / g)) == 1
  {
    var g := Gcd(a, b);
    GcdDivides(a, b);
    var x, y := Bezout(a, b);
    var ka := DividesElim(g, a);
    var kb := DividesElim(g, b);
    EuclidUnique(a, g, ka, 0);
    EuclidUnique(b, g, kb, 0);
    ReduceCombination(a, b, g, ka, kb, x, y);
    var h := Gcd(ka, kb);
    GcdDivides(ka, kb);
    DividesLinear(h, ka, kb, x, y);
    DividesOne(h);
  }

  lemma GcdExample()
    ensures Gcd(-5, 10) == -5
  {
  }
}
