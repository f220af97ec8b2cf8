/**
 * Exact fractions and what is built on them in Decimal.ts: `toFraction`,
 * `fromFraction` (the 2-and-5 factoring that decides whether a fraction
 * has a finite decimal expansion), `div`, `inv`, `pow` and `e`.
 */
module Fractions {
  import opened Wrappers
  import opened BigInts
  import opened Powers
  import opened DecimalCore

  /** The `{ numerator, denominator }` record of `toFraction`. */
  datatype Fraction = Fraction(numerator: int, denominator: int)

  /** a and b have no common divisor other than 1 and -1. */
  ghost predicate Coprime(a: int, b: int) {
    forall t :: Divides(t, a) && Divides(t, b) ==> t == 1 || t == -1
  }

  /** v has a finite decimal expansion: some power of ten makes it whole. */
  ghost predicate FiniteDecimal(v: real) {
    exists k: nat :: IsInt(TimesPow10(v, k))
  }

  /** v × 10^k over the reals. */
  ghost function TimesPow10(v: real, k: nat): real {
    v * Pow10(k) as real
  }

  // ---------------------------------------------------------------------
  // Coprimality and the reduction by `gcd`

  lemma GcdCoprime(a: int, b: int)
    requires Gcd(a, b) == 1 || Gcd(a, b) == -1
    ensures Coprime(a, b)
  {
    forall t | Divides(t, a) && Divides(t, b)
      ensures t == 1 || t == -1
    {
      GcdGreatest(a, b, t);
      if Gcd(a, b) == -1 {
        DividesIntro(-1, 1, -1);
        DividesTrans(t, -1, 1);
      }
      DividesOne(t);
    }
  }

  lemma CoprimeGcd(a: int, b: int)
    requires Coprime(a, b)
    ensures Gcd(a, b) == 1 || Gcd(a, b) == -1
  {
    GcdDivides(a, b);
  }

  lemma CoprimeOne(a: int)
    ensures Coprime(a, 1)
  {
    forall t | Divides(t, a) && Divides(t, 1)
      ensures t == 1 || t == -1
    {
      DividesOne(t);
    }
  }

  /** Dividing by the algorithm's gcd leaves a coprime pair with the same ratio. */
  lemma Reduce(n: int, d: int)
    requires Gcd(n, d) != 0
    ensures var g := Gcd(n, d);
      n == TDiv(n, g) * g && d == TDiv(d, g) * g && Coprime(TDiv(n, g), TDiv(d, g))
  {
    var g := Gcd(n, d);
    ReducedCoprime(n, d);
    ExactTDiv(n, g);
    ExactTDiv(d, g);
    GcdCoprime(TDiv(n, g), TDiv(d, g));
  }

  lemma ReduceExact(n: int, d: int)
    requires Gcd(n, d) != 0
    ensures var g := Gcd(n, d); n == TDiv(n, g) * g && d == TDiv(d, g) * g
  {
    var g := Gcd(n, d);
    GcdDivides(n, d);
    ExactTDiv(n, g);
    ExactTDiv(d, g);
  }

  /** On non-negative arguments the reduction keeps signs. */
  lemma ReduceNonNegative(n: int, d: int)
    requires n >= 0 && d >= 0 && Gcd(n, d) != 0
    ensures var g := Gcd(n, d);
      g > 0 && TDiv(n, g) >= 0 && TDiv(d, g) >= 0 && (d > 0 <==> TDiv(d, g) > 0)
  {
    GcdNonNegative(n, d);
    var g := Gcd(n, d);
    Reduce(n, d);
    if TDiv(d, g) > 0 {
      PositiveFactor(TDiv(d, g), g);
    }
  }

  /** A common nonzero factor cancels from a fraction. */
  lemma RealCancel(a: int, b: int, g: int)
    requires b != 0 && g != 0
    ensures b * g != 0
    ensures (a * g) as real / (b * g) as real == a as real / b as real
  {
    var x := a as real / b as real;
    CastMul(a, g);
    CastMul(b, g);
    var bg := b as real * g as real;
    assert bg != 0.0;
    assert x * bg == (x * b as real) * g as real;
    assert x * bg == a as real * g as real;
  }

  lemma QuotientOfProduct(a: int, b: int, q: int)
    requires b != 0 && a == q * b
    ensures a as real / b as real == q as real
  {
    CastMul(q, b);
  }

  // ---------------------------------------------------------------------
  // toFraction (Decimal.ts:230-239)

  /** `toFraction`: the value as numerator over denominator, reduced by `gcd`. */
  function ToFraction(x: Decimal): (f: Fraction)
    ensures f.denominator != 0
    ensures Val(x) == f.numerator as real / f.denominator as real
    ensures Coprime(f.numerator, f.denominator)
    ensures x.exponent >= 0 ==> f.denominator == 1
    ensures x.mantissa >= 0 ==> f.denominator > 0
  {
    if x.exponent >= 0 then
      ScaleNat(x.mantissa, x.exponent);
      CoprimeOne(x.mantissa * Pow10(x.exponent));
      Fraction(x.mantissa * Pow10(x.exponent), 1)
    else
      var n, d := x.mantissa, Pow10(-x.exponent);
      var g := Gcd(n, d);
      ToFractionReduced(x);
      ToFractionCoprime(x);
      Fraction(TDiv(n, g), TDiv(d, g))
  }

  lemma ToFractionReduced(x: Decimal)
    requires x.exponent < 0
    ensures var n, d := x.mantissa, Pow10(-x.exponent);
      var g := Gcd(n, d);
      g != 0 && TDiv(d, g) != 0 &&
      Val(x) == TDiv(n, g) as real / TDiv(d, g) as real
  {
    var n, d := x.mantissa, Pow10(-x.exponent);
    var g := Gcd(n, d);
    GcdZero(n, d);
    ReduceExact(n, d);
    ValTimesDenominator(x);
    DivideBack(Val(x), n, d);
    FractionCancel(n, d, TDiv(n, g), TDiv(d, g), g);
  }

  lemma ToFractionCoprime(x: Decimal)
    requires x.exponent < 0
    ensures var n, d := x.mantissa, Pow10(-x.exponent);
      var g := Gcd(n, d);
      g != 0 && Coprime(TDiv(n, g), TDiv(d, g)) && (n >= 0 ==> TDiv(d, g) > 0)
  {
    var n, d := x.mantissa, Pow10(-x.exponent);
    GcdZero(n, d);
    Reduce(n, d);
    if n >= 0 {
      ReduceNonNegative(n, d);
    }
  }

  lemma FractionCancel(n: int, d: int, a: int, b: int, g: int)
    requires d != 0 && n == a * g && d == b * g
    ensures b != 0 && n as real / d as real == a as real / b as real
  {
    RealCancel(a, b, g);
  }

  // ---------------------------------------------------------------------
  // fromFraction (Decimal.ts:294-320)

  /**
   * One factoring loop of `fromFraction`: divide v by p while it is above 1
   * and a multiple of p. The part left over and the number of divisions.
   * (For v > 1 BigInt and Euclidean division agree.)
   */
  function Strip(v: int, p: int): (int, nat)
    requires p > 1
    decreases v
  {
    if v > 1 && v % p == 0 then
      StripSmaller(v, p);
      var s := Strip(v / p, p);
      (s.0, s.1 + 1)
    else
      (v, 0)
  }

  /** What is left is positive, not a multiple of p (unless 1), and times p^count gives v back. */
  lemma {:induction false} StripFactors(v: int, p: int)
    requires v > 0 && p > 1
    ensures var r := Strip(v, p);
      r.0 > 0 && v == r.0 * BigInts.Pow(p, r.1) && (r.0 == 1 || r.0 % p != 0)
    decreases v
  {
    if v > 1 && v % p == 0 {
      StripSmaller(v, p);
      StripFactors(v / p, p);
      var s := Strip(v / p, p);
      StripStep(v, p, s.0, s.1);
    }
  }

  lemma StripSmaller(v: int, p: int)
    requires v > 1 && p > 1 && v % p == 0
    ensures 0 < v / p < v
  {
    var q := v / p;
    assert v == q * p;
    PositiveFactor(q, p);
    MulStrict(1, p, q);
  }

  lemma StripStep(v: int, p: int, w: int, c: nat)
    requires p > 1 && v % p == 0 && v / p == w * BigInts.Pow(p, c)
    ensures v == w * BigInts.Pow(p, c + 1)
  {
    assert v == p * (v / p);
  }

  lemma StripUnfold(v: int, p: int)
    requires v > 1 && p > 1 && v % p == 0
    ensures Strip(v, p) == (Strip(v / p, p).0, Strip(v / p, p).1 + 1)
  {
  }

  lemma FactorStep(x: int, y: int, b: int)
    ensures (x * y) * b == x * (b * y)
  {
  }

  /** `fromFraction` once the signs are settled: reduce by `gcd`, then take out the 2s and the 5s. */
  function FromFractionNonNeg(n: int, d: int): (r: Result<Decimal>)
    requires n >= 0 && d >= 0
    ensures r.Ok? <==> d != 0 && FiniteDecimal(n as real / d as real)
    ensures r.Ok? ==> Canonical(r.value) && Val(r.value) == n as real / d as real
    ensures r.Err? ==> (r.error == DivisionByZero <==> n == 0 && d == 0)
    ensures r.Err? ==> r.error == DivisionByZero || r.error == NonTerminating
  {
    var g := Gcd(n, d);
    GcdZero(n, d);
    if g == 0 then
      Err(DivisionByZero)
    else
      var n2, d2 := TDiv(n, g), TDiv(d, g);
      var s2 := Strip(d2, 2);
      var s5 := Strip(s2.0, 5);
      if s5.0 != 1 then
        FiniteTerminates(n, d);
        Err(NonTerminating)
      else
        Terminating(n, d);
        Ok(Make(n2 * (BigInts.Pow(5, s2.1) * BigInts.Pow(2, s5.1)), -((s2.1 + s5.1) as int)))
  }

  /** 2^a 5^b times 5^a 2^b is 10^(a+b). */
  lemma FactorsMakeTens(a: nat, b: nat)
    ensures (BigInts.Pow(2, a) * BigInts.Pow(5, b)) * (BigInts.Pow(5, a) * BigInts.Pow(2, b)) == Pow10(a + b)
  {
    MulRearrange(BigInts.Pow(2, a), BigInts.Pow(5, b), BigInts.Pow(5, a), BigInts.Pow(2, b));
    PowMul(2, 5, a);
    PowMul(5, 2, b);
    Pow10IsPow(a);
    Pow10IsPow(b);
    Pow10Add(a, b);
  }

  /** When the factoring leaves 1, the denominator was 2^a 5^b and the result is exact. */
  lemma Terminating(n: int, d: int)
    requires n >= 0 && d >= 0 && Gcd(n, d) != 0
    requires var g := Gcd(n, d);
      var s2 := Strip(TDiv(d, g), 2);
      Strip(s2.0, 5).0 == 1
    ensures d != 0
    ensures var g := Gcd(n, d);
      var s2 := Strip(TDiv(d, g), 2);
      var s5 := Strip(s2.0, 5);
      var m := TDiv(n, g) * (BigInts.Pow(5, s2.1) * BigInts.Pow(2, s5.1));
      var k: int := s2.1 + s5.1;
      FiniteDecimal(n as real / d as real) && Val(Make(m, -k)) == n as real / d as real
  {
    var g := Gcd(n, d);
    Reduce(n, d);
    ReduceNonNegative(n, d);
    var n2, d2 := TDiv(n, g), TDiv(d, g);
    var s2 := Strip(d2, 2);
    StripFactors(d2, 2);
    var s5 := Strip(s2.0, 5);
    StripFactors(s2.0, 5);
    var a, b := s2.1, s5.1;
    var f := BigInts.Pow(5, a) * BigInts.Pow(2, b);
    var m := n2 * f;
    var k: nat := a + b;
    Regroup(d2, s2.0, BigInts.Pow(2, a), BigInts.Pow(5, b));
    FactorsMakeTens(a, b);
    TermValue(m, k);
    RealCancel(n2, d2, f);
    RealCancel(n2, d2, g);
    ScaleIsMake(m, -(k as int));
    TermFinite(n as real / d as real, m, k);
  }

  lemma Regroup(d: int, w: int, x: int, y: int)
    requires d == w * x && w == 1 * y
    ensures d == x * y
  {
  }

  lemma ScaleIsMake(m: int, e: int)
    ensures Val(Make(m, e)) == Scale(m, e)
  {
  }

  /** m × 10^-k is m over 10^k. */
  lemma TermValue(m: int, k: nat)
    ensures Scale(m, -(k as int)) == m as real / Pow10(k) as real
  {
    ScaleTimesPow(m, -(k as int), k);
    ScaleExpZero(m);
    DivideBack(Scale(m, -(k as int)), m, Pow10(k));
  }

  lemma DivideBack(y: real, n: int, d: int)
    requires d != 0 && y * d as real == n as real
    ensures y == n as real / d as real
  {
  }

  lemma TermFinite(v: real, m: int, k: nat)
    requires v == m as real / Pow10(k) as real
    ensures FiniteDecimal(v)
  {
    assert TimesPow10(v, k) == m as real;
    assert IsInt(TimesPow10(v, k));
  }

  /** A fraction with a finite expansion leaves 1 after the factoring. */
  lemma FiniteTerminates(n: int, d: int)
    requires n >= 0 && d >= 0
    ensures d != 0 && FiniteDecimal(n as real / d as real) ==>
      var g := Gcd(n, d);
      g != 0 && Strip(Strip(TDiv(d, g), 2).0, 5).0 == 1
  {
    if d != 0 && FiniteDecimal(n as real / d as real) {
      var k := FiniteDivides(n, d);
      DividesTerminates(n, d, k);
    }
  }

  /** A finite expansion of n / d means d divides n × 10^k for some k. */
  lemma FiniteDivides(n: int, d: int) returns (k: nat)
    requires d != 0 && FiniteDecimal(n as real / d as real)
    ensures Divides(d, n * Pow10(k))
  {
    var v := n as real / d as real;
    k :| IsInt(TimesPow10(v, k));
    var z := TimesPow10(v, k).Floor;
    assert z as real == v * Pow10(k) as real;
    WholeQuotient(n, d, Pow10(k), z);
    DividesIntro(d, n * Pow10(k), z);
  }

  /** If d divides n × 10^k, the factoring leaves 1: the reduced d is 2^a 5^b. */
  lemma DividesTerminates(n: int, d: int, k: nat)
    requires n >= 0 && d > 0 && Divides(d, n * Pow10(k))
    ensures var g := Gcd(n, d);
      g != 0 && Strip(Strip(TDiv(d, g), 2).0, 5).0 == 1
  {
    GcdZero(n, d);
    var g := Gcd(n, d);
    Reduce(n, d);
    ReduceNonNegative(n, d);
    var n2, d2 := TDiv(n, g), TDiv(d, g);
    var p := Pow10(k);
    // the reduced denominator divides 10^k
    var z := DividesElim(d, n * p);
    CancelCommon(n, d, n2, d2, g, p, z);
    DividesIntro(d2, n2 * p, z);
    CoprimeSwap(n2, d2);
    CoprimeGcd(d2, n2);
    CoprimeDividesProduct(d2, n2, p);
    // what the loops leave over divides d2 and is prime to 10
    var s2 := Strip(d2, 2);
    StripFactors(d2, 2);
    var s5 := Strip(s2.0, 5);
    StripFactors(s2.0, 5);
    var v := s5.0;
    LeftoverOdd(s2.0, v, s5.1);
    Regroup3(d2, s2.0, v, BigInts.Pow(2, s2.1), BigInts.Pow(5, s5.1));
    DividesIntro(v, d2, BigInts.Pow(5, s5.1) * BigInts.Pow(2, s2.1));
    DividesTrans(v, d2, p);
    CoprimeTen(v);
    PowerDivisor(v, k);
  }

  lemma Regroup3(d: int, w: int, v: int, x: int, y: int)
    requires d == w * x && w == v * y
    ensures d == (y * x) * v
  {
  }

  lemma CoprimeSwap(a: int, b: int)
    requires Coprime(a, b)
    ensures Coprime(b, a)
  {
  }

  /** (n / d) × p = z over the reals makes n × p = z × d over the integers. */
  lemma WholeQuotient(n: int, d: int, p: int, z: int)
    requires d != 0 && (n as real / d as real) * p as real == z as real
    ensures n * p == z * d
  {
    var x := n as real / d as real;
    assert x * d as real == n as real;
    assert (x * p as real) * d as real == (x * d as real) * p as real;
    CastMul(n, p);
    CastMul(z, d);
  }

  lemma CancelCommon(n: int, d: int, n2: int, d2: int, g: int, p: int, z: int)
    requires g != 0 && n == n2 * g && d == d2 * g && n * p == z * d
    ensures n2 * p == z * d2
  {
    assert (n2 * p) * g == (z * d2) * g;
  }

  /** An odd number times a power of 5 is odd. */
  lemma LeftoverOdd(w: int, v: int, c: nat)
    requires w == v * BigInts.Pow(5, c) && w % 2 != 0
    ensures v % 2 != 0
  {
    if v % 2 == 0 {
      var h := v / 2;
      assert w == (h * BigInts.Pow(5, c)) * 2;
      DividesIntro(2, w, h * BigInts.Pow(5, c));
    }
  }

  lemma CoprimeTen(v: int)
    requires v % 2 != 0 && v % 5 != 0
    ensures Coprime(v, 10)
  {
    forall t | Divides(t, v) && Divides(t, 10)
      ensures t == 1 || t == -1
    {
      TenDivisors(t);
      if t == 2 || t == -2 || t == 10 || t == -10 {
        DividesIntro(2, t, t / 2);
        DividesTrans(2, t, v);
      } else if t == 5 || t == -5 {
        DividesIntro(5, t, t / 5);
        DividesTrans(5, t, v);
      }
    }
  }

  lemma TenDivisors(t: int)
    requires Divides(t, 10)
    ensures t in {1, -1, 2, -2, 5, -5, 10, -10}
  {
    DividesBound(t, 10);
    assert -10 <= t <= 10;
    assert t == -10 || t == -9 || t == -8 || t == -7 || t == -6 || t == -5 || t == -4 ||
      t == -3 || t == -2 || t == -1 || t == 0 || t == 1 || t == 2 || t == 3 || t == 4 ||
      t == 5 || t == 6 || t == 7 || t == 8 || t == 9 || t == 10;
  }

  /** A number prime to 10 that divides a power of ten is a unit. */
  lemma {:induction false} PowerDivisor(v: int, k: nat)
    requires Coprime(v, 10) && Divides(v, Pow10(k))
    ensures v == 1 || v == -1
  {
    if k == 0 {
      DividesOne(v);
    } else {
      CoprimeGcd(v, 10);
      CoprimeDividesProduct(v, 10, Pow10(k - 1));
      PowerDivisor(v, k - 1);
    }
  }

  lemma IntNeg(x: real)
    ensures IsInt(x) <==> IsInt(-x)
  {
    if IsInt(x) {
      FloorOf(-x, -x.Floor);
    }
    if IsInt(-x) {
      FloorOf(x, -(-x).Floor);
    }
  }

  lemma FiniteNeg(v: real)
    ensures FiniteDecimal(-v) <==> FiniteDecimal(v)
  {
    if FiniteDecimal(v) {
      FiniteNegOne(v);
    }
    if FiniteDecimal(-v) {
      FiniteNegOne(-v);
      assert -(-v) == v;
    }
  }

  lemma FiniteNegOne(v: real)
    requires FiniteDecimal(v)
    ensures FiniteDecimal(-v)
  {
    var k: nat :| IsInt(TimesPow10(v, k));
    NegScaled(v, k);
  }

  lemma NegScaled(v: real, k: nat)
    requires IsInt(TimesPow10(v, k))
    ensures IsInt(TimesPow10(-v, k))
  {
    var x := TimesPow10(v, k);
    assert TimesPow10(-v, k) == -x;
    FloorOf(-x, -x.Floor);
  }

  /**
   * `fromFraction`: the Decimal n / d, when it has a finite decimal expansion.
   * The source's recursive call on a negative numerator reaches the factoring
   * body directly, so it is written here as that body followed by `neg`.
   */
  function FromFraction(n: int, d: int): (r: Result<Decimal>)
    ensures r.Ok? <==> d != 0 && FiniteDecimal(n as real / d as real)
    ensures r.Ok? ==> Canonical(r.value) && Val(r.value) == n as real / d as real
    ensures r.Err? ==> (r.error == DivisionByZero <==> n == 0 && d == 0)
    ensures r.Err? ==> r.error == DivisionByZero || r.error == NonTerminating
  {
    var n1, d1 := if d < 0 then -n else n, if d < 0 then -d else d;
    SignFlip(n, d, n1, d1);
    if n1 < 0 then
      var q := FromFractionNonNeg(-n1, d1);
      if q.Err? then
        Err(q.error)
      else
        Negated(q.value, (-n1) as real / d1 as real);
        Ok(Neg(q.value))
    else
      FromFractionNonNeg(n1, d1)
  }

  lemma SignFlip(n: int, d: int, n1: int, d1: int)
    requires d < 0 ==> n1 == -n && d1 == -d
    requires d >= 0 ==> n1 == n && d1 == d
    ensures d1 >= 0 && (d1 == 0 <==> d == 0)
    ensures d != 0 ==> n1 as real / d1 as real == n as real / d as real
    ensures d != 0 ==> (-n1) as real / d1 as real == -(n as real / d as real)
    ensures d != 0 ==> (FiniteDecimal((-n1) as real / d1 as real) <==> FiniteDecimal(n as real / d as real))
  {
    if d != 0 {
      FiniteNeg(n as real / d as real);
    }
  }

  lemma Negated(q: Decimal, v: real)
    requires Canonical(q) && Val(q) == v
    ensures Canonical(Neg(q)) && Val(Neg(q)) == -v
  {
  }

  /** `fromFraction` as written: settle the signs, then reduce and factor in FactorLoops. */
  method FromFractionLoop(numerator0: int, denominator0: int) returns (r: Result<Decimal>)
    ensures r == FromFraction(numerator0, denominator0)
    decreases if (denominator0 < 0 && numerator0 > 0) || (denominator0 >= 0 && numerator0 < 0) then 1 else 0
  {
    var numerator, denominator := numerator0, denominator0;
    if denominator < 0 {
      numerator := -numerator;
      denominator := -denominator;
    }
    if numerator < 0 {
      var q := FromFractionLoop(-numerator, denominator);
      if q.Err? {
        r := Err(q.error);
      } else {
        r := Ok(Neg(q.value));
      }
      NegativePath(numerator0, denominator0, numerator, denominator, q, r);
      return;
    }
    r := FactorLoops(numerator, denominator);
    SettledPath(numerator0, denominator0, numerator, denominator, r);
  }

  /** The recursive call on a negative numerator, then `neg`, is `fromFraction`. */
  lemma NegativePath(n0: int, d0: int, n: int, d: int, q: Result<Decimal>, r: Result<Decimal>)
    requires d0 < 0 ==> n == -n0 && d == -d0
    requires d0 >= 0 ==> n == n0 && d == d0
    requires n < 0 && q == FromFraction(-n, d)
    requires r == if q.Err? then Err(q.error) else Ok(Neg(q.value))
    ensures r == FromFraction(n0, d0)
  {
    assert FromFraction(-n, d) == FromFractionNonNeg(-n, d);
  }

  /** With both signs settled, the factoring body is `fromFraction`. */
  lemma SettledPath(n0: int, d0: int, n: int, d: int, r: Result<Decimal>)
    requires d0 < 0 ==> n == -n0 && d == -d0
    requires d0 >= 0 ==> n == n0 && d == d0
    requires n >= 0 && r == FromFractionNonNeg(n, d)
    ensures r == FromFraction(n0, d0)
  {
  }

  /** The body of `fromFraction` after the sign checks (Decimal.ts:302-319): `gcd`, then the two factoring loops. */
  method FactorLoops(numerator0: int, denominator0: int) returns (r: Result<Decimal>)
    requires numerator0 >= 0 && denominator0 >= 0
    ensures r == FromFractionNonNeg(numerator0, denominator0)
  {
    var divisor := ComputeGcd(numerator0, denominator0);
    if divisor == 0 {
      return Err(DivisionByZero);
    }
    var numerator := TDiv(numerator0, divisor);
    var denominator := TDiv(denominator0, divisor);
    var value, factor, exponent := DivideOut(denominator, 2, 5, 1, 0);
    value, factor, exponent := DivideOut(value, 5, 2, factor, exponent);
    if value != 1 {
      return Err(NonTerminating);
    }
    var result := New(numerator * factor, exponent);
    r := Ok(result);
  }

  /**
   * One factoring loop of `fromFraction` (Decimal.ts:308-312 with p = 2 and
   * q = 5, Decimal.ts:313-317 with p = 5 and q = 2): while `value` is above 1
   * and a multiple of p, divide it by p, multiply `factor` by q and lower
   * `exponent` by one.
   */
  method DivideOut(value0: int, p: int, q: int, factor0: int, exponent0: int)
    returns (value: int, factor: int, exponent: int)
    requires p > 1
    ensures var s := Strip(value0, p);
      value == s.0 && factor == factor0 * BigInts.Pow(q, s.1) && exponent == exponent0 - s.1
  {
    value, factor, exponent := value0, factor0, exponent0;
    ghost var count: nat := 0;
    while value > 1 && value % p == 0
      invariant Strip(value, p).0 == Strip(value0, p).0
      invariant Strip(value, p).1 + count == Strip(value0, p).1
      invariant factor == factor0 * BigInts.Pow(q, count) && exponent == exponent0 - count
      decreases value
    {
      StripSmaller(value, p);
      StripUnfold(value, p);
      FactorStep(factor0, BigInts.Pow(q, count), q);
      value := value / p;
      factor := factor * q;
      exponent := exponent - 1;
      count := count + 1;
    }
  }
}
