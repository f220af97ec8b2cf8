/**
 * The exact decimal value type of Decimal.ts: a pair (mantissa, exponent)
 * denoting mantissa × 10^exponent, kept in canonical form by its
 * constructor, with exact addition, subtraction and multiplication, the
 * comparisons, rounding to an integer, conversion to and from BigInt, the
 * truncating remainder and `magnitude`.
 */
module DecimalCore {
  import opened Wrappers
  import opened BigInts
  import opened Powers

  datatype Decimal = Decimal(mantissa: int, exponent: int)

  /** The constructor's invariant: zero is (0, 0); any other mantissa has no trailing decimal zero. */
  predicate Canonical(d: Decimal) {
    if d.mantissa == 0 then d.exponent == 0 else d.mantissa % 10 != 0
  }

  /** The number a Decimal denotes. */
  ghost function Val(d: Decimal): real {
    Scale(d.mantissa, d.exponent)
  }

  ghost function AbsR(x: real): real {
    if x < 0.0 then -x else x
  }

  lemma ValSign(d: Decimal)
    ensures Val(d) == 0.0 <==> d.mantissa == 0
    ensures Val(d) > 0.0 <==> d.mantissa > 0
    ensures Val(d) < 0.0 <==> d.mantissa < 0
  {
    ScaleSign(d.mantissa, d.exponent);
  }

  lemma TrailingZero(m: int)
    requires m != 0
    ensures TMod(m, 10) == 0 <==> m % 10 == 0
    ensures TMod(m, 10) == 0 ==>
      m == TDiv(m, 10) * 10 && TDiv(m, 10) != 0 && BigInts.Abs(TDiv(m, 10)) < BigInts.Abs(m)
  {
    TruncatedDivision(m, 10);
    if TMod(m, 10) == 0 {
      EuclidUnique(m, 10, TDiv(m, 10), 0);
    }
    if m % 10 == 0 {
      TruncatedUnique(m, 10, m / 10, 0);
    }
  }

  // ---------------------------------------------------------------------
  // The constructor (Decimal.ts:16-29)

  /** The Decimal that `new Decimal(m, e)` builds. */
  function Make(m: int, e: int): (d: Decimal)
    ensures Canonical(d)
    ensures Val(d) == Scale(m, e)
    ensures m != 0 ==> d.exponent >= e
    decreases BigInts.Abs(m)
  {
    if m == 0 then
      ScaleZero(0);
      ScaleZero(e);
      Decimal(0, 0)
    else if TMod(m, 10) == 0 then
      TrailingZero(m);
      ScaleTen(TDiv(m, 10), e);
      Make(TDiv(m, 10), e + 1)
    else
      TrailingZero(m);
      Decimal(m, e)
  }

  /** The constructor itself: strip trailing zeros into the exponent. */
  method New(mantissa0: int, exponent0: int) returns (d: Decimal)
    ensures d == Make(mantissa0, exponent0)
  {
    if mantissa0 == 0 {
      return Decimal(0, 0);
    }
    var mantissa, exponent := mantissa0, exponent0;
    while TMod(mantissa, 10) == 0
      invariant mantissa != 0
      invariant Make(mantissa, exponent) == Make(mantissa0, exponent0)
      decreases BigInts.Abs(mantissa)
    {
      TrailingZero(mantissa);
      mantissa := TDiv(mantissa, 10);
      exponent := exponent + 1;
    }
    d := Decimal(mantissa, exponent);
  }

  /** The constructor keeps the sign of the mantissa. */
  lemma MakeSign(m: int, e: int)
    ensures Make(m, e).mantissa < 0 <==> m < 0
    ensures Make(m, e).mantissa > 0 <==> m > 0
    ensures Make(m, e).mantissa == 0 <==> m == 0
  {
    ValSign(Make(m, e));
    ScaleSign(m, e);
  }

  /** Two canonical Decimals with the same value are the same pair. */
  lemma CanonicalUnique(a: Decimal, b: Decimal)
    requires Canonical(a) && Canonical(b) && Val(a) == Val(b)
    ensures a == b
  {
    ValSign(a);
    ValSign(b);
    if a.mantissa != 0 {
      if a.exponent <= b.exponent {
        CanonicalUniqueOrdered(a, b);
      } else {
        CanonicalUniqueOrdered(b, a);
      }
    }
  }

  lemma CanonicalUniqueOrdered(a: Decimal, b: Decimal)
    requires Canonical(a) && Canonical(b) && Val(a) == Val(b)
    requires a.mantissa != 0 && b.mantissa != 0 && a.exponent <= b.exponent
    ensures a == b
  {
    var k := b.exponent - a.exponent;
    ScaleEqAligned(a.mantissa, a.exponent, b.mantissa, b.exponent);
    if k > 0 {
      assert a.mantissa == (b.mantissa * Pow10(k - 1)) * 10;
      DividesIntro(10, a.mantissa, b.mantissa * Pow10(k - 1));
    }
  }

  /** A canonical pair is its own canonical form. */
  lemma MakeCanonical(d: Decimal)
    requires Canonical(d)
    ensures Make(d.mantissa, d.exponent) == d
  {
    CanonicalUnique(Make(d.mantissa, d.exponent), d);
  }

  /** The canonical form depends only on the value denoted. */
  lemma MakeRespectsValue(m1: int, e1: int, m2: int, e2: int)
    ensures Make(m1, e1) == Make(m2, e2) <==> Scale(m1, e1) == Scale(m2, e2)
  {
    var a, b := Make(m1, e1), Make(m2, e2);
    if Val(a) == Val(b) {
      CanonicalUnique(a, b);
    }
  }

  const Zero: Decimal := Decimal(0, 0)      // new Decimal(0n)
  const One: Decimal := Decimal(1, 0)       // new Decimal(1n)
  const MinusOne: Decimal := Decimal(-1, 0) // new Decimal(-1n)

  lemma ConstantValues()
    ensures Val(Zero) == 0.0 && Val(One) == 1.0 && Val(MinusOne) == -1.0
    ensures Canonical(Zero) && Canonical(One) && Canonical(MinusOne)
  {
    ScaleExpZero(0);
    ScaleExpZero(1);
    ScaleExpZero(-1);
  }

  // ---------------------------------------------------------------------
  // Alignment (Decimal.ts:35-42)

  datatype Aligned = Aligned(mantissa1: int, mantissa2: int, exponent: int)

  /** `#normalize`: both mantissas rescaled to the smaller exponent. */
  function Normalize(a: Decimal, b: Decimal): (n: Aligned)
    ensures n.exponent == Min(a.exponent, b.exponent)
    ensures Scale(n.mantissa1, n.exponent) == Val(a)
    ensures Scale(n.mantissa2, n.exponent) == Val(b)
  {
    var e := Min(a.exponent, b.exponent);
    ScaleShift(a.mantissa, a.exponent - e, e);
    ScaleShift(b.mantissa, b.exponent - e, e);
    Aligned(a.mantissa * Pow10(a.exponent - e), b.mantissa * Pow10(b.exponent - e), e)
  }

  // ---------------------------------------------------------------------
  // Arithmetic (Decimal.ts:31-33, 44-48, 153-160, 204-208)

  function Add(a: Decimal, b: Decimal): (r: Decimal)
    ensures Canonical(r) && Val(r) == Val(a) + Val(b)
  {
    var n := Normalize(a, b);
    ScaleAdd(n.mantissa1, n.mantissa2, n.exponent);
    Make(n.mantissa1 + n.mantissa2, n.exponent)
  }

  function Sub(a: Decimal, b: Decimal): (r: Decimal)
    ensures Canonical(r) && Val(r) == Val(a) - Val(b)
  {
    var n := Normalize(a, b);
    ScaleAdd(n.mantissa1, -n.mantissa2, n.exponent);
    ScaleNeg(n.mantissa2, n.exponent);
    Make(n.mantissa1 - n.mantissa2, n.exponent)
  }

  function Mul(a: Decimal, b: Decimal): (r: Decimal)
    ensures Canonical(r) && Val(r) == Val(a) * Val(b)
  {
    ScaleMul(a.mantissa, a.exponent, b.mantissa, b.exponent);
    Make(a.mantissa * b.mantissa, a.exponent + b.exponent)
  }

  function Neg(x: Decimal): (r: Decimal)
    ensures Canonical(r) && Val(r) == -Val(x)
  {
    ScaleNeg(x.mantissa, x.exponent);
    Make(-x.mantissa, x.exponent)
  }

  /** `abs` returns the receiver itself when it is positive. */
  function Abs(x: Decimal): (r: Decimal)
    ensures Val(r) == AbsR(Val(x))
    ensures Canonical(x) ==> Canonical(r)
  {
    ValSign(x);
    if Gt0(x) then x else Neg(x)
  }

  // ---------------------------------------------------------------------
  // Comparisons (Decimal.ts:69-77, 87-105, 115-133, 162-168)

  lemma CompareAligned(a: Decimal, b: Decimal)
    ensures var n := Normalize(a, b);
      (n.mantissa1 == n.mantissa2 <==> Val(a) == Val(b)) &&
      (n.mantissa1 < n.mantissa2 <==> Val(a) < Val(b)) &&
      (n.mantissa1 <= n.mantissa2 <==> Val(a) <= Val(b))
  {
    var n := Normalize(a, b);
    ScaleOrder(n.mantissa1, n.mantissa2, n.exponent);
  }

  function Eq(a: Decimal, b: Decimal): (r: bool)
    ensures r <==> Val(a) == Val(b)
  {
    CompareAligned(a, b);
    var n := Normalize(a, b);
    n.mantissa1 == n.mantissa2
  }

  function Neq(a: Decimal, b: Decimal): (r: bool)
    ensures r <==> Val(a) != Val(b)
  {
    !Eq(a, b)
  }

  function Gt(a: Decimal, b: Decimal): (r: bool)
    ensures r <==> Val(a) > Val(b)
  {
    CompareAligned(a, b);
    var n := Normalize(a, b);
    n.mantissa1 > n.mantissa2
  }

  function Gte(a: Decimal, b: Decimal): (r: bool)
    ensures r <==> Val(a) >= Val(b)
  {
    CompareAligned(a, b);
    var n := Normalize(a, b);
    n.mantissa1 >= n.mantissa2
  }

  function Lt(a: Decimal, b: Decimal): (r: bool)
    ensures r <==> Val(a) < Val(b)
  {
    CompareAligned(a, b);
    var n := Normalize(a, b);
    n.mantissa1 < n.mantissa2
  }

  function Lte(a: Decimal, b: Decimal): (r: bool)
    ensures r <==> Val(a) <= Val(b)
  {
    CompareAligned(a, b);
    var n := Normalize(a, b);
    n.mantissa1 <= n.mantissa2
  }

  function Eq0(x: Decimal): (r: bool)
    ensures r <==> Val(x) == 0.0
  {
    ValSign(x);
    x.mantissa == 0
  }

  function Neq0(x: Decimal): (r: bool)
    ensures r <==> Val(x) != 0.0
  {
    !Eq0(x)
  }

  function Gt0(x: Decimal): (r: bool)
    ensures r <==> Val(x) > 0.0
  {
    ValSign(x);
    x.mantissa > 0
  }

  function Gte0(x: Decimal): (r: bool)
    ensures r <==> Val(x) >= 0.0
  {
    ValSign(x);
    x.mantissa >= 0
  }

  function Lt0(x: Decimal): (r: bool)
    ensures r <==> Val(x) < 0.0
  {
    ValSign(x);
    x.mantissa < 0
  }

  function Lte0(x: Decimal): (r: bool)
    ensures r <==> Val(x) <= 0.0
  {
    ValSign(x);
    x.mantissa <= 0
  }

  /** On canonical values, `eq` is identity of the pairs. */
  lemma EqIsIdentity(a: Decimal, b: Decimal)
    requires Canonical(a) && Canonical(b)
    ensures Eq(a, b) <==> a == b
  {
    if Eq(a, b) {
      CanonicalUnique(a, b);
    }
  }

  // ---------------------------------------------------------------------
  // Sign (Decimal.ts:190-202)

  function Sign(x: Decimal): (r: Decimal)
    ensures Canonical(r)
    ensures Val(r) == if Val(x) > 0.0 then 1.0 else if Val(x) < 0.0 then -1.0 else 0.0
  {
    ConstantValues();
    if Gt0(x) then One else if Lt0(x) then MinusOne else Zero
  }

  /** `compare`: the sign of the difference, as an integer. */
  function Compare(a: Decimal, b: Decimal): (r: int)
    ensures r == -1 <==> Val(a) < Val(b)
    ensures r == 0 <==> Val(a) == Val(b)
    ensures r == 1 <==> Val(a) > Val(b)
  {
    var s := Sign(Sub(a, b));
    ValSign(s);
    ScaleExpZero(s.mantissa);
    s.mantissa
  }

  // ---------------------------------------------------------------------
  // Integers (Decimal.ts:50-56, 79-85, 111-113, 186-188, 210-213, 322-324)

  /** A Decimal with a negative exponent lies strictly between two integers around its truncation. */
  lemma TruncBounds(x: Decimal)
    requires Canonical(x) && x.exponent < 0
    ensures var t := TDiv(x.mantissa, Pow10(-x.exponent));
      (x.mantissa > 0 ==> t as real < Val(x) < t as real + 1.0) &&
      (x.mantissa < 0 ==> t as real - 1.0 < Val(x) < t as real)
  {
    var k: nat := -x.exponent;
    var m, p := x.mantissa, Pow10(k);
    var t := TDiv(m, p);
    FractionalRemainder(m, k);
    BetweenMultiples(m, p);
    ValTimesDenominator(x);
    if m > 0 {
      SqueezeInt(Val(x), p, t, m, t + 1);
    } else {
      SqueezeInt(Val(x), p, t - 1, m, t);
    }
  }

  /** Multiplying a value with a negative exponent by 10^-exponent gives back the mantissa. */
  lemma ValTimesDenominator(x: Decimal)
    requires x.exponent < 0
    ensures Val(x) * (Pow10(-x.exponent) as real) == x.mantissa as real
  {
    ScaleTimesPow(x.mantissa, x.exponent, -x.exponent);
    ScaleExpZero(x.mantissa);
  }

  /** A mantissa without a trailing zero is not a multiple of a positive power of ten. */
  lemma FractionalRemainder(m: int, k: nat)
    requires m % 10 != 0 && k > 0
    ensures TMod(m, Pow10(k)) != 0
  {
    var p := Pow10(k);
    TruncatedDivision(m, p);
    if TMod(m, p) == 0 {
      var t := TDiv(m, p);
      MulRearrange(t, 1, Pow10(k - 1), 10);
      DividesIntro(10, m, t * Pow10(k - 1));
    }
  }

  /** A number that is not a multiple of p lies strictly between two multiples around its truncation. */
  lemma BetweenMultiples(m: int, p: int)
    requires p > 0 && TMod(m, p) != 0
    ensures var t := TDiv(m, p);
      (m > 0 ==> t * p < m < (t + 1) * p) && (m < 0 ==> (t - 1) * p < m < t * p)
  {
    TruncatedDivision(m, p);
    var t := TDiv(m, p);
    assert (t + 1) * p == t * p + p;
    assert (t - 1) * p == t * p - p;
  }

  /** v × p = m with lo × p < m < hi × p puts v strictly between lo and hi. */
  lemma SqueezeInt(v: real, p: int, lo: int, m: int, hi: int)
    requires p > 0 && v * (p as real) == m as real && lo * p < m < hi * p
    ensures lo as real < v < hi as real
  {
    CastMul(lo, p);
    CastMul(hi, p);
    Squeeze(v, p as real, lo as real, hi as real);
  }

  lemma Squeeze(v: real, p: real, lo: real, hi: real)
    requires p > 0.0 && lo * p < v * p < hi * p
    ensures lo < v < hi
  {
  }

  /** `floor`: the greatest integer not above the value. */
  function Floor(x: Decimal): (r: Decimal)
    requires Canonical(x)
    ensures Canonical(r) && IsInteger(r)
    ensures Val(r) <= Val(x) < Val(r) + 1.0
    ensures IsInteger(x) ==> r == x
  {
    if x.exponent >= 0 then
      x
    else
      var t := TDiv(x.mantissa, Pow10(-x.exponent));
      TruncBounds(x);
      ValSign(x);
      ScaleExpZero(t);
      ScaleExpZero(t - 1);
      if Gte0(x) then Make(t, 0) else Make(t - 1, 0)
  }

  /** `ceil`: the least integer not below the value. */
  function Ceil(x: Decimal): (r: Decimal)
    requires Canonical(x)
    ensures Canonical(r) && IsInteger(r)
    ensures Val(r) - 1.0 < Val(x) <= Val(r)
    ensures IsInteger(x) ==> r == x
  {
    if x.exponent >= 0 then
      x
    else
      var t := TDiv(x.mantissa, Pow10(-x.exponent));
      TruncBounds(x);
      ValSign(x);
      ScaleExpZero(t);
      ScaleExpZero(t + 1);
      if Gte0(x) then Make(t + 1, 0) else Make(t, 0)
  }

  /** Make(5, -1), the half that `round` adds. */
  lemma HalfValue()
    ensures Make(5, -1) == Decimal(5, -1) && Val(Make(5, -1)) == 0.5
  {
    ScaleSucc(5, -1);
    ScaleExpZero(5);
  }

  /** `round`: the nearest integer, halves going up. */
  function Round(x: Decimal): (r: Decimal)
    ensures Canonical(r) && IsInteger(r)
    ensures Val(r) <= Val(x) + 0.5 < Val(r) + 1.0
  {
    HalfValue();
    Floor(Add(x, Make(5, -1)))
  }

  /** `isInteger`: the exponent is not negative. */
  predicate IsInteger(x: Decimal) {
    x.exponent >= 0
  }

  /** On canonical values `isInteger` decides whether the value is whole. */
  lemma IsIntegerIff(x: Decimal)
    requires Canonical(x)
    ensures IsInteger(x) <==> IsInt(Val(x))
  {
    if x.exponent >= 0 {
      ScaleNat(x.mantissa, x.exponent);
    } else {
      TruncBounds(x);
      var t := TDiv(x.mantissa, Pow10(-x.exponent));
      var v := Val(x);
      if x.mantissa > 0 {
        NotWhole(v, t);
      } else {
        NotWhole(v, t - 1);
      }
    }
  }

  lemma NotWhole(v: real, t: int)
    requires t as real < v < t as real + 1.0
    ensures !IsInt(v)
  {
    FloorOf(v, t);
  }

  /** `toBigInt`: the integer a whole Decimal denotes; the assertion fails otherwise. */
  function ToBigInt(x: Decimal): (r: Result<int>)
    ensures r.Ok? <==> IsInteger(x)
    ensures r.Ok? ==> r.value as real == Val(x)
    ensures r.Err? ==> r.error == NotAnInteger
  {
    if !IsInteger(x) then
      Err(NotAnInteger)
    else
      ScaleNat(x.mantissa, x.exponent);
      Ok(x.mantissa * Pow10(x.exponent))
  }

  /** `fromBigInt`. */
  function FromBigInt(n: int): (r: Decimal)
    ensures Canonical(r) && IsInteger(r) && Val(r) == n as real
  {
    ScaleExpZero(n);
    MakeSign(n, 0);
    Make(n, 0)
  }

  lemma BigIntRoundTrip(n: int)
    ensures ToBigInt(FromBigInt(n)) == Ok(n)
  {
  }

  lemma {:induction false} IntegerRoundTrip(x: Decimal)
    requires Canonical(x) && IsInteger(x)
    ensures FromBigInt(ToBigInt(x).value) == x
  {
    CanonicalUnique(FromBigInt(ToBigInt(x).value), x);
  }

  // ---------------------------------------------------------------------
  // Remainder (Decimal.ts:148-151)

  /** Truncation of a real toward zero. */
  ghost function TruncR(x: real): int {
    if x >= 0.0 then x.Floor else -((-x).Floor)
  }

  /** `mod`: the remainder of the truncated division of the aligned mantissas. */
  function Mod(a: Decimal, b: Decimal): (r: Result<Decimal>)
    ensures r.Err? <==> Val(b) == 0.0
    ensures r.Err? ==> r.error == DivisionByZero
    ensures r.Ok? ==> Canonical(r.value)
    ensures r.Ok? ==> Val(r.value) == Val(a) - TruncR(Val(a) / Val(b)) as real * Val(b)
    ensures r.Ok? ==> AbsR(Val(r.value)) < AbsR(Val(b))
    ensures r.Ok? ==> Val(r.value) == 0.0 || (Val(r.value) < 0.0 <==> Val(a) < 0.0)
  {
    var n := Normalize(a, b);
    ScaleSign(n.mantissa2, n.exponent);
    if n.mantissa2 == 0 then
      Err(DivisionByZero)
    else
      ModValue(a, b);
      ModBounds(a, b);
      Ok(Make(TMod(n.mantissa1, n.mantissa2), n.exponent))
  }

  /** Over a common exponent, the ratio of two values is the ratio of their mantissas. */
  lemma ValueRatio(a: Decimal, b: Decimal)
    requires Val(b) != 0.0
    ensures var n := Normalize(a, b);
      n.mantissa2 != 0 && Val(a) / Val(b) == n.mantissa1 as real / n.mantissa2 as real
  {
    var n := Normalize(a, b);
    var e := n.exponent;
    ScaleSign(n.mantissa2, e);
    ScaleTimesInt(1, n.mantissa1, e);
    ScaleTimesInt(1, n.mantissa2, e);
    ScaleSign(1, e);
    QuotientCancels(Scale(1, e), n.mantissa1 as real, n.mantissa2 as real);
  }

  lemma QuotientCancels(s: real, x: real, y: real)
    requires s > 0.0 && y != 0.0
    ensures (s * x) / (s * y) == x / y
  {
  }

  lemma ModValue(a: Decimal, b: Decimal)
    requires Val(b) != 0.0
    ensures var n := Normalize(a, b);
      n.mantissa2 != 0 &&
      Scale(TMod(n.mantissa1, n.mantissa2), n.exponent) == Val(a) - TruncR(Val(a) / Val(b)) as real * Val(b)
  {
    ValueRatio(a, b);
    var n := Normalize(a, b);
    TruncQuotient(n.mantissa1, n.mantissa2);
    TruncatedDivision(n.mantissa1, n.mantissa2);
    RemainderValue(n.mantissa1, n.mantissa2, TDiv(n.mantissa1, n.mantissa2), TMod(n.mantissa1, n.mantissa2), n.exponent);
  }

  /** A division identity m1 = q × m2 + r, read at a common exponent. */
  lemma RemainderValue(m1: int, m2: int, q: int, r: int, e: int)
    requires m1 == q * m2 + r
    ensures Scale(r, e) == Scale(m1, e) - q as real * Scale(m2, e)
  {
    ScaleDiff(m1, m2 * q, r, e);
    ScaleTimesInt(m2, q, e);
  }

  lemma ScaleDiff(a: int, b: int, c: int, e: int)
    requires c == a - b
    ensures Scale(c, e) == Scale(a, e) - Scale(b, e)
  {
    ScaleAdd(a, -b, e);
    ScaleNeg(b, e);
  }

  lemma ModBounds(a: Decimal, b: Decimal)
    requires Normalize(a, b).mantissa2 != 0
    ensures var n := Normalize(a, b);
      var v := Scale(TMod(n.mantissa1, n.mantissa2), n.exponent);
      AbsR(v) < AbsR(Val(b)) && (v == 0.0 || (v < 0.0 <==> Val(a) < 0.0))
  {
    var n := Normalize(a, b);
    var m1, m2, e := n.mantissa1, n.mantissa2, n.exponent;
    var rem := TMod(m1, m2);
    ScaleSign(rem, e);
    ScaleSign(m1, e);
    ScaleNeg(rem, e);
    ScaleNeg(m2, e);
    ScaleOrder(BigInts.Abs(rem), BigInts.Abs(m2), e);
  }

  /** The truncation of a / b over the reals is BigInt division. */
  lemma TruncQuotient(a: int, b: int)
    requires b != 0
    ensures TruncR(a as real / b as real) == TDiv(a, b)
  {
    var q, r := TDiv(a, b), TMod(a, b);
    TruncatedDivision(a, b);
    var x := a as real / b as real;
    QuotientSplit(a, b, q, r);
    assert a == 0 ==> r == 0;
    var f := r as real / b as real;
    assert -1.0 < f < 1.0 by {
      FractionBound(r, b);
    }
    assert f == 0.0 || (f > 0.0 <==> x > 0.0) by {
      FractionSign(a, b, r);
    }
    if x >= 0.0 {
      FloorOf(x, q);
    } else {
      FloorOf(-x, -q);
    }
  }

  lemma QuotientSplit(a: int, b: int, q: int, r: int)
    requires b != 0 && a == q * b + r
    ensures a as real / b as real == q as real + r as real / b as real
  {
    CastMul(q, b);
    assert a as real == q as real * b as real + r as real;
  }

  lemma FractionBound(r: int, b: int)
    requires b != 0 && BigInts.Abs(r) < BigInts.Abs(b)
    ensures -1.0 < r as real / b as real < 1.0
  {
    var f := r as real / b as real;
    assert f * (b as real) == r as real;
    if b > 0 {
      Squeeze(f, b as real, -1.0, 1.0);
    } else {
      assert f * (-b as real) == -r as real;
      Squeeze(-f, -b as real, -1.0, 1.0);
    }
  }

  /** The sign of a quotient. */
  lemma QuotientSign(x: real, y: real)
    requires y != 0.0
    ensures x / y > 0.0 <==> (x > 0.0 && y > 0.0) || (x < 0.0 && y < 0.0)
    ensures x / y == 0.0 <==> x == 0.0
  {
    var f := x / y;
    assert f * y == x;
  }

  lemma FractionSign(a: int, b: int, r: int)
    requires b != 0 && (r > 0 ==> a > 0) && (r < 0 ==> a < 0)
    ensures var f := r as real / b as real;
      f == 0.0 || (f > 0.0 <==> a as real / b as real > 0.0)
  {
    QuotientSign(r as real, b as real);
    QuotientSign(a as real, b as real);
  }

  lemma FloorOf(x: real, q: int)
    requires q as real <= x < q as real + 1.0
    ensures x.Floor == q
  {
  }

  // ---------------------------------------------------------------------
  // Magnitude (Decimal.ts:135-146)

  /** `magnitude`: the exponent of the leading decimal digit; -1 for zero. */
  method Magnitude(x: Decimal) returns (r: int)
    ensures Canonical(x) && x.mantissa == 0 ==> r == -1
    ensures x.mantissa != 0 ==> Scale(1, r) <= AbsR(Val(x)) < Scale(1, r + 1)
    decreases if x.mantissa < 0 then 1 else 0
  {
    if Lt0(x) {
      var n := Neg(x);
      MakeSign(-x.mantissa, x.exponent);
      r := Magnitude(n);
      return;
    }
    var mantissa := 1;
    var exponent := -1;
    while x.mantissa >= mantissa
      invariant exponent >= -1 && mantissa == Pow10(exponent + 1)
      invariant exponent >= 0 ==> Pow10(exponent) <= x.mantissa
      decreases x.mantissa - mantissa
    {
      mantissa := mantissa * 10;
      exponent := exponent + 1;
    }
    r := exponent + x.exponent;
    if x.mantissa != 0 {
      MagnitudeBounds(x.mantissa, x.exponent, exponent);
    }
  }

  lemma MagnitudeBounds(m: int, e: int, k: nat)
    requires Pow10(k) <= m < Pow10(k + 1)
    ensures Scale(1, k + e) <= Scale(m, e) < Scale(1, k + e + 1)
  {
    ScaleShift(1, k, e);
    ScaleShift(1, k + 1, e);
    ScaleOrder(Pow10(k), m, e);
    ScaleOrder(m, Pow10(k + 1), e);
  }
}
