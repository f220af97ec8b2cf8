/**
 * The operations of Decimal.ts that go through fractions: `div` and `inv`,
 * and the integer power `pow` with `e` built on it.
 *
 * `pow` multiplies the exponent by 2 whatever the power is; `Pow` models it
 * as written and `PowExact` is the definition with the exponent multiplied
 * by the power, the one `EExact` and the rest of the model use.
 */
module Quotients {
  import opened Wrappers
  import opened BigInts
  import opened Powers
  import opened DecimalCore
  import opened Fractions

  // ---------------------------------------------------------------------
  // div and inv (Decimal.ts:58-63, 107-109)

  /** `div`: cross-multiply the two fractions and convert back with `fromFraction`. */
  function Div(a: Decimal, b: Decimal): (r: Result<Decimal>)
    ensures r.Ok? <==> Val(b) != 0.0 && FiniteDecimal(Val(a) / Val(b))
    ensures r.Ok? ==> Canonical(r.value) && Val(r.value) == Val(a) / Val(b)
    ensures r.Err? ==> (r.error == DivisionByZero <==> Val(a) == 0.0 && Val(b) == 0.0)
    ensures r.Err? ==> r.error == DivisionByZero || r.error == NonTerminating
  {
    var f1, f2 := ToFraction(a), ToFraction(b);
    CrossMultiply(f1.numerator, f1.denominator, f2.numerator, f2.denominator);
    FromFraction(f1.numerator * f2.denominator, f2.numerator * f1.denominator)
  }

  /** The cross-multiplied fraction has the quotient's value, and is 0/0 exactly when both are zero. */
  lemma CrossMultiply(n1: int, d1: int, n2: int, d2: int)
    requires d1 != 0 && d2 != 0
    ensures n2 * d1 == 0 <==> n2 == 0
    ensures n1 * d2 == 0 <==> n1 == 0
    ensures n2 != 0 ==> n2 as real / d2 as real != 0.0
    ensures n2 != 0 ==> (n1 * d2) as real / (n2 * d1) as real == (n1 as real / d1 as real) / (n2 as real / d2 as real)
    ensures n2 == 0 ==> n2 as real / d2 as real == 0.0
    ensures n1 as real / d1 as real == 0.0 <==> n1 == 0
  {
    if n2 != 0 {
      var x, y := n1 as real / d1 as real, n2 as real / d2 as real;
      CastMul(n1, d2);
      CastMul(n2, d1);
      QuotientsCross(n1 as real, d1 as real, n2 as real, d2 as real, x, y);
    }
    if n1 as real / d1 as real == 0.0 {
      assert n1 as real == (n1 as real / d1 as real) * d1 as real;
    }
  }

  lemma QuotientsCross(n1: real, d1: real, n2: real, d2: real, x: real, y: real)
    requires d1 != 0.0 && d2 != 0.0 && n2 != 0.0 && x == n1 / d1 && y == n2 / d2
    ensures y != 0.0 && (n1 * d2) / (n2 * d1) == x / y
  {
    assert n1 == x * d1 && n2 == y * d2;
    assert (n1 * d2) * y == (n2 * d1) * x;
  }

  /** `inv`: one divided by the value. Only a non-terminating reciprocal fails, zero included. */
  function Inv(x: Decimal): (r: Result<Decimal>)
    ensures r.Ok? <==> Val(x) != 0.0 && FiniteDecimal(1.0 / Val(x))
    ensures r.Ok? ==> Canonical(r.value) && Val(r.value) == 1.0 / Val(x)
    ensures r.Err? ==> r.error == NonTerminating
  {
    ConstantValues();
    var r := Div(One, x);
    InvFromDiv(r, Val(One), Val(x));
    r
  }

  lemma InvFromDiv(r: Result<Decimal>, u: real, v: real)
    requires u == 1.0
    requires r.Ok? <==> v != 0.0 && FiniteDecimal(u / v)
    requires r.Ok? ==> Canonical(r.value) && Val(r.value) == u / v
    requires r.Err? ==> (r.error == DivisionByZero <==> u == 0.0 && v == 0.0)
    requires r.Err? ==> r.error == DivisionByZero || r.error == NonTerminating
    ensures r.Ok? <==> v != 0.0 && FiniteDecimal(1.0 / v)
    ensures r.Ok? ==> Canonical(r.value) && Val(r.value) == 1.0 / v
    ensures r.Err? ==> r.error == NonTerminating
  {
  }

  // ---------------------------------------------------------------------
  // pow (Decimal.ts:170-184)

  /** v to the natural power k over the reals. */
  ghost function RPow(v: real, k: nat): real {
    if k == 0 then 1.0 else v * RPow(v, k - 1)
  }

  /**
   * `pow` as written: powers 0 and 1 return `one` and the receiver, a
   * negative power inverts first, and any other power raises the mantissa
   * and doubles the exponent.
   */
  function Pow(x: Decimal, n: int): (r: Result<Decimal>)
    ensures n >= 0 ==> r.Ok?
    ensures n < 0 ==> (r.Ok? <==> Inv(x).Ok?)
    ensures r.Err? ==> r.error == NonTerminating
    ensures r.Ok? && 0 <= n <= 2 ==> Val(r.value) == RPow(Val(x), n)
    ensures r.Ok? && n >= 0 && x.exponent == 0 ==> Val(r.value) == RPow(Val(x), n)
    ensures r.Ok? && -2 <= n < 0 ==> Val(x) != 0.0 && Val(r.value) == RPow(1.0 / Val(x), -n)
    ensures n < 0 && Inv(x).Ok? && Inv(x).value.exponent == 0 ==> r.Ok? && Val(x) != 0.0 && Val(r.value) == RPow(1.0 / Val(x), -n)
    decreases if n < 0 then 1 else 0
  {
    if n == 0 then
      ConstantValues();
      Ok(One)
    else if n == 1 then
      RPowOne(Val(x));
      Ok(x)
    else if n < 0 then
      var i := Inv(x);
      if i.Err? then
        i
      else
        Pow(i.value, -n)
    else
      RaisedMantissa(x, n);
      Ok(Make(BigInts.Pow(x.mantissa, n), x.exponent * 2))
  }

  /** Raising the mantissa and doubling the exponent is right for squares and for a receiver with exponent 0 (an integer with no trailing zero). */
  lemma RaisedMantissa(x: Decimal, n: nat)
    requires n >= 2
    ensures var v := Scale(BigInts.Pow(x.mantissa, n), x.exponent * 2);
      (n == 2 ==> v == RPow(Val(x), n)) && (x.exponent == 0 ==> v == RPow(Val(x), n))
  {
    ScalePow(x.mantissa, x.exponent, 2);
    ScalePow(x.mantissa, 0, n);
  }

  /** `pow` corrected: the exponent is multiplied by the power. */
  function PowExact(x: Decimal, n: int): (r: Result<Decimal>)
    ensures n >= 0 ==> r.Ok? && Val(r.value) == RPow(Val(x), n)
    ensures n < 0 ==> (r.Ok? <==> Inv(x).Ok?)
    ensures r.Err? ==> r.error == NonTerminating
    ensures r.Ok? && n < 0 ==> Val(x) != 0.0 && Val(r.value) == RPow(1.0 / Val(x), -n)
    ensures r.Ok? && n != 1 ==> Canonical(r.value)
    decreases if n < 0 then 1 else 0
  {
    if n == 0 then
      ConstantValues();
      Ok(One)
    else if n == 1 then
      RPowOne(Val(x));
      Ok(x)
    else if n < 0 then
      var i := Inv(x);
      if i.Err? then
        i
      else
        PowExact(i.value, -n)
    else
      ScalePow(x.mantissa, x.exponent, n);
      Ok(Make(BigInts.Pow(x.mantissa, n), x.exponent * n))
  }

  lemma RPowOne(v: real)
    ensures RPow(v, 1) == v
    ensures RPow(v, 2) == v * v
  {
  }

  /** Raising m × 10^e to the power k raises m and multiplies e by k. */
  lemma {:induction false} ScalePow(m: int, e: int, k: nat)
    ensures Scale(BigInts.Pow(m, k), e * k) == RPow(Scale(m, e), k)
  {
    if k == 0 {
      ScaleExpZero(1);
    } else {
      ScalePow(m, e, k - 1);
      assert e * k == e + e * (k - 1);
      ScaleMul(m, e, BigInts.Pow(m, k - 1), e * (k - 1));
    }
  }

  /** The as-written `pow` is wrong from the third power on: 0.2 cubed comes out as 0.08. */
  lemma PowCounterexample()
    ensures Pow(Decimal(2, -1), 3) == Ok(Decimal(8, -2))
    ensures Val(Decimal(8, -2)) != RPow(Val(Decimal(2, -1)), 3)
    ensures PowExact(Decimal(2, -1), 3) == Ok(Decimal(8, -3))
  {
    var x := Decimal(2, -1);
    assert BigInts.Pow(2, 3) == 8;
    assert Make(8, -2) == Decimal(8, -2);
    assert Make(8, -3) == Decimal(8, -3);
    assert Val(x) == 0.2 by {
      ScaleExpZero(2);
    }
    assert Val(Decimal(8, -2)) == 0.08 by {
      ScaleExpZero(8);
      ScaleSucc(8, -1);
      ScaleSucc(8, -2);
    }
    assert RPow(0.2, 3) == 0.008;
  }

  // ---------------------------------------------------------------------
  // e (Decimal.ts:65-67)

  /** `new Decimal(10n)`. */
  const Ten: Decimal := Make(10, 0)

  lemma TenIsCanonical()
    ensures Ten == Decimal(1, 1) && Val(Ten) == 10.0
  {
    assert TMod(10, 10) == 0 && TDiv(10, 10) == 1 && TMod(1, 10) == 1;
    ScaleExpZero(10);
  }

  /** The exponent the as-written `pow` gives ten: k itself only for -2 ≤ k ≤ 2. */
  function Clamp(k: int): (c: int)
    ensures -2 <= c <= 2
    ensures -2 <= k <= 2 ==> c == k
    ensures k > 2 ==> c == 2
    ensures k < -2 ==> c == -2
  {
    if k > 2 then 2 else if k < -2 then -2 else k
  }

  /** One tenth: the inverse of ten, and a finite decimal. */
  lemma InvTen()
    ensures Inv(Ten) == Ok(Decimal(1, -1))
  {
    TenIsCanonical();
    var tenth := Decimal(1, -1);
    assert Val(tenth) == 0.1 by {
      ScaleExpZero(1);
    }
    assert IsInt(TimesPow10(1.0 / 10.0, 1));
    assert FiniteDecimal(1.0 / Val(Ten));
    var r := Inv(Ten);
    assert Val(r.value) == 0.1;
    CanonicalUnique(r.value, tenth);
  }

  /** The as-written powers of ten. */
  lemma PowTen(k: int)
    ensures Pow(Ten, k) == Ok(Decimal(1, Clamp(k)))
  {
    TenIsCanonical();
    if k < 0 {
      InvTen();
      PowOfOne(-k);
      assert Make(1, -2) == Decimal(1, -2);
    } else if k >= 2 {
      assert Make(1, 2) == Decimal(1, 2);
      PowOfOne(k);
    }
  }

  lemma {:induction false} PowOfOne(k: nat)
    ensures BigInts.Pow(1, k) == 1
  {
    if k > 0 {
      PowOfOne(k - 1);
    }
  }

  /** The corrected powers of ten. */
  lemma PowExactTen(k: int)
    ensures PowExact(Ten, k).Ok?
    ensures PowExact(Ten, k).value == Make(1, k)
  {
    TenIsCanonical();
    if k < 0 {
      InvTen();
      var p := -k;
      PowOfOne(p);
      if p == 1 {
        assert Make(1, -1) == Decimal(1, -1);
      } else {
        assert (-1) * p == k;
      }
    } else if k == 1 {
      assert Make(1, 1) == Decimal(1, 1);
    } else if k == 0 {
      assert Make(1, 0) == Decimal(1, 0);
    } else {
      PowOfOne(k);
    }
  }

  /** `new Decimal(10n).pow(k)` as written. */
  function TenToThe(k: int): (d: Decimal)
    ensures d == Decimal(1, Clamp(k))
  {
    PowTen(k);
    Pow(Ten, k).value
  }

  /** `new Decimal(10n).pow(k)` with the corrected `pow`. */
  function TenToTheExact(k: int): (d: Decimal)
    ensures d == Decimal(1, k)
  {
    PowExactTen(k);
    assert Make(1, k) == Decimal(1, k);
    PowExact(Ten, k).value
  }

  /** Multiplying by a power of ten moves the point. */
  lemma MulTen(x: Decimal, c: int)
    ensures Mul(x, Decimal(1, c)) == Make(x.mantissa, x.exponent + c)
  {
    assert x.mantissa * 1 == x.mantissa;
  }

  /** `e` as written: multiply by `new Decimal(10n).pow(k)`, which scales by 10^Clamp(k). */
  function E(x: Decimal, k: int): (r: Decimal)
    ensures Canonical(r) && Val(r) == Scale(x.mantissa, x.exponent + Clamp(k))
    ensures r == Make(x.mantissa, x.exponent + Clamp(k))
  {
    MulTen(x, Clamp(k));
    Mul(x, TenToThe(k))
  }

  /** `e` with the corrected power: shift the decimal point by k places. */
  function EExact(x: Decimal, k: int): (r: Decimal)
    ensures Canonical(r) && Val(r) == Scale(x.mantissa, x.exponent + k)
    ensures r == Make(x.mantissa, x.exponent + k)
  {
    MulTen(x, k);
    Mul(x, TenToTheExact(k))
  }

  /** The as-written `e` scales 1 by 100 where 1000 is meant. */
  lemma ECounterexample()
    ensures E(One, 3) == Decimal(1, 2)
    ensures EExact(One, 3) == Decimal(1, 3)
  {
    assert Make(1, 2) == Decimal(1, 2);
    assert Make(1, 3) == Decimal(1, 3);
  }
}
