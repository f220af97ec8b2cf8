/**
 * The real number that a mantissa and a decimal exponent stand for.
 *
 * Scale(m, e) is m × 10^e. It is defined one decimal step at a time, so
 * that the solver only ever multiplies by the constant 10; every other
 * fact about it, including the one genuine product (ScaleMul), is proved
 * here once as a lemma.
 */
module Powers {
  import opened BigInts

  /** m × 10^e, one step of ten at a time. */
  ghost function Steps(m: int, e: int): real
    decreases Abs(e)
  {
    if e == 0 then m as real
    else if e > 0 then 10.0 * Steps(m, e - 1)
    else Steps(m, e + 1) / 10.0
  }

  /** m × 10^e over the reals. */
  ghost function Scale(m: int, e: int): real {
    Steps(m, e)
  }

  /** x is a whole number. */
  ghost predicate IsInt(x: real) {
    x == x.Floor as real
  }

  lemma ScaleExpZero(m: int)
    ensures Scale(m, 0) == m as real
  {
  }

  lemma ScaleSucc(m: int, e: int)
    ensures Scale(m, e + 1) == 10.0 * Scale(m, e)
  {
  }

  lemma {:induction false} ScaleAdd(a: int, b: int, e: int)
    ensures Scale(a + b, e) == Scale(a, e) + Scale(b, e)
    decreases Abs(e)
  {
    if e > 0 {
      ScaleAdd(a, b, e - 1);
      ScaleSucc(a + b, e - 1);
      ScaleSucc(a, e - 1);
      ScaleSucc(b, e - 1);
    } else if e < 0 {
      ScaleAdd(a, b, e + 1);
      ScaleSucc(a + b, e);
      ScaleSucc(a, e);
      ScaleSucc(b, e);
    } else {
      ScaleExpZero(a + b);
      ScaleExpZero(a);
      ScaleExpZero(b);
    }
  }

  lemma ScaleNeg(a: int, e: int)
    ensures Scale(-a, e) == -Scale(a, e)
  {
    ScaleAdd(-a, a, e);
    ScaleZero(e);
  }

  lemma {:induction false} ScaleZero(e: int)
    ensures Scale(0, e) == 0.0
    decreases Abs(e)
  {
    if e > 0 {
      ScaleZero(e - 1);
      ScaleSucc(0, e - 1);
    } else if e < 0 {
      ScaleZero(e + 1);
      ScaleSucc(0, e);
    } else {
      ScaleExpZero(0);
    }
  }

  lemma {:induction false} ScalePositive(m: int, e: int)
    requires m > 0
    ensures Scale(m, e) > 0.0
    decreases Abs(e)
  {
    if e > 0 {
      ScalePositive(m, e - 1);
      ScaleSucc(m, e - 1);
    } else if e < 0 {
      ScalePositive(m, e + 1);
      ScaleSucc(m, e);
    } else {
      ScaleExpZero(m);
    }
  }

  /** The sign of m × 10^e is the sign of m. */
  lemma ScaleSign(m: int, e: int)
    ensures Scale(m, e) == 0.0 <==> m == 0
    ensures Scale(m, e) > 0.0 <==> m > 0
    ensures Scale(m, e) < 0.0 <==> m < 0
  {
    if m > 0 {
      ScalePositive(m, e);
    } else if m < 0 {
      ScalePositive(-m, e);
      ScaleNeg(-m, e);
    } else {
      ScaleZero(e);
    }
  }

  /** At a fixed exponent, Scale is strictly increasing in the mantissa. */
  lemma ScaleOrder(a: int, b: int, e: int)
    ensures Scale(a, e) == Scale(b, e) <==> a == b
    ensures Scale(a, e) < Scale(b, e) <==> a < b
    ensures Scale(a, e) <= Scale(b, e) <==> a <= b
  {
    ScaleAdd(b - a, a, e);
    ScaleSign(b - a, e);
  }

  lemma {:induction false} ScaleTen(m: int, e: int)
    ensures Scale(m * 10, e) == Scale(m, e + 1)
    decreases Abs(e)
  {
    if e > 0 {
      ScaleTen(m, e - 1);
      ScaleSucc(m * 10, e - 1);
      ScaleSucc(m, e);
    } else if e < 0 {
      ScaleTen(m, e + 1);
      ScaleSucc(m * 10, e);
      ScaleSucc(m, e + 1);
    } else {
      ScaleExpZero(m * 10);
      ScaleSucc(m, 0);
      ScaleExpZero(m);
    }
  }

  /** Shifting decimal digits from the exponent into the mantissa keeps the value. */
  lemma {:induction false} ScaleShift(m: int, k: nat, e: int)
    ensures Scale(m * Pow10(k), e) == Scale(m, e + k)
  {
    if k > 0 {
      calc {
        Scale(m * Pow10(k), e);
        { assert m * Pow10(k) == (m * Pow10(k - 1)) * 10; }
        Scale((m * Pow10(k - 1)) * 10, e);
        { ScaleTen(m * Pow10(k - 1), e); }
        Scale(m * Pow10(k - 1), e + 1);
        { ScaleShift(m, k - 1, e + 1); }
        Scale(m, e + k);
      }
    }
  }

  /** At a natural exponent, Scale is integer arithmetic. */
  lemma ScaleNat(m: int, k: nat)
    ensures Scale(m, k) == (m * Pow10(k)) as real
  {
    ScaleShift(m, k, 0);
    ScaleExpZero(m * Pow10(k));
  }

  /** Scaling the mantissa by an integer factor scales the value. */
  lemma {:induction false} ScaleTimesInt(a: int, b: int, e: int)
    ensures Scale(a * b, e) == Scale(a, e) * (b as real)
    decreases Abs(e)
  {
    if e > 0 {
      ScaleTimesInt(a, b, e - 1);
      ScaleSucc(a * b, e - 1);
      ScaleSucc(a, e - 1);
      TenTimes(b as real, Scale(a, e - 1));
    } else if e < 0 {
      ScaleTimesInt(a, b, e + 1);
      ScaleSucc(a * b, e);
      ScaleSucc(a, e);
      TenTimes(b as real, Scale(a, e));
    } else {
      ScaleExpZero(a * b);
      ScaleExpZero(a);
    }
  }

  /** The product of two scaled integers is the scaled product. */
  lemma ScaleMul(a: int, e1: int, b: int, e2: int)
    ensures Scale(a * b, e1 + e2) == Scale(a, e1) * Scale(b, e2)
  {
    if e2 >= 0 {
      ScaleMulUp(a, e1, b, e2);
    } else {
      ScaleMulDown(a, e1, b, e2);
    }
  }

  lemma {:induction false} ScaleMulUp(a: int, e1: int, b: int, k: nat)
    ensures Scale(a * b, e1 + k) == Scale(a, e1) * Scale(b, k)
  {
    if k == 0 {
      ScaleTimesInt(a, b, e1);
      ScaleExpZero(b);
    } else {
      ScaleMulUp(a, e1, b, k - 1);
      ScaleSucc(a * b, e1 + k - 1);
      ScaleSucc(b, k - 1);
      TenTimes(Scale(a, e1), Scale(b, k - 1));
    }
  }

  lemma {:induction false} ScaleMulDown(a: int, e1: int, b: int, f: int)
    requires f <= 0
    ensures Scale(a * b, e1 + f) == Scale(a, e1) * Scale(b, f)
    decreases -f
  {
    if f == 0 {
      ScaleTimesInt(a, b, e1);
      ScaleExpZero(b);
    } else {
      ScaleMulDown(a, e1, b, f + 1);
      ScaleSucc(a * b, e1 + f);
      ScaleSucc(b, f);
      TenTimes(Scale(a, e1), Scale(b, f));
    }
  }

  lemma CastMul(a: int, b: int)
    ensures (a * b) as real == (a as real) * (b as real)
  {
  }

  lemma TenTimes(x: real, y: real)
    ensures 10.0 * (x * y) == x * (10.0 * y)
  {
  }

  /** Scaling by a natural power of ten is multiplying by an integer. */
  lemma ScaleTimesPow(m: int, e: int, k: nat)
    ensures Scale(m, e) * (Pow10(k) as real) == Scale(m, e + k)
  {
    ScaleMul(m, e, 1, k);
    ScaleNat(1, k);
  }

  /** m × 10^e1 and m' × 10^e2 are equal exactly when their alignments to e1 are. */
  lemma ScaleEqAligned(m1: int, e1: int, m2: int, e2: int)
    requires e1 <= e2
    ensures Scale(m1, e1) == Scale(m2, e2) <==> m1 == m2 * Pow10(e2 - e1)
  {
    ScaleShift(m2, e2 - e1, e1);
    ScaleOrder(m1, m2 * Pow10(e2 - e1), e1);
  }
}
