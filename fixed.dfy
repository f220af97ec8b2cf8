/**
 * Decimal.ts's `toFixed` (Decimal.ts:215-228): round half up at a number of
 * decimal places with `e`, `round` and `e` again, then print the rounded
 * value with exactly that many digits after the point.
 */
module FixedPoint {
  import opened Wrappers
  import opened BigInts
  import opened Powers
  import opened DecimalCore
  import opened Quotients
  import opened DecimalText
  import Fractions

  /** v × 10^k, one step of ten at a time. */
  ghost function Shifted(v: real, k: nat): real {
    if k == 0 then v else 10.0 * Shifted(v, k - 1)
  }

  /** v is x rounded half up to k decimal places: a whole number of 10^-k, the nearest one, halves going up. */
  ghost predicate RoundedAt(v: real, x: real, k: nat) {
    IsInt(Shifted(v, k)) && Shifted(v, k) <= Shifted(x, k) + 0.5 < Shifted(v, k) + 1.0
  }

  /** v is x rounded to k decimal places with halves going down: how a negative value comes out. */
  ghost predicate RoundedDownAt(v: real, x: real, k: nat) {
    IsInt(Shifted(v, k)) && Shifted(v, k) - 0.5 < Shifted(x, k) <= Shifted(v, k) + 0.5
  }

  /** `x.e(k).round().e(-k)` with the corrected `e`: x rounded half up to k places. */
  function RoundAtExact(x: Decimal, k: nat): (v: Decimal)
    ensures Canonical(v) && v.exponent + k >= 0
    ensures RoundedAt(Val(v), Val(x), k)
    ensures x.mantissa >= 0 ==> v.mantissa >= 0
  {
    var y := EExact(x, k);
    var z := Round(y);
    var v := EExact(z, -(k as int));
    RoundedValue(x, k, y, z, v);
    RoundedSign(x, k, y, z, v);
    v
  }

  lemma RoundedValue(x: Decimal, k: nat, y: Decimal, z: Decimal, v: Decimal)
    requires y == EExact(x, k) && z == Round(y) && v == EExact(z, -(k as int))
    ensures RoundedAt(Val(v), Val(x), k)
  {
    ShiftUp(x, k);
    ShiftBack(z, k);
    IsIntegerIff(z);
    RoundedAtIntro(Val(v), Val(x), Val(y), Val(z), k);
  }

  lemma RoundedSign(x: Decimal, k: nat, y: Decimal, z: Decimal, v: Decimal)
    requires y == EExact(x, k) && z == Round(y) && v == EExact(z, -(k as int))
    ensures v.exponent + k >= 0
    ensures x.mantissa >= 0 ==> v.mantissa >= 0
  {
    ShiftSign(x, k, y);
    RoundSign(y);
    ShiftSign(z, -(k as int), v);
    ShiftExponent(z, k);
  }

  /** Moving the point keeps the sign of the mantissa. */
  lemma ShiftSign(x: Decimal, k: int, r: Decimal)
    requires r == Make(x.mantissa, x.exponent + k)
    ensures x.mantissa >= 0 ==> r.mantissa >= 0
  {
    MakeSign(x.mantissa, x.exponent + k);
  }

  /** Rounding a value that is not negative keeps it not negative. */
  lemma RoundSign(y: Decimal)
    ensures y.mantissa >= 0 ==> Round(y).mantissa >= 0
  {
    var z := Round(y);
    RoundNonNegative(y, z);
  }

  /** An integer moved k places left has at most k places. */
  lemma ShiftExponent(z: Decimal, k: nat)
    requires IsInteger(z)
    ensures EExact(z, -(k as int)).exponent + k >= 0
  {
    MakeSign(z.mantissa, z.exponent + -(k as int));
  }

  /** Rounding a value that is not negative gives a mantissa that is not negative. */
  lemma RoundNonNegative(y: Decimal, z: Decimal)
    requires IsInteger(z) && Val(z) + 1.0 > Val(y) + 0.5
    ensures y.mantissa >= 0 ==> z.mantissa >= 0
  {
    ValSign(y);
    ScaleNat(z.mantissa, z.exponent);
    PositiveFactor(z.mantissa, Pow10(z.exponent));
  }

  /** Moving the point k places right multiplies the value by 10^k. */
  lemma ShiftUp(x: Decimal, k: nat)
    ensures Val(EExact(x, k)) == Shifted(Val(x), k)
  {
    ScaleShifted(x.mantissa, x.exponent, k);
  }

  /** Moving the point k places left and multiplying by 10^k gives the value back. */
  lemma ShiftBack(z: Decimal, k: nat)
    ensures Shifted(Val(EExact(z, -(k as int))), k) == Val(z)
  {
    var e := z.exponent - k;
    assert Val(EExact(z, -(k as int))) == Scale(z.mantissa, e);
    ScaleShifted(z.mantissa, e, k);
    assert e + k == z.exponent;
  }

  lemma {:induction false} ScaleShifted(m: int, e: int, k: nat)
    ensures Shifted(Scale(m, e), k) == Scale(m, e + k)
  {
    if k > 0 {
      ScaleShifted(m, e, k - 1);
      ScaleSucc(m, e + k - 1);
    }
  }

  lemma RoundedAtIntro(v: real, x: real, y: real, z: real, k: nat)
    requires y == Shifted(x, k) && z == Shifted(v, k)
    requires IsInt(z) && z <= y + 0.5 < z + 1.0
    ensures RoundedAt(v, x, k)
  {
  }

  /** `this.e(precision).round().e(-precision)` as written: the as-written `e` rounds at Clamp(p) places. */
  function RoundAt(x: Decimal, p: nat): (v: Decimal)
    ensures v == RoundAtExact(x, Clamp(p))
  {
    var z := Round(E(x, p));
    assert E(x, p) == EExact(x, Clamp(p));
    assert E(z, -(p as int)) == EExact(z, -Clamp(p));
    E(z, -(p as int))
  }

  /** The text `toFixed` prints for an already rounded value (Decimal.ts:221-226). */
  function FixedDigits(v: Decimal, p: nat): string {
    if v.exponent >= 0 then
      var result := IntToString(v.mantissa) + Repeat('0', v.exponent);
      if p > 0 then result + "." + Repeat('0', p) else result
    else
      var digits := PadStart(IntToString(v.mantissa), -v.exponent + 1, '0');
      Slice(digits, 0, v.exponent) + "." + PadEnd(SliceFrom(digits, v.exponent), p, '0')
  }

  /** Digits only when p is 0; otherwise digits, a point and exactly p digits. */
  predicate FixedFormat(t: string, p: nat) {
    |t| >= 1 &&
    (p == 0 ==> InRadix(t, 10)) &&
    (p > 0 ==> |t| > p + 1 && t[|t| - p - 1] == '.' && InRadix(t[..|t| - p - 1], 10) && InRadix(t[|t| - p..], 10))
  }

  /** `toFixed` as written. */
  function ToFixed(x: Decimal, precision: int): (r: Result<string>)
    ensures r.Ok? <==> precision >= 0
    ensures r.Err? ==> r.error == InvalidPrecision
    decreases if x.mantissa < 0 then 1 else 0
  {
    if precision < 0 then
      Err(InvalidPrecision)
    else if Lt0(x) then
      MakeSign(-x.mantissa, x.exponent);
      var t := ToFixed(Neg(x), precision);
      if t.Err? then t else Ok("-" + t.value)
    else
      Ok(FixedDigits(RoundAt(x, precision), precision))
  }

  /** `toFixed` with the corrected `e`. */
  function ToFixedExact(x: Decimal, precision: int): (r: Result<string>)
    ensures r.Ok? <==> precision >= 0
    ensures r.Err? ==> r.error == InvalidPrecision
    decreases if x.mantissa < 0 then 1 else 0
  {
    if precision < 0 then
      Err(InvalidPrecision)
    else if Lt0(x) then
      MakeSign(-x.mantissa, x.exponent);
      var t := ToFixedExact(Neg(x), precision);
      if t.Err? then t else Ok("-" + t.value)
    else
      Ok(FixedDigits(RoundAtExact(x, precision), precision))
  }

  // ---------------------------------------------------------------------
  // Reading back what toFixed prints

  /** The pointed text of a rounded value: its integer part, and p fraction digits that read as m × 10^k. */
  lemma FixedParts(v: Decimal, p: nat, k: nat) returns (a: string, b: string)
    requires v.mantissa >= 0 && k == p + v.exponent && p > 0
    ensures FixedDigits(v, p) == a + "." + b
    ensures |a| >= 1 && |b| == p && InRadix(a, 10) && InRadix(b, 10)
    ensures InRadix(a + b, 10) && ParseRadix(a + b, 10) == v.mantissa * Pow10(k)
  {
    if v.exponent >= 0 {
      a, b := WholeParts(v.mantissa, v.exponent, p, k);
    } else {
      a, b := PointedParts(v.mantissa, v.exponent, p, k);
    }
  }

  lemma WholeParts(m: nat, e: nat, p: nat, k: nat) returns (a: string, b: string)
    requires p > 0 && k == p + e
    ensures FixedDigits(Decimal(m, e), p) == a + "." + b
    ensures |a| >= 1 && |b| == p && InRadix(a, 10) && InRadix(b, 10)
    ensures InRadix(a + b, 10) && ParseRadix(a + b, 10) == m * Pow10(k)
  {
    a, b := NatDigits(m) + Repeat('0', e), Repeat('0', p);
    ParseWithZeros(m, e);
    ParseZeros(p);
    ParseAppend(a, b);
    TimesPowers(m, e, p, k);
  }

  lemma TimesPowers(m: int, e: nat, p: nat, k: nat)
    requires k == p + e
    ensures m * Pow10(e) * Pow10(p) == m * Pow10(k)
  {
    Pow10Add(e, p);
    var x, y := Pow10(e), Pow10(p);
    MulAssoc(m, x, y);
  }

  lemma MulAssoc(a: int, b: int, c: int)
    ensures a * b * c == a * (b * c)
  {
  }

  lemma PointedParts(m: nat, e: int, p: nat, k: nat) returns (a: string, b: string)
    requires e < 0 && k == p + e
    ensures FixedDigits(Decimal(m, e), p) == a + "." + b
    ensures |a| >= 1 && |b| == p && InRadix(a, 10) && InRadix(b, 10)
    ensures InRadix(a + b, 10) && ParseRadix(a + b, 10) == m * Pow10(k)
  {
    var digits := PadStart(NatDigits(m), -e + 1, '0');
    PaddedValue(m, -e + 1);
    PointedShape(digits, e);
    a := Slice(digits, 0, e);
    var b0 := SliceFrom(digits, e);
    b := PadEnd(b0, p, '0');
    PadEndValue(a, b0, p, k);
  }

  /** Zeros padded on the right of the fraction shift the numeral's value by 10^k. */
  lemma PadEndValue(a: string, b0: string, p: nat, k: nat)
    requires InRadix(a, 10) && InRadix(b0, 10) && |b0| + k == p
    ensures |PadEnd(b0, p, '0')| == p && InRadix(PadEnd(b0, p, '0'), 10)
    ensures InRadix(a + PadEnd(b0, p, '0'), 10)
    ensures ParseRadix(a + PadEnd(b0, p, '0'), 10) == ParseRadix(a + b0, 10) * Pow10(k)
  {
    var z := Repeat('0', k);
    var b := PadEnd(b0, p, '0');
    if k == 0 {
      assert b0 + z == b0;
    }
    assert b == b0 + z;
    ParseZeros(k);
    InRadixAppend(a, b0);
    InRadixAppend(b0, z);
    assert a + b == (a + b0) + z;
    ParseAppend(a + b0, z);
  }

  /** What `toFixed` prints for a rounded value has the promised format. */
  lemma FixedShape(v: Decimal, p: nat)
    requires v.mantissa >= 0 && v.exponent + p >= 0
    ensures FixedFormat(FixedDigits(v, p), p)
  {
    if p == 0 {
      ParseWithZeros(v.mantissa, v.exponent);
    } else {
      var a, b := FixedParts(v, p, p + v.exponent);
      PointedFormat(a, b, p);
    }
  }

  lemma PointedFormat(a: string, b: string, p: nat)
    requires |a| >= 1 && |b| == p && p > 0 && InRadix(a, 10) && InRadix(b, 10)
    ensures FixedFormat(a + "." + b, p)
  {
    var t := a + "." + b;
    assert t[..|a|] == a && t[|a|] == '.' && t[|a| + 1..] == b;
  }

  /** Shifting k digits from the exponent into the mantissa, after a sign, keeps the canonical form. */
  lemma ShiftedReading(negative: bool, m: nat, e: int, k: nat, n: nat, f: int)
    requires n == m * Pow10(k) && f == e - k
    ensures Make(Signed(negative, n), f) == Make(Signed(negative, m), e)
  {
    SignedTimes(negative, m, Pow10(k), n);
    MakeShift(Signed(negative, m), k, e);
  }

  lemma SignedTimes(negative: bool, m: nat, p: nat, n: nat)
    requires n == m * p
    ensures Signed(negative, n) == Signed(negative, m) * p
  {
    if negative {
      assert -(n as int) == (-(m as int)) * p;
    }
  }

  /** What `toFixed` prints for a rounded value, after an optional minus sign, reads back as that value. */
  lemma FixedRoundTrip(v: Decimal, p: nat, negative: bool)
    requires v.mantissa >= 0 && v.exponent + p >= 0
    ensures FromString(SignText(negative) + FixedDigits(v, p)) == Ok(Make(Signed(negative, v.mantissa), v.exponent))
  {
    if p == 0 {
      WholeRoundTrip(v.mantissa, v.exponent, negative);
    } else {
      PointedFixedRoundTrip(v, p, negative);
    }
  }

  lemma PointedFixedRoundTrip(v: Decimal, p: nat, negative: bool)
    requires v.mantissa >= 0 && v.exponent + p >= 0 && p > 0
    ensures FromString(SignText(negative) + FixedDigits(v, p)) == Ok(Make(Signed(negative, v.mantissa), v.exponent))
  {
    var a, b := PointedText(v, p, negative);
    PointShape(negative, a, b);
    ReadBack(SignText(negative) + FixedDigits(v, p), SignText(negative) + (a + "." + b),
      Make(Signed(negative, ParseRadix(a + b, 10)), -|b|), Make(Signed(negative, v.mantissa), v.exponent));
  }

  /** The pointed text split at its point, and the value its digits spell. */
  lemma PointedText(v: Decimal, p: nat, negative: bool) returns (a: string, b: string)
    requires v.mantissa >= 0 && v.exponent + p >= 0 && p > 0
    ensures |a| >= 1 && |b| >= 1 && InRadix(a, 10) && InRadix(b, 10) && InRadix(a + b, 10)
    ensures SignText(negative) + FixedDigits(v, p) == SignText(negative) + (a + "." + b)
    ensures Make(Signed(negative, ParseRadix(a + b, 10)), -|b|) == Make(Signed(negative, v.mantissa), v.exponent)
  {
    var k: nat := p + v.exponent;
    a, b := FixedParts(v, p, k);
    ShiftedReading(negative, v.mantissa, v.exponent, k, ParseRadix(a + b, 10), -|b|);
  }

  /** Equal texts read back as equal values. */
  lemma ReadBack(s: string, t: string, r: Decimal, w: Decimal)
    requires s == t && FromString(t) == Ok(r) && r == w
    ensures FromString(s) == Ok(w)
  {
  }

  /** The text for a rounded value that is not negative reads back as that value, in the promised format. */
  lemma NonNegativeFixed(x: Decimal, w: Decimal, p: nat, k: nat, t: string)
    requires Canonical(w) && w.mantissa >= 0 && w.exponent + k >= 0 && k <= p
    requires RoundedAt(Val(w), Val(x), k) && t == FixedDigits(w, p)
    ensures FromString(t).Ok? && RoundedAt(Val(FromString(t).value), Val(x), k)
    ensures t == SignText(false) + t && FixedFormat(t, p)
  {
    Unsigned(t);
    FixedShape(w, p);
    FixedRoundTrip(w, p, false);
    MakeCanonical(w);
  }

  lemma Unsigned(t: string)
    ensures SignText(false) + t == t
  {
    assert SignText(false) == "";
  }

  /** A text that reads back as the negation of w, y rounded, reads as x rounded with halves going down. */
  lemma NegativeFixed(x: Decimal, y: Decimal, w: Decimal, k: nat, t: string, r: Decimal)
    requires Val(y) == -Val(x) && RoundedAt(Val(w), Val(y), k)
    requires FromString(t) == Ok(r) && r == Make(-w.mantissa, w.exponent)
    ensures FromString(t).Ok? && RoundedDownAt(Val(FromString(t).value), Val(x), k)
  {
    NegativeValue(x, y, w, r, k);
  }

  /** The text for a negative value is a minus sign, then the text for its negation rounded. */
  lemma NegativeFormat(w: Decimal, p: nat, k: nat, t: string, u: string)
    requires w.mantissa >= 0 && w.exponent + k >= 0 && k <= p
    requires u == FixedDigits(w, p) && t == "-" + u
    ensures t == SignText(true) + u && FixedFormat(u, p)
  {
    FixedShape(w, p);
    Minus(u);
  }

  lemma NegativeText(w: Decimal, p: nat, t: string)
    requires w.mantissa >= 0 && w.exponent + p >= 0
    requires t == SignText(true) + FixedDigits(w, p)
    ensures FromString(t) == Ok(Make(Signed(true, w.mantissa), w.exponent))
  {
    FixedRoundTrip(w, p, true);
  }

  lemma SignedNegative(m: nat, e: int)
    ensures Make(Signed(true, m), e) == Make(-(m as int), e)
  {
  }

  lemma Minus(u: string)
    ensures SignText(true) + u == "-" + u
  {
    assert SignText(true) == "-";
  }

  lemma NegativeValue(x: Decimal, y: Decimal, w: Decimal, r: Decimal, k: nat)
    requires Val(y) == -Val(x) && RoundedAt(Val(w), Val(y), k) && r == Make(-w.mantissa, w.exponent)
    ensures RoundedDownAt(Val(r), Val(x), k)
  {
    ScaleNeg(w.mantissa, w.exponent);
    RoundedMirror(Val(r), Val(x), Val(w), Val(y), k);
  }

  /** Rounding the negation half up and negating back rounds half down. */
  lemma RoundedMirror(v: real, x: real, w: real, y: real, k: nat)
    requires w == -v && y == -x && RoundedAt(w, y, k)
    ensures RoundedDownAt(v, x, k)
  {
    ShiftedNeg(v, k);
    ShiftedNeg(x, k);
    Fractions.IntNeg(Shifted(v, k));
  }

  lemma {:induction false} ShiftedNeg(v: real, k: nat)
    ensures Shifted(-v, k) == -Shifted(v, k)
  {
    if k > 0 {
      ShiftedNeg(v, k - 1);
    }
  }

  /** The negation of a negative value has a positive mantissa and the opposite value. */
  lemma NegatedNegative(x: Decimal)
    requires x.mantissa < 0
    ensures Neg(x).mantissa > 0 && Val(Neg(x)) == -Val(x)
  {
    MakeSign(-x.mantissa, x.exponent);
  }

  lemma ExactNegative(x: Decimal, p: nat)
    requires x.mantissa < 0
    ensures ToFixedExact(x, p) == Ok("-" + FixedDigits(RoundAtExact(Neg(x), p), p))
  {
    NegatedNegative(x);
  }

  lemma AsWrittenNegative(x: Decimal, p: nat)
    requires x.mantissa < 0
    ensures ToFixed(x, p) == Ok("-" + FixedDigits(RoundAtExact(Neg(x), Clamp(p)), p))
  {
    NegatedNegative(x);
  }

  lemma RoundAtFacts(y: Decimal, k: nat, w: Decimal)
    requires y.mantissa >= 0 && w == RoundAtExact(y, k)
    ensures w.mantissa >= 0 && w.exponent + k >= 0 && RoundedAt(Val(w), Val(y), k)
  {
  }

  /** The corrected `toFixed`: sign, then x rounded half up to p places with exactly p digits after the point. */
  lemma ToFixedExactReads(x: Decimal, p: nat)
    ensures ToFixedExact(x, p).Ok?
    ensures var t := ToFixedExact(x, p).value;
      FromString(t).Ok? &&
      (x.mantissa >= 0 ==> RoundedAt(Val(FromString(t).value), Val(x), p)) &&
      (x.mantissa < 0 ==> RoundedDownAt(Val(FromString(t).value), Val(x), p))
    ensures var t := ToFixedExact(x, p).value;
      exists u :: t == SignText(x.mantissa < 0) + u && FixedFormat(u, p)
  {
    var t := ToFixedExact(x, p).value;
    if x.mantissa < 0 {
      NegatedNegative(x);
      ExactNegative(x, p);
      var w := RoundAtExact(Neg(x), p);
      RoundAtFacts(Neg(x), p, w);
      NegativeFormat(w, p, p, t, FixedDigits(w, p));
      NegativeText(w, p, t);
      SignedNegative(w.mantissa, w.exponent);
      NegativeFixed(x, Neg(x), w, p, t, Make(-w.mantissa, w.exponent));
    } else {
      NonNegativeFixed(x, RoundAtExact(x, p), p, p, t);
    }
  }

  /** `toFixed` as written: the same format, but the value is rounded at Clamp(p) places only. */
  lemma ToFixedReads(x: Decimal, p: nat)
    ensures ToFixed(x, p).Ok?
    ensures var t := ToFixed(x, p).value;
      FromString(t).Ok? &&
      (x.mantissa >= 0 ==> RoundedAt(Val(FromString(t).value), Val(x), Clamp(p))) &&
      (x.mantissa < 0 ==> RoundedDownAt(Val(FromString(t).value), Val(x), Clamp(p)))
    ensures var t := ToFixed(x, p).value;
      exists u :: t == SignText(x.mantissa < 0) + u && FixedFormat(u, p)
  {
    var t := ToFixed(x, p).value;
    if x.mantissa < 0 {
      NegatedNegative(x);
      AsWrittenNegative(x, p);
      var w := RoundAtExact(Neg(x), Clamp(p));
      RoundAtFacts(Neg(x), Clamp(p), w);
      NegativeFormat(w, p, Clamp(p), t, FixedDigits(w, p));
      NegativeText(w, p, t);
      SignedNegative(w.mantissa, w.exponent);
      NegativeFixed(x, Neg(x), w, Clamp(p), t, Make(-w.mantissa, w.exponent));
    } else {
      NonNegativeFixed(x, RoundAtExact(x, Clamp(p)), p, Clamp(p), t);
    }
  }

  /** Up to two places the as-written and the corrected `toFixed` agree. */
  lemma ToFixedAgrees(x: Decimal, p: int)
    requires p <= 2
    ensures ToFixed(x, p) == ToFixedExact(x, p)
  {
    if p >= 0 && x.mantissa < 0 {
      MakeSign(-x.mantissa, x.exponent);
    }
  }

  // ---------------------------------------------------------------------
  // Where the as-written toFixed goes wrong

  /** With three places, 1.2345 is rounded at two places as written (1.23) and at three when corrected (1.235). */
  lemma ToFixedCounterexample()
    ensures ToFixed(Decimal(12345, -4), 3) == Ok("1.230")
    ensures ToFixedExact(Decimal(12345, -4), 3) == Ok("1.235")
  {
    RoundedTwice();
    Printed();
  }

  lemma Printed()
    ensures FixedDigits(Decimal(123, -2), 3) == "1.230"
    ensures FixedDigits(Decimal(1235, -3), 3) == "1.235"
  {
    assert IntToString(123) == "123";
    assert IntToString(1235) == "1235";
  }

  lemma RoundedTwice()
    ensures RoundAt(Decimal(12345, -4), 3) == Decimal(123, -2)
    ensures RoundAtExact(Decimal(12345, -4), 3) == Decimal(1235, -3)
  {
    assert Make(12345, -2) == Decimal(12345, -2);
    assert Make(12345, -1) == Decimal(12345, -1);
    RoundsDown();
    RoundsUp();
    assert Make(123, -2) == Decimal(123, -2);
    assert Make(1235, -3) == Decimal(1235, -3);
  }

  /** 123.45 rounds to 123. */
  lemma RoundsDown()
    ensures Round(Decimal(12345, -2)) == Decimal(123, 0)
  {
    assert Make(5, -1) == Decimal(5, -1);
    assert Pow10(1) == 10;
    assert Make(12395, -2) == Decimal(12395, -2);
    assert Pow10(2) == 100;
    assert TDiv(12395, 100) == 123;
    assert Make(123, 0) == Decimal(123, 0);
  }

  /** 1234.5 rounds to 1235. */
  lemma RoundsUp()
    ensures Round(Decimal(12345, -1)) == Decimal(1235, 0)
  {
    assert Make(5, -1) == Decimal(5, -1);
    assert Pow10(0) == 1;
    assert Make(12350, -1) == Decimal(1235, 0);
    assert Add(Decimal(12345, -1), Decimal(5, -1)) == Decimal(1235, 0);
  }
}
