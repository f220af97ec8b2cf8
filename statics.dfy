/**
 * The static side of Decimal.ts (Decimal.ts:265-387): the constants, `from`
 * over the argument types it accepts, the reducers `add`, `sub`, `mul`,
 * `div`, `min` and `max`, which fold an accumulator over their arguments
 * with `Array.prototype.reduce`, and the static `gcd` loop.
 *
 * Every reducer converts each argument with `from` when it reaches it, so a
 * text that does not parse ends the fold with that failure, and so does a
 * failing `div`.
 */
module Statics {
  import opened Wrappers
  import opened BigInts
  import opened Powers
  import opened DecimalCore
  import opened Quotients
  import opened DecimalText

  // ---------------------------------------------------------------------
  // from (Decimal.ts:281-292)

  /** The arguments `from` accepts; JavaScript numbers are not part of this model. */
  datatype Operand = DecimalArg(d: Decimal) | BigIntArg(n: int) | StringArg(s: string)

  /** `Decimal.from`: a Decimal as it is, a BigInt through `fromBigInt`, a text through `fromString`. */
  function From(v: Operand): (r: Result<Decimal>)
    ensures v.DecimalArg? ==> r == Ok(v.d)
    ensures v.BigIntArg? ==> r.Ok? && Canonical(r.value) && IsInteger(r.value) && Val(r.value) == v.n as real
    ensures v.StringArg? ==> r == FromString(v.s)
    ensures v.StringArg? && r.Ok? ==> Canonical(r.value)
    ensures r.Err? ==> v.StringArg? && r.error == ParseFailure
  {
    match v
    case DecimalArg(d) => Ok(d)
    case BigIntArg(n) => Ok(FromBigInt(n))
    case StringArg(s) => FromString(s)
  }

  /** Convert every argument in order; the first that does not convert is the failure. */
  function Convert(values: seq<Operand>): (r: Result<seq<Decimal>>)
    ensures r.Ok? ==> |r.value| == |values|
    ensures r.Ok? ==> forall i :: 0 <= i < |values| ==> From(values[i]) == Ok(r.value[i])
    ensures (forall i :: 0 <= i < |values| ==> From(values[i]).Ok?) ==> r.Ok?
    ensures r.Err? ==> r.error == ParseFailure
  {
    if |values| == 0 then Ok([])
    else
      match Convert(values[..|values| - 1])
      case Err(e) => Err(e)
      case Ok(ds) =>
        match From(values[|values| - 1])
        case Err(e) => Err(e)
        case Ok(v) =>
          ConvertLast(values, ds, v, From);
          Ok(ds + [v])
  }

  /** Extending the converted prefix by the last converted argument, for any conversion f. */
  lemma ConvertLast(values: seq<Operand>, ds: seq<Decimal>, v: Decimal, f: Operand -> Result<Decimal>)
    requires |values| >= 1 && |ds| == |values| - 1
    requires forall i :: 0 <= i < |ds| ==> f(values[..|ds|][i]) == Ok(ds[i])
    requires f(values[|ds|]) == Ok(v)
    ensures forall i :: 0 <= i < |values| ==> f(values[i]) == Ok((ds + [v])[i])
  {
    forall i | 0 <= i < |values|
      ensures f(values[i]) == Ok((ds + [v])[i])
    {
      if i < |ds| {
        assert values[..|ds|][i] == values[i];
      }
    }
  }

  /** The sum of the values. */
  ghost function Total(ds: seq<Decimal>): real {
    if |ds| == 0 then 0.0 else Total(ds[..|ds| - 1]) + Val(ds[|ds| - 1])
  }

  /** The product of the values. */
  ghost function Product(ds: seq<Decimal>): real {
    if |ds| == 0 then 1.0 else Times(Product(ds[..|ds| - 1]), Val(ds[|ds| - 1]))
  }

  /** A product kept apart, so that unfolding Product does not bring real multiplication with it. */
  ghost function Times(p: real, v: real): real {
    p * v
  }

  // ---------------------------------------------------------------------
  // The left fold of Array.prototype.reduce

  /**
   * `values.reduce(step, start)` where each step first converts its
   * argument: the first failure, of a conversion or of a step, is the result.
   */
  function Fold(start: Result<Decimal>, values: seq<Operand>, step: (Decimal, Decimal) -> Result<Decimal>): Result<Decimal>
    decreases |values|
  {
    if |values| == 0 then start
    else
      match Fold(start, values[..|values| - 1], step)
      case Err(e) => Err(e)
      case Ok(acc) =>
        match From(values[|values| - 1])
        case Err(e) => Err(e)
        case Ok(v) => step(acc, v)
  }

  /** Once the fold of a prefix has failed, the whole fold fails the same way. */
  lemma {:induction false} FoldStuck(start: Result<Decimal>, values: seq<Operand>, step: (Decimal, Decimal) -> Result<Decimal>, i: nat, e: Error)
    requires i <= |values| && Fold(start, values[..i], step) == Err(e)
    ensures Fold(start, values, step) == Err(e)
    decreases |values| - i
  {
    if i < |values| {
      assert values[..i + 1][..i] == values[..i];
      FoldStuck(start, values, step, i + 1, e);
    } else {
      assert values[..i] == values;
    }
  }

  /** The loop inside `reduce`. */
  method ReduceLeft(start: Result<Decimal>, values: seq<Operand>, step: (Decimal, Decimal) -> Result<Decimal>) returns (r: Result<Decimal>)
    ensures r == Fold(start, values, step)
  {
    if start.Err? {
      assert values[..0] == [];
      FoldStuck(start, values, step, 0, start.error);
      return start;
    }
    var acc := start.value;
    var i := 0;
    while i < |values|
      invariant 0 <= i <= |values|
      invariant Fold(start, values[..i], step) == Ok(acc)
    {
      assert values[..i + 1][..i] == values[..i];
      var v := From(values[i]);
      if v.Err? {
        FoldStuck(start, values, step, i + 1, v.error);
        return Err(v.error);
      }
      var next := step(acc, v.value);
      if next.Err? {
        FoldStuck(start, values, step, i + 1, next.error);
        return next;
      }
      acc := next.value;
      i := i + 1;
    }
    assert values[..i] == values;
    return Ok(acc);
  }

  // ---------------------------------------------------------------------
  // The reducers (Decimal.ts:269-378)

  function AddStep(acc: Decimal, v: Decimal): Result<Decimal> {
    Ok(Add(acc, v))
  }

  function SubStep(acc: Decimal, v: Decimal): Result<Decimal> {
    Ok(Sub(acc, v))
  }

  function MulStep(acc: Decimal, v: Decimal): Result<Decimal> {
    Ok(Mul(acc, v))
  }

  function DivStep(acc: Decimal, v: Decimal): Result<Decimal> {
    Div(acc, v)
  }

  /** `max.lt(value) ? from(value) : max`: a later argument replaces only a strictly smaller one. */
  function MaxStep(acc: Decimal, v: Decimal): Result<Decimal> {
    if Lt(acc, v) then Ok(v) else Ok(acc)
  }

  /** `min.gt(value) ? from(value) : min`: a later argument replaces only a strictly larger one. */
  function MinStep(acc: Decimal, v: Decimal): Result<Decimal> {
    if Gt(acc, v) then Ok(v) else Ok(acc)
  }

  /** Static `add`: the sum from zero, failing only on an argument that does not convert. */
  method Sum(values: seq<Operand>) returns (r: Result<Decimal>)
    ensures r == Fold(Ok(Zero), values, AddStep)
    ensures r.Ok? <==> Convert(values).Ok?
    ensures r.Ok? ==> Canonical(r.value) && Val(r.value) == Total(Convert(values).value)
    ensures r.Err? ==> r.error == ParseFailure
  {
    r := ReduceLeft(Ok(Zero), values, AddStep);
    FoldConverted(Ok(Zero), values, AddStep);
    if Convert(values).Ok? {
      SumFold(Convert(values).value);
    }
  }

  /** Static `sub`: the base minus the sum of the rest. */
  method Difference(base: Decimal, values: seq<Operand>) returns (r: Result<Decimal>)
    ensures r == Fold(Ok(base), values, SubStep)
    ensures r.Ok? <==> Convert(values).Ok?
    ensures r.Ok? ==> Val(r.value) == Val(base) - Total(Convert(values).value)
    ensures r.Err? ==> r.error == ParseFailure
  {
    r := ReduceLeft(Ok(base), values, SubStep);
    FoldConverted(Ok(base), values, SubStep);
    if Convert(values).Ok? {
      DifferenceFold(base, Convert(values).value);
    }
  }

  /** Static `mul`: the product from one. */
  method Multiply(values: seq<Operand>) returns (r: Result<Decimal>)
    ensures r == Fold(Ok(One), values, MulStep)
    ensures r.Ok? <==> Convert(values).Ok?
    ensures r.Ok? ==> Canonical(r.value) && Val(r.value) == Product(Convert(values).value)
    ensures r.Err? ==> r.error == ParseFailure
  {
    r := ReduceLeft(Ok(One), values, MulStep);
    FoldConverted(Ok(One), values, MulStep);
    if Convert(values).Ok? {
      ProductFold(Convert(values).value);
    }
  }

  /** Static `div`: the base divided by each of the rest in turn; it succeeds only with exact quotients. */
  method Divide(base: Operand, values: seq<Operand>) returns (r: Result<Decimal>)
    ensures r == Fold(From(base), values, DivStep)
    ensures r.Ok? ==> From(base).Ok? && Convert(values).Ok?
    ensures r.Ok? ==> var p := Product(Convert(values).value);
      p != 0.0 && Times(Val(r.value), p) == Val(From(base).value)
  {
    r := ReduceLeft(From(base), values, DivStep);
    FoldConverted(From(base), values, DivStep);
    if r.Ok? {
      QuotientFold(From(base).value, Convert(values).value);
    }
  }

  /** Static `max`: the earliest of the largest arguments. */
  method Maximum(first: Operand, values: seq<Operand>) returns (r: Result<Decimal>)
    ensures r == Fold(From(first), values, MaxStep)
    ensures r.Ok? <==> From(first).Ok? && Convert(values).Ok?
    ensures r.Ok? ==> Earliest([From(first).value] + Convert(values).value, r.value, true)
  {
    r := ReduceLeft(From(first), values, MaxStep);
    FoldConverted(From(first), values, MaxStep);
    if From(first).Ok? && Convert(values).Ok? {
      ExtremeFold(From(first).value, Convert(values).value, true);
    }
  }

  /** Static `min`: the earliest of the smallest arguments. */
  method Minimum(first: Operand, values: seq<Operand>) returns (r: Result<Decimal>)
    ensures r == Fold(From(first), values, MinStep)
    ensures r.Ok? <==> From(first).Ok? && Convert(values).Ok?
    ensures r.Ok? ==> Earliest([From(first).value] + Convert(values).value, r.value, false)
  {
    r := ReduceLeft(From(first), values, MinStep);
    FoldConverted(From(first), values, MinStep);
    if From(first).Ok? && Convert(values).Ok? {
      ExtremeFold(From(first).value, Convert(values).value, false);
    }
  }

  // ---------------------------------------------------------------------
  // What the folds compute

  /** The same fold over arguments already converted. */
  function FoldDecimals(start: Decimal, ds: seq<Decimal>, step: (Decimal, Decimal) -> Result<Decimal>): Result<Decimal>
    decreases |ds|
  {
    if |ds| == 0 then Ok(start)
    else
      match FoldDecimals(start, ds[..|ds| - 1], step)
      case Err(e) => Err(e)
      case Ok(acc) => step(acc, ds[|ds| - 1])
  }

  /**
   * Converting as the fold goes is converting first: with a start and
   * arguments that all convert, the fold is the fold of the converted
   * values; an argument that does not convert makes the fold fail.
   */
  lemma {:induction false} FoldConverted(start: Result<Decimal>, values: seq<Operand>, step: (Decimal, Decimal) -> Result<Decimal>)
    ensures var r := Fold(start, values, step);
      (start.Err? ==> r == start) &&
      (start.Ok? && Convert(values).Ok? ==> r == FoldDecimals(start.value, Convert(values).value, step)) &&
      (Convert(values).Err? ==> r.Err?) &&
      (r.Err? ==> r == start || r.error == ParseFailure || exists a: Decimal, b: Decimal :: step(a, b) == r)
  {
    if |values| > 0 {
      var init := values[..|values| - 1];
      FoldConverted(start, init, step);
      var c := Convert(init);
      if c.Ok? && From(values[|values| - 1]).Ok? {
        var ds := c.value + [From(values[|values| - 1]).value];
        assert ds[..|ds| - 1] == c.value;
      }
    }
  }

  lemma {:induction false} SumFold(ds: seq<Decimal>)
    ensures var r := FoldDecimals(Zero, ds, AddStep);
      r.Ok? && Canonical(r.value) && Val(r.value) == Total(ds)
  {
    if |ds| == 0 {
      ConstantValues();
    } else {
      SumFold(ds[..|ds| - 1]);
    }
  }

  lemma {:induction false} DifferenceFold(base: Decimal, ds: seq<Decimal>)
    ensures var r := FoldDecimals(base, ds, SubStep);
      r.Ok? && Val(r.value) == Val(base) - Total(ds)
  {
    if |ds| > 0 {
      DifferenceFold(base, ds[..|ds| - 1]);
    }
  }

  lemma {:induction false} ProductFold(ds: seq<Decimal>)
    ensures var r := FoldDecimals(One, ds, MulStep);
      r.Ok? && Canonical(r.value) && Val(r.value) == Product(ds)
  {
    if |ds| == 0 {
      ConstantValues();
    } else {
      var n := |ds| - 1;
      ProductFold(ds[..n]);
      var acc := FoldDecimals(One, ds[..n], MulStep).value;
      assert FoldDecimals(One, ds, MulStep) == Ok(Mul(acc, ds[n]));
      ProductStep(acc, ds[n]);
    }
  }

  /** One more factor: Mul multiplies the values. */
  lemma ProductStep(acc: Decimal, v: Decimal)
    ensures Canonical(Mul(acc, v)) && Val(Mul(acc, v)) == Times(Val(acc), Val(v))
  {
  }

  lemma {:induction false} QuotientFold(base: Decimal, ds: seq<Decimal>)
    ensures var r := FoldDecimals(base, ds, DivStep);
      r.Ok? ==> Product(ds) != 0.0 && Times(Val(r.value), Product(ds)) == Val(base)
  {
    if |ds| > 0 {
      var n := |ds| - 1;
      QuotientFold(base, ds[..n]);
      var prev := FoldDecimals(base, ds[..n], DivStep);
      if prev.Ok? {
        assert FoldDecimals(base, ds, DivStep) == Div(prev.value, ds[n]);
        var r := Div(prev.value, ds[n]);
        if r.Ok? {
          QuotientStep(Val(r.value), Val(prev.value), Val(ds[n]), Product(ds[..n]), Product(ds), Val(base));
        }
      }
    }
  }

  lemma QuotientStep(q: real, acc: real, v: real, p: real, pv: real, b: real)
    requires v != 0.0 && q == acc / v && p != 0.0 && Times(acc, p) == b && pv == Times(p, v)
    ensures pv != 0.0 && Times(q, pv) == b
  {
    assert q * v == acc;
  }

  /**
   * m is the earliest largest (or, with largest false, smallest) of the
   * values: one of them, on its side of every value and strictly beyond
   * every value before it.
   */
  ghost predicate Earliest(ds: seq<Decimal>, m: Decimal, largest: bool) {
    exists j :: 0 <= j < |ds| && ds[j] == m && EarliestAt(ds, m, largest, j)
  }

  ghost predicate EarliestAt(ds: seq<Decimal>, m: Decimal, largest: bool, j: int) {
    (forall i :: 0 <= i < |ds| ==> Beyond(Val(m), Val(ds[i]), largest, false)) &&
    (forall i :: 0 <= i < j && i < |ds| ==> Beyond(Val(m), Val(ds[i]), largest, true))
  }

  /** m is on the winning side of v: above it when largest, below it otherwise; strictly or not. */
  ghost predicate Beyond(m: real, v: real, largest: bool, strict: bool) {
    if largest then (if strict then v < m else v <= m) else (if strict then m < v else m <= v)
  }

  lemma ExtremeFold(first: Decimal, ds: seq<Decimal>, largest: bool)
    ensures var r := FoldDecimals(first, ds, if largest then MaxStep else MinStep);
      r.Ok? && Earliest([first] + ds, r.value, largest)
  {
    var j := ExtremeIndex(first, ds, largest);
  }

  lemma {:induction false} ExtremeIndex(first: Decimal, ds: seq<Decimal>, largest: bool) returns (j: int)
    ensures var r := FoldDecimals(first, ds, if largest then MaxStep else MinStep);
      r.Ok? && 0 <= j <= |ds| && ([first] + ds)[j] == r.value && EarliestAt([first] + ds, r.value, largest, j)
  {
    var step := if largest then MaxStep else MinStep;
    var all := [first] + ds;
    if |ds| == 0 {
      j := 0;
    } else {
      var n := |ds| - 1;
      var init := ds[..n];
      var k := ExtremeIndex(first, init, largest);
      assert all[..n + 1] == [first] + init;
      var acc := FoldDecimals(first, init, step).value;
      var v := ds[n];
      var replaced := (largest && Lt(acc, v)) || (!largest && Gt(acc, v));
      j := if replaced then n + 1 else k;
      ExtendEarliest(all, acc, v, largest, k, replaced);
    }
  }

  /** One more value: it wins when strictly beyond the earliest extreme so far. */
  lemma ExtendEarliest(all: seq<Decimal>, acc: Decimal, v: Decimal, largest: bool, k: int, replaced: bool)
    requires |all| >= 2 && all[|all| - 1] == v
    requires 0 <= k < |all| - 1 && EarliestAt(all[..|all| - 1], acc, largest, k)
    requires replaced <==> Beyond(Val(v), Val(acc), largest, true)
    ensures EarliestAt(all, if replaced then v else acc, largest, if replaced then |all| - 1 else k)
  {
    var n := |all| - 1;
    var m := if replaced then v else acc;
    forall i | 0 <= i < |all|
      ensures Beyond(Val(m), Val(all[i]), largest, false)
    {
      if i < n {
        assert all[..n][i] == all[i];
      }
    }
    forall i | 0 <= i < (if replaced then n else k)
      ensures Beyond(Val(m), Val(all[i]), largest, true)
    {
      assert all[..n][i] == all[i];
    }
  }

  // ---------------------------------------------------------------------
  // Static gcd (Decimal.ts:380-387)

  /**
   * Static `gcd`: Euclid's loop on Decimals with `mod` for the remainder.
   * Over the common exponent of the two arguments it runs the BigInt loop
   * on their aligned mantissas, so its result is their Gcd at that exponent.
   */
  method StaticGcd(a0: Decimal, b0: Decimal) returns (g: Decimal)
    ensures var n := Normalize(a0, b0);
      Val(g) == Scale(Gcd(n.mantissa1, n.mantissa2), n.exponent)
    ensures Canonical(a0) && Canonical(b0) ==> var n := Normalize(a0, b0);
      g == Make(Gcd(n.mantissa1, n.mantissa2), n.exponent)
  {
    var n := Normalize(a0, b0);
    var e := n.exponent;
    var a, b := a0, b0;
    ghost var x, y := n.mantissa1, n.mantissa2;
    ScaleSign(y, e);
    while Neq0(b)
      invariant Val(a) == Scale(x, e) && Val(b) == Scale(y, e)
      invariant Val(b) != 0.0 <==> y != 0
      invariant Gcd(x, y) == Gcd(n.mantissa1, n.mantissa2)
      invariant Canonical(a0) && Canonical(b0) ==> Canonical(a) && Canonical(b)
      decreases BigInts.Abs(y)
    {
      var t := b;
      ModAt(a, b, x, y, e);
      b := Mod(a, b).value;
      a := t;
      x, y := y, TMod(x, y);
      ScaleSign(y, e);
    }
    g := a;
    if Canonical(a0) && Canonical(b0) {
      CanonicalUnique(g, Make(Gcd(n.mantissa1, n.mantissa2), e));
    }
  }

  /** `a.mod(b)` on values given at a common exponent is the BigInt remainder of their mantissas. */
  lemma ModAt(a: Decimal, b: Decimal, x: int, y: int, e: int)
    requires Val(a) == Scale(x, e) && Val(b) == Scale(y, e) && y != 0
    ensures Mod(a, b).Ok? && Val(Mod(a, b).value) == Scale(TMod(x, y), e)
  {
    var n := Normalize(a, b);
    ScaleSign(y, e);
    ScaleSign(n.mantissa2, n.exponent);
    assert Mod(a, b) == Ok(Make(TMod(n.mantissa1, n.mantissa2), n.exponent));
    AlignedRemainder(x, y, e, n.mantissa1, n.mantissa2, n.exponent);
  }

  /** The remainder does not depend on the exponent the two mantissas are aligned at. */
  lemma AlignedRemainder(x: int, y: int, e: int, m1: int, m2: int, f: int)
    requires Scale(x, e) == Scale(m1, f) && Scale(y, e) == Scale(m2, f) && y != 0 && m2 != 0
    ensures Scale(TMod(x, y), e) == Scale(TMod(m1, m2), f)
  {
    if e <= f {
      ScaleEqAligned(x, e, m1, f);
      ScaleEqAligned(y, e, m2, f);
      TModScale(m1, m2, Pow10(f - e));
      ScaleEqAligned(TMod(x, y), e, TMod(m1, m2), f);
    } else {
      ScaleEqAligned(m1, f, x, e);
      ScaleEqAligned(m2, f, y, e);
      TModScale(x, y, Pow10(e - f));
      ScaleEqAligned(TMod(m1, m2), f, TMod(x, y), e);
    }
  }

  /**
   * What static `gcd` returns is a common divisor of both arguments: read at
   * any exponent both are written at, each argument is a whole multiple of
   * the Gcd of their mantissas there.
   */
  lemma GcdCommonDivisor(a0: Decimal, b0: Decimal, x: int, y: int, e: int, m: int) returns (ka: int, kb: int)
    requires Val(a0) == Scale(x, e) && Val(b0) == Scale(y, e) && m == Gcd(x, y)
    ensures Val(a0) == Scale(m, e) * ka as real
    ensures Val(b0) == Scale(m, e) * kb as real
  {
    GcdDivides(x, y);
    ka := DividesElim(m, x);
    kb := DividesElim(m, y);
    ScaledMultiple(x, m, ka, e);
    ScaledMultiple(y, m, kb, e);
  }

  /** And every common divisor at that exponent divides it. */
  lemma GcdGreatestDivisor(a0: Decimal, b0: Decimal, x: int, y: int, e: int, m: int, d: int, ka: int, kb: int)
    requires Val(a0) == Scale(x, e) && Val(b0) == Scale(y, e) && m == Gcd(x, y)
    requires Val(a0) == Scale(d, e) * ka as real && Val(b0) == Scale(d, e) * kb as real
    ensures Divides(d, m)
  {
    MultipleDivides(x, d, ka, e);
    MultipleDivides(y, d, kb, e);
    GcdGreatest(x, y, d);
  }

  /** A mantissa k times m, read at an exponent, is k times m read there. */
  lemma ScaledMultiple(x: int, m: int, k: int, e: int)
    requires x == k * m
    ensures Scale(x, e) == Scale(m, e) * k as real
  {
    assert x == m * k;
    ScaleTimesInt(m, k, e);
  }

  /** A mantissa whose value is k times that of d at the same exponent is a multiple of d. */
  lemma MultipleDivides(x: int, d: int, k: int, e: int)
    requires Scale(x, e) == Scale(d, e) * k as real
    ensures Divides(d, x)
  {
    ScaleTimesInt(d, k, e);
    ScaleOrder(x, d * k, e);
    assert x == k * d;
    DividesIntro(d, x, k);
  }
}
