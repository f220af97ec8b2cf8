# Decimal: an exact decimal number type

This project models the `Decimal` class of `Decimal.ts` in Dafny and proves
what its operations compute. `Decimal.ts` is an arbitrary-precision decimal
type for TypeScript. A `Decimal` is an immutable pair of a `bigint` mantissa
and an integer exponent, and it denotes `mantissa × 10^exponent`. The
constructor keeps every value in canonical form: zero is `(0, 0)`, and a
nonzero mantissa has no trailing decimal zero. Every other operation builds
its result through that constructor.

The model's parts:

- `DecimalCore` (`decimal.dfy`) is the value type. It has:
  - the denotation `Val` as a real number, and `Canonical`;
  - the constructor, both as the function `Make` and as the loop method `New`;
  - `#normalize` and the arithmetic: add, sub, mul, neg and abs;
  - the comparisons and their zero forms, `sign` and `compare`;
  - floor, ceil, round and isInteger;
  - toBigInt and fromBigInt;
  - the truncating `mod` and `magnitude`.
- `BigInts` (`bigints.dfy`) holds the JavaScript `bigint` operators `/` and `%`, which truncate toward zero. It also holds the module-private `gcd` and its divisor and Bézout properties.
- `Powers` (`powers.dfy`) holds the real-valued powers of ten that `Val` is built on.
- `Fractions` (`fractions.dfy`) holds `toFraction` and `fromFraction`. `fromFraction` appears both as a function and as the two in-place factoring loops of the source.
- `Quotients` (`quotients.dfy`) holds `div`, `inv`, `pow` and `e`.
- `DecimalText` (`text.dfy`) holds `toString`, `fromString` (both patterns, including the `0x`/`0o`/`0b` literals `BigInt` accepts) and their round trip.
- `FixedPoint` (`fixed.dfy`) holds `toFixed`, its rounding and the reading back of its text.
- `Statics` (`statics.dfy`) holds `from`, the variadic reducers `add`, `sub`, `mul`, `div`, `max` and `min`, and the static `gcd` loop.

Failures that the source raises through `assert` or `RangeError`
return `Err(...)` here, with one error kind per cause:
- `ParseFailure`: unparseable text;
- `DivisionByZero`: a 0/0 fraction, and `mod` by a zero divisor (the `RangeError` of the bigint `%`);
- `NonTerminating`: a fraction with no finite decimal expansion;
- `NotAnInteger`: `toBigInt` of a non-integer;
- `InvalidPrecision`: a negative `toFixed` precision.

`Decimal.from` accepts a `Decimal`, a `bigint` or a string, modelled as
`Statics.Operand`. Each instance method that accepts such a union takes a
`Decimal` in the model. Calling one from a union is `Statics.From` followed
by the method, which is what the static reducers do.

Some descriptions of this library differ from its code. The model follows
the code:
- `mod` is the truncated remainder (the sign of the dividend), not a Euclidean one;
- `pow` sets the exponent to `exponent × 2` for every power above 1 (see Findings);
- `floor`, `ceil` and `round` take no precision argument, and `div` and `inv` take no significant-digits argument;
- `toFraction` reduces with a `gcd` that can return a negative divisor, so the denominator is positive when the mantissa is non-negative and possibly negative otherwise. Its sign follows the path of Euclid's loop: `gcd(-5, 10)` is `-5`, so `-0.5` becomes `1/-2`, while `-1.23` becomes `-123/100`;
- `toFixed` of a negative value rounds the magnitude half up, so negative halves go away from zero.

Floor and ceil are stated for canonical values, which the constructor
guarantees for every `Decimal` the library can hold. On a non-canonical
pair the source's `gte0` test would pick the wrong branch.

## Model

| member | source | states |
|---|---|---|
| DecimalCore.Make | Decimal.ts:16-29 | the constructor's result is canonical, denotes mantissa × 10^exponent, and never lowers the exponent of a nonzero mantissa |
| DecimalCore.New | Decimal.ts:16-29 | the constructor's loop of stripping trailing zeros yields exactly `Make` |
| DecimalCore.MakeSign | Decimal.ts:16-29 | the constructor keeps the mantissa's sign, and zero becomes (0, 0) |
| DecimalCore.CanonicalUnique | Decimal.ts:16-29 | two canonical values with the same real value are the same pair |
| DecimalCore.MakeCanonical | Decimal.ts:16-29 | the constructor leaves a canonical pair unchanged |
| DecimalCore.MakeRespectsValue | Decimal.ts:16-29 | two constructions are equal if and only if their inputs denote the same real |
| DecimalCore.ConstantValues | Decimal.ts:265-267 | minusOne, one and zero are canonical and denote -1, 1 and 0 |
| DecimalCore.Normalize | Decimal.ts:35-42 | both mantissas are re-expressed at the smaller exponent with their values unchanged |
| DecimalCore.Add | Decimal.ts:44-48 | the sum is canonical and denotes the real sum |
| DecimalCore.Sub | Decimal.ts:204-208 | the difference is canonical and denotes the real difference |
| DecimalCore.Mul | Decimal.ts:153-156 | the product is canonical and denotes the real product |
| DecimalCore.Neg | Decimal.ts:158-160 | the negation is canonical and denotes minus the value |
| DecimalCore.Abs | Decimal.ts:31-33 | the result denotes the absolute value, and is canonical for a canonical receiver |
| DecimalCore.CompareAligned | Decimal.ts:35-42 | comparing the aligned mantissas orders the real values |
| DecimalCore.Eq | Decimal.ts:69-73 | true if and only if the real values are equal |
| DecimalCore.Neq | Decimal.ts:162-164 | true if and only if the real values differ |
| DecimalCore.Gt | Decimal.ts:87-91 | true if and only if the first value is greater |
| DecimalCore.Gte | Decimal.ts:97-101 | true if and only if the first value is greater or equal |
| DecimalCore.Lt | Decimal.ts:115-119 | true if and only if the first value is smaller |
| DecimalCore.Lte | Decimal.ts:125-129 | true if and only if the first value is smaller or equal |
| DecimalCore.Eq0 | Decimal.ts:75-77 | true if and only if the value is zero |
| DecimalCore.Neq0 | Decimal.ts:166-168 | true if and only if the value is not zero |
| DecimalCore.Gt0 | Decimal.ts:93-95 | true if and only if the value is positive |
| DecimalCore.Gte0 | Decimal.ts:103-105 | true if and only if the value is not negative |
| DecimalCore.Lt0 | Decimal.ts:121-123 | true if and only if the value is negative |
| DecimalCore.Lte0 | Decimal.ts:131-133 | true if and only if the value is not positive |
| DecimalCore.EqIsIdentity | Decimal.ts:69-73 | on canonical values, eq holds exactly when the two pairs are identical |
| DecimalCore.Sign | Decimal.ts:190-198 | a canonical 1, -1 or 0 by the sign of the value |
| DecimalCore.Compare | Decimal.ts:200-202 | -1, 0 or 1 exactly when the first value is smaller, equal or greater |
| DecimalCore.TruncBounds | Decimal.ts:54 | dividing the mantissa by 10^-exponent truncates the value toward zero |
| DecimalCore.Floor | Decimal.ts:79-85 | an integer r with r ≤ x < r + 1, and x itself when x is already an integer |
| DecimalCore.Ceil | Decimal.ts:50-56 | an integer r with r - 1 < x ≤ r, and x itself when x is already an integer |
| DecimalCore.Round | Decimal.ts:186-188 | the nearest integer with halves rounded up: r ≤ x + 1/2 < r + 1 |
| DecimalCore.IsIntegerIff | Decimal.ts:111-113 | on canonical values, a non-negative exponent holds exactly when the value is a whole number |
| DecimalCore.ToBigInt | Decimal.ts:210-213 | succeeds exactly for integer values and returns that integer, otherwise NotAnInteger |
| DecimalCore.FromBigInt | Decimal.ts:322-324 | a canonical integer Decimal that denotes n |
| DecimalCore.BigIntRoundTrip | Decimal.ts:210-213 | toBigInt(fromBigInt(n)) is n |
| DecimalCore.IntegerRoundTrip | Decimal.ts:210-213 | fromBigInt(toBigInt(x)) is x for every canonical integer x |
| DecimalCore.Mod | Decimal.ts:148-151 | fails exactly on a zero divisor. Otherwise a - trunc(a/b)·b, smaller than the divisor in magnitude, with the sign of the dividend |
| DecimalCore.ModValue | Decimal.ts:148-151 | the remainder of the aligned mantissas denotes a - trunc(a/b)·b |
| DecimalCore.ModBounds | Decimal.ts:148-151 | the remainder is smaller than the divisor in magnitude and is zero or has the dividend's sign |
| DecimalCore.Magnitude | Decimal.ts:135-146 | -1 for the canonical zero. Otherwise the r with 10^r ≤ abs(x) < 10^(r+1) |
| DecimalCore.MagnitudeBounds | Decimal.ts:137-145 | a mantissa with k + 1 digits places the value between 10^(k+e) and 10^(k+e+1) |
| BigInts.TruncatedDivision | Decimal.ts:54 | `bigint` division and remainder recompose the dividend: a = TDiv(a,b)·b + TMod(a,b) |
| BigInts.TMod | Decimal.ts:6 | `bigint` remainder: smaller than the divisor in magnitude, and zero or of the dividend's sign |
| BigInts.ComputeGcd | Decimal.ts:3-10 | the loop of the module-private gcd returns the function Gcd |
| BigInts.GcdDivides | Decimal.ts:3-10 | gcd divides both arguments |
| BigInts.GcdGreatest | Decimal.ts:3-10 | every common divisor divides gcd |
| BigInts.Bezout | Decimal.ts:3-10 | gcd is an integer combination of the arguments |
| BigInts.GcdZero | Decimal.ts:3-10 | gcd is zero exactly when both arguments are |
| BigInts.GcdNonNegative | Decimal.ts:3-10 | gcd is non-negative when both arguments are |
| BigInts.GcdExample | Decimal.ts:3-10 | gcd(-5, 10) is -5: the result can be negative |
| Fractions.ToFraction | Decimal.ts:230-239 | a nonzero denominator, value-preserving and coprime, denominator 1 for a non-negative exponent, and positive for a non-negative mantissa |
| Fractions.ToFractionReduced | Decimal.ts:234-237 | dividing mantissa and 10^-exponent by their gcd keeps the value |
| Fractions.ToFractionCoprime | Decimal.ts:234-237 | the reduced numerator and denominator are coprime |
| Fractions.StripFactors | Decimal.ts:308-317 | dividing out p leaves a positive part that is not a multiple of p, times p^count |
| Fractions.FromFractionNonNeg | Decimal.ts:302-319 | for non-negative inputs, Ok exactly when d ≠ 0 and n/d has a finite expansion. Then the canonical Decimal n/d. Otherwise DivisionByZero exactly for 0/0, else NonTerminating |
| Fractions.Terminating | Decimal.ts:305-319 | when only 2s and 5s divide the reduced denominator, numerator × factor at the count of factors is n/d |
| Fractions.FiniteTerminates | Decimal.ts:318 | a fraction with a finite expansion always passes the assertion |
| Fractions.FromFraction | Decimal.ts:294-320 | Ok exactly when d ≠ 0 and n/d has a finite expansion. Then the canonical Decimal n/d. Otherwise DivisionByZero exactly for 0/0, else NonTerminating |
| Fractions.FromFractionLoop | Decimal.ts:294-320 | the statement-by-statement `fromFraction` (sign flips, recursion, loops) returns FromFraction |
| Fractions.FactorLoops | Decimal.ts:302-319 | gcd, the two factoring loops and the assertion return FromFractionNonNeg |
| Fractions.DivideOut | Decimal.ts:308-317 | one factoring loop removes every factor p, multiplies factor by q per step and lowers the exponent by the count |
| Quotients.Div | Decimal.ts:58-63 | Ok exactly when the divisor is nonzero and the quotient has a finite expansion. Then the exact quotient. Otherwise DivisionByZero exactly for 0/0, else NonTerminating |
| Quotients.Inv | Decimal.ts:107-109 | Ok exactly when 1/x exists and terminates. Then 1/x. Otherwise NonTerminating |
| Quotients.Pow | Decimal.ts:170-184 | as written: fails only through the inverse of a negative power. The value is x^n at least for 0 ≤ n ≤ 2 and for a receiver with exponent 0 (an integer with no trailing zero); for n < 0 it is (1/x)^-n at least for -2 ≤ n and for an inverse with exponent 0 |
| Quotients.RaisedMantissa | Decimal.ts:182 | the doubled exponent is right for squares and for a receiver with exponent 0 (an integer with no trailing zero) |
| Quotients.PowExact | Decimal.ts:170-184 | corrected: x^n for n ≥ 0, and (1/x)^-n when the inverse exists |
| Quotients.ScalePow | Decimal.ts:182 | (m × 10^e)^n is m^n × 10^(e·n) |
| Quotients.PowCounterexample | Decimal.ts:182 | 0.2.pow(3) is 0.08 as written, while the corrected pow gives 0.008 |
| Quotients.Clamp | Decimal.ts:170-184 | the exponent the as-written pow gives ten: k limited to -2 … 2 |
| Quotients.InvTen | Decimal.ts:107-109 | 1/10 is the canonical 0.1 |
| Quotients.PowTen | Decimal.ts:170-184 | as written, 10^k is 10^Clamp(k) |
| Quotients.PowExactTen | Decimal.ts:170-184 | corrected, 10^k is Make(1, k) for every k |
| Quotients.E | Decimal.ts:65-67 | as written, e(k) shifts the point by Clamp(k) places |
| Quotients.EExact | Decimal.ts:65-67 | corrected, e(k) shifts the point by k places |
| Quotients.ECounterexample | Decimal.ts:65-67 | one.e(3) is 100 as written and 1000 corrected |
| DecimalText.NatDigits | Decimal.ts:254 | `bigint.toString()` of a non-negative n: non-empty, all digits, no leading zero unless n is 0 |
| DecimalText.NatDigitsRoundTrip | Decimal.ts:254 | parsing the numeral of n gives n back |
| DecimalText.ParseRoundTrip | Decimal.ts:336 | a non-empty numeral with no leading zero is the numeral of its value |
| DecimalText.ToString | Decimal.ts:249-259 | non-empty, starts with '-' exactly for negative values, never uses exponent notation |
| DecimalText.PrefixRadix | Decimal.ts:335 | `x`, `o` and `b`, in either case, name radix 16, 8 and 2, each exactly; every other character names none |
| DecimalText.IntegerLiteral | Decimal.ts:335-336 | a decimal numeral with an optional '-' reads as its signed value |
| DecimalText.FromString | Decimal.ts:334-354 | a success is canonical, and a failure is ParseFailure; the value of each accepted shape is stated by IntegerShape, PointShape, ExponentShape and RadixShape |
| DecimalText.FromStringRejects | Decimal.ts:335-339 | every accepted text is non-empty, starts with '-' or a decimal digit, has a decimal digit after a leading '-', and ends with a hexadecimal digit; any other text fails |
| DecimalText.RejectedStarts | Decimal.ts:338-339 | "", "+1" and ".5" fail with ParseFailure |
| DecimalText.RejectedEnds | Decimal.ts:338-339 | "1.", "1e" and "-" fail with ParseFailure |
| DecimalText.IntegerShape | Decimal.ts:335-336 | an optional '-' and decimal digits read as that signed integer |
| DecimalText.PointShape | Decimal.ts:338-353 | `a.b` with an optional '-' reads as ±(ab) × 10^-length(b) |
| DecimalText.ExponentShape | Decimal.ts:338-353 | `a[.b]e[±]c` with an optional '-', and `E` for `e`, reads as ±(ab) × 10^(±c − length(b)) |
| DecimalText.ExponentExample | Decimal.ts:338-353 | `1.23e-2` reads as 123 at exponent -4 |
| DecimalText.RadixShape | Decimal.ts:335-336 | `0` then `x`, `o` or `b` in either case, then digits of radix 16, 8 or 2, reads as the integer those digits denote |
| DecimalText.RadixExample | Decimal.ts:335-336 | `0X1f` reads as 31 |
| DecimalText.ToStringRoundTrip | Decimal.ts:249-259 | fromString(toString(x)) is x for every canonical x |
| DecimalText.WholeRoundTrip | Decimal.ts:253-254 | digits followed by e zeros read back as the canonical ±m × 10^e |
| DecimalText.PointedRoundTrip | Decimal.ts:255-257 | the pointed text of m at exponent e < 0 reads back as ±m × 10^e |
| DecimalText.SliceSplit | Decimal.ts:257 | `slice(0, k)` and `slice(k)` put together give the string back; for -length ≤ k < 0, `slice(k)` has length -k |
| DecimalText.PadStartValue | Decimal.ts:256 | padding a numeral with zeros on the left keeps its value |
| FixedPoint.RoundAtExact | Decimal.ts:220 | corrected e: x rounded half up to k places, with at most k places |
| FixedPoint.RoundAt | Decimal.ts:220 | as written: the same as rounding at Clamp(p) places |
| FixedPoint.ToFixed | Decimal.ts:215-228 | as written: Ok exactly for a non-negative precision, otherwise InvalidPrecision |
| FixedPoint.ToFixedExact | Decimal.ts:215-228 | corrected: Ok exactly for a non-negative precision, otherwise InvalidPrecision |
| FixedPoint.FixedShape | Decimal.ts:221-227 | the printed digits have exactly p places after a point, or no point when p is 0 |
| FixedPoint.FixedRoundTrip | Decimal.ts:221-227 | the printed text of a rounded value, after an optional sign, parses back to that value |
| FixedPoint.ToFixedExactReads | Decimal.ts:215-228 | corrected: the text is a sign, digits and p places. It reads back as x rounded half up for x ≥ 0, and with halves away from zero for x < 0 |
| FixedPoint.ToFixedReads | Decimal.ts:215-228 | as written: the same format, with the value rounded at only Clamp(p) places |
| FixedPoint.ToFixedAgrees | Decimal.ts:220 | up to two places the as-written and corrected toFixed coincide |
| FixedPoint.ToFixedCounterexample | Decimal.ts:220 | 1.2345.toFixed(3) is "1.230" as written and "1.235" corrected |
| FixedPoint.RoundsDown | Decimal.ts:186-188 | round(123.45) is 123 |
| FixedPoint.RoundsUp | Decimal.ts:186-188 | round(1234.5) is 1235 |
| Statics.From | Decimal.ts:281-292 | a Decimal argument is returned as is; a bigint becomes that canonical integer; a string gives exactly fromString's result, which fails only with ParseFailure |
| Statics.Convert | Decimal.ts:269-272 | converting every argument succeeds exactly when each `from` does, element by element |
| Statics.FoldStuck | Decimal.ts:270-272 | once a step fails, the rest of the reduction keeps that failure |
| Statics.ReduceLeft | Decimal.ts:270-272 | the loop for `Array.prototype.reduce` returns the left fold of the steps |
| Statics.Sum | Decimal.ts:269-273 | Ok exactly when every argument converts. Then the canonical sum of all values. Otherwise ParseFailure |
| Statics.Difference | Decimal.ts:374-378 | Ok exactly when every argument converts. Then base minus the sum of the values. Otherwise ParseFailure |
| Statics.Multiply | Decimal.ts:368-372 | Ok exactly when every argument converts. Then the product of all values. Otherwise ParseFailure |
| Statics.Divide | Decimal.ts:275-279 | a success needs every argument converted. Its result times the product of the divisors is the base, and that product is nonzero |
| Statics.Maximum | Decimal.ts:356-360 | Ok exactly when all arguments convert. Then the first argument whose value is the greatest |
| Statics.Minimum | Decimal.ts:362-366 | Ok exactly when all arguments convert. Then the first argument whose value is the smallest |
| Statics.FoldConverted | Decimal.ts:269-378 | reducing over operands is reducing over their converted values, and fails exactly where a conversion or a step fails |
| Statics.SumFold | Decimal.ts:269-273 | the add fold from zero denotes the real sum |
| Statics.DifferenceFold | Decimal.ts:374-378 | the sub fold from base denotes base minus the real sum |
| Statics.ProductFold | Decimal.ts:368-372 | the mul fold from one denotes the real product |
| Statics.QuotientFold | Decimal.ts:275-279 | a successful div fold times the product of the divisors is the base |
| Statics.ExtremeFold | Decimal.ts:356-366 | the max (min) fold returns the first greatest (smallest) value |
| Statics.ExtremeIndex | Decimal.ts:356-366 | the fold's result sits at an index no earlier value beats and no later value exceeds |
| Statics.StaticGcd | Decimal.ts:380-387 | Euclid's loop with `mod` returns the gcd of the aligned mantissas at the common exponent; for canonical arguments it is that canonical pair |
| Statics.ModAt | Decimal.ts:383 | `mod` at a common scale is the truncated remainder of the scaled integers |
| Statics.GcdCommonDivisor | Decimal.ts:380-387 | both arguments are integer multiples of the static gcd |
| Statics.GcdGreatestDivisor | Decimal.ts:380-387 | every common divisor at that scale divides the gcd's mantissa |

## Left out

- `fromNumber`, `toNumber` and the `number` arms of `from` and of every operand union work with IEEE-754 doubles. Floating point is not modelled. `compare`'s `toNumber` of its sign is modelled as that sign's mantissa.
- `toJSON` and the inspection hook only forward to `toString`.
- Three integer checks depend only on the JavaScript number type, so they are not modelled. They are the constructor's check that the exponent is an integer (Decimal.ts:17), `pow`'s check that a `number` power is an integer (Decimal.ts:172), and the integer half of `toFixed`'s precision check (Decimal.ts:216; its `precision >= 0` half is modelled as `InvalidPrecision`). Exponents, powers and precisions are unbounded integers here. The `Number(...)` conversion of a parsed exponent is exact, and doubles' loss of precision on huge exponents is not modelled.
- The thrown exceptions of the assertion library, and the messages they carry, become `Err` values with one error kind per cause.
- DecimalText.FromString: the accepted texts are described by the four shapes above and by the necessary conditions of FromStringRejects, not by one if-and-only-if characterisation of both patterns.
- Statics.Divide: states the value of a success but not when the reduction succeeds. That is the condition that each successive quotient along the fold terminates.
- Quotients.Pow, Quotients.E, FixedPoint.ToFixed and FixedPoint.ToFixedReads: model the code as written, which is wrong for powers above 2 (see Findings). Their corrected versions carry the full property.
- DecimalCore.Floor and DecimalCore.Ceil: require a canonical argument, the state the constructor guarantees, instead of handling pairs no `Decimal` can hold.
- Decimal.test.ts, the test suite's harness and its `wrap` helper are not part of this model.

## Findings

| source | as written | input that shows it | evidently intended | confidence | as-written member | corrected member |
|---|---|---|---|---|---|---|
| Decimal.ts:182 | `pow` for n ≥ 2 sets the exponent to `exponent * 2` | `Decimal.from(0.2).pow(3)` gives 0.08 | exponent × n, giving 0.008 | high; not executed | Quotients.PowCounterexample | Quotients.PowExact |
| Decimal.ts:65-67 | `e(k)` multiplies by `new Decimal(10n).pow(k)`, which inherits the doubling | `Decimal.one.e(3)` gives 100 | a shift by k places, giving 1000 | high; not executed | Quotients.ECounterexample | Quotients.EExact |
| Decimal.ts:220 | `toFixed` rounds through `e(precision)`, so three or more places round at two | `new Decimal(12345n, -4).toFixed(3)` gives "1.230" | rounding at three places, giving "1.235" | high; not executed | FixedPoint.ToFixedCounterexample | FixedPoint.ToFixedExactReads |
