/**
 * Decimal.ts's text forms: `toString`, `toFixed` and `fromString`, with the
 * pieces of JavaScript string and BigInt behaviour they rely on (BigInt
 * `toString`, `BigInt(string)`, `padStart`, `padEnd`, `repeat` and
 * `slice` with negative indices) written out.
 */
module DecimalText {
  import opened Wrappers
  import opened BigInts
  import opened Powers
  import opened DecimalCore
  import opened Quotients

  // ---------------------------------------------------------------------
  // Digits and numerals

  /** The value of a digit in any radix up to 16; 36 for a character that is no digit. */
  function DigitValue(c: char): (v: nat)
    ensures v < 16 || v == 36
  {
    if '0' <= c <= '9' then c as int - '0' as int
    else if 'a' <= c <= 'f' then c as int - 'a' as int + 10
    else if 'A' <= c <= 'F' then c as int - 'A' as int + 10
    else 36
  }

  /** Every character of s is a digit of the radix. */
  predicate InRadix(s: string, radix: nat) {
    forall i :: 0 <= i < |s| ==> DigitValue(s[i]) < radix
  }

  /** The decimal digit character for d. */
  function DigitChar(d: nat): (c: char)
    requires d < 10
    ensures DigitValue(c) == d
  {
    ('0' as int + d) as char
  }

  /** The number a numeral spells, most significant digit first (`BigInt(string)` on the digits). */
  function ParseRadix(s: string, radix: nat): nat
    requires InRadix(s, radix)
  {
    if |s| == 0 then 0 else ParseRadix(s[..|s| - 1], radix) * radix + DigitValue(s[|s| - 1])
  }

  /** BigInt `toString` of a non-negative number: its decimal digits. */
  function NatDigits(n: nat): (s: string)
    ensures |s| >= 1 && InRadix(s, 10)
    ensures s[0] == '0' ==> n == 0
    decreases n
  {
    if n < 10 then [DigitChar(n)] else NatDigits(n / 10) + [DigitChar(n % 10)]
  }

  /** BigInt `toString`: a minus sign, then the digits of the magnitude. */
  function IntToString(n: int): (s: string)
    ensures n >= 0 ==> s == NatDigits(n)
    ensures n < 0 ==> s == "-" + NatDigits(-n)
  {
    if n < 0 then "-" + NatDigits(-n) else NatDigits(n)
  }

  /** Printing then reading back a number gives it back. */
  lemma {:induction false} NatDigitsRoundTrip(n: nat)
    ensures ParseRadix(NatDigits(n), 10) == n
    decreases n
  {
    if n >= 10 {
      NatDigitsRoundTrip(n / 10);
      var s := NatDigits(n);
      assert s[..|s| - 1] == NatDigits(n / 10);
    }
  }

  /** Reading then printing a numeral without a leading zero gives it back. */
  lemma {:induction false} ParseRoundTrip(s: string)
    requires |s| >= 1 && InRadix(s, 10) && (s[0] == '0' ==> |s| == 1)
    ensures NatDigits(ParseRadix(s, 10)) == s
    decreases |s|
  {
    var init, last := s[..|s| - 1], s[|s| - 1];
    if |s| > 1 {
      assert init[0] == s[0];
      ParseRoundTrip(init);
      ParseLeading(init);
      var n := ParseRadix(s, 10);
      assert n / 10 == ParseRadix(init, 10) && n % 10 == DigitValue(last);
      CharOfDigit(last);
      assert s == init + [last];
    } else {
      CharOfDigit(last);
      assert s == [last];
    }
  }

  lemma CharOfDigit(c: char)
    requires DigitValue(c) < 10
    ensures DigitChar(DigitValue(c)) == c
  {
  }

  /** A numeral of at least two digits that does not start with 0 spells at least 10. */
  lemma {:induction false} ParseLeading(s: string)
    requires |s| >= 1 && InRadix(s, 10) && s[0] != '0'
    ensures ParseRadix(s, 10) >= 1
    decreases |s|
  {
    if |s| > 1 {
      var init := s[..|s| - 1];
      assert init[0] == s[0];
      ParseLeading(init);
    }
  }

  /** Reading a concatenation: the first part is shifted left by the length of the second. */
  lemma {:induction false} ParseAppend(a: string, b: string)
    requires InRadix(a, 10) && InRadix(b, 10)
    ensures InRadix(a + b, 10)
    ensures ParseRadix(a + b, 10) == ParseRadix(a, 10) * Pow10(|b|) + ParseRadix(b, 10)
    decreases |b|
  {
    if |b| > 0 {
      var b0, last := b[..|b| - 1], b[|b| - 1];
      assert (a + b)[..|a + b| - 1] == a + b0;
      ParseAppend(a, b0);
      ShiftStep(ParseRadix(a, 10), Pow10(|b0|), ParseRadix(b0, 10), DigitValue(last));
    } else {
      assert a + b == a;
    }
  }

  lemma ShiftStep(pa: int, x: int, pb: int, d: int)
    ensures (pa * x + pb) * 10 + d == pa * (10 * x) + (pb * 10 + d)
  {
  }

  // ---------------------------------------------------------------------
  // JavaScript string helpers

  /** `c.repeat(n)`. */
  function Repeat(c: char, n: nat): (s: string)
    ensures |s| == n && forall i :: 0 <= i < n ==> s[i] == c
  {
    seq(n, i => c)
  }

  /** A run of zeros reads as zero. */
  lemma {:induction false} ParseZeros(n: nat)
    ensures InRadix(Repeat('0', n), 10) && ParseRadix(Repeat('0', n), 10) == 0
  {
    if n > 0 {
      assert Repeat('0', n)[..n - 1] == Repeat('0', n - 1);
      ParseZeros(n - 1);
    }
  }

  /** `s.padStart(length, c)`. */
  function PadStart(s: string, length: int, c: char): string {
    if |s| >= length then s else Repeat(c, length - |s|) + s
  }

  /** `s.padEnd(length, c)`. */
  function PadEnd(s: string, length: int, c: char): string {
    if |s| >= length then s else s + Repeat(c, length - |s|)
  }

  /** Where a `slice` argument lands in a string of length n: negative indices count from the end. */
  function SliceIndex(i: int, n: nat): (k: nat)
    ensures k <= n
    ensures 0 <= i <= n ==> k == i
    ensures -(n as int) <= i < 0 ==> k == n + i
  {
    if i < 0 then (if n + i < 0 then 0 else n + i) else if i > n then n else i
  }

  /** `s.slice(start, end)`. */
  function Slice(s: string, start: int, end: int): string {
    var a, b := SliceIndex(start, |s|), SliceIndex(end, |s|);
    if a < b then s[a..b] else ""
  }

  /** `s.slice(start)`. */
  function SliceFrom(s: string, start: int): string {
    s[SliceIndex(start, |s|)..]
  }

  /** `s.slice(0, k)` and `s.slice(k)` split s in two at the same place, for any k. */
  lemma SliceSplit(s: string, k: int)
    ensures Slice(s, 0, k) + SliceFrom(s, k) == s
    ensures |SliceFrom(s, k)| == if -|s| <= k < 0 then -k else if k < 0 then |s| else if k <= |s| then |s| - k else 0
  {
  }

  lemma InRadixAppend(a: string, b: string)
    requires InRadix(a, 10) && InRadix(b, 10)
    ensures InRadix(a + b, 10)
  {
  }

  /** The digits of m padded on the left read as m. */
  lemma PaddedValue(m: nat, length: int)
    ensures InRadix(PadStart(NatDigits(m), length, '0'), 10)
    ensures ParseRadix(PadStart(NatDigits(m), length, '0'), 10) == m
    ensures |PadStart(NatDigits(m), length, '0')| >= length
  {
    NatDigitsRoundTrip(m);
    PadStartValue(NatDigits(m), length);
  }

  /** Zeros padded on the left do not change what a numeral reads. */
  lemma PadStartValue(s: string, length: int)
    requires InRadix(s, 10)
    ensures InRadix(PadStart(s, length, '0'), 10)
    ensures ParseRadix(PadStart(s, length, '0'), 10) == ParseRadix(s, 10)
  {
    if |s| < length {
      ParseZeros(length - |s|);
      ParseAppend(Repeat('0', length - |s|), s);
    }
  }

  // ---------------------------------------------------------------------
  // toString (Decimal.ts:249-259)

  /** `toString`: the digits, with trailing zeros for a positive exponent or a decimal point for a negative one. */
  function ToString(x: Decimal): (s: string)
    ensures |s| >= 1
    ensures s[0] == '-' <==> x.mantissa < 0
    ensures forall i :: 0 <= i < |s| ==> s[i] != 'e' && s[i] != 'E'
    decreases if x.mantissa < 0 then 1 else 0
  {
    if Lt0(x) then
      MakeSign(-x.mantissa, x.exponent);
      "-" + ToString(Neg(x))
    else if x.exponent >= 0 then
      ParseZeros(x.exponent);
      PlainText(IntToString(x.mantissa) + Repeat('0', x.exponent));
      IntToString(x.mantissa) + Repeat('0', x.exponent)
    else
      var digits := PadStart(IntToString(x.mantissa), -x.exponent + 1, '0');
      PointedShape(digits, x.exponent);
      PointedText(Slice(digits, 0, x.exponent), SliceFrom(digits, x.exponent));
      Slice(digits, 0, x.exponent) + "." + SliceFrom(digits, x.exponent)
  }

  /** A numeral holds no sign and no exponent marker. */
  lemma PlainText(s: string)
    requires |s| >= 1 && InRadix(s, 10)
    ensures s[0] != '-'
    ensures forall i :: 0 <= i < |s| ==> s[i] != 'e' && s[i] != 'E'
  {
    assert DigitValue(s[0]) < 10;
  }

  /** Two numerals around a point hold no sign and no exponent marker. */
  lemma PointedText(a: string, b: string)
    requires |a| >= 1 && InRadix(a, 10) && InRadix(b, 10)
    ensures (a + "." + b)[0] != '-'
    ensures forall i :: 0 <= i < |a + "." + b| ==> (a + "." + b)[i] != 'e' && (a + "." + b)[i] != 'E'
  {
    PlainText(a);
    forall i | 0 <= i < |a + "." + b|
      ensures (a + "." + b)[i] != 'e' && (a + "." + b)[i] != 'E'
    {
      if i < |a| {
        assert (a + "." + b)[i] == a[i];
      } else if i > |a| {
        assert (a + "." + b)[i] == b[i - |a| - 1];
      }
    }
  }

  /** Cutting a padded numeral -e places from its end leaves two non-empty numerals. */
  lemma PointedShape(digits: string, e: int)
    requires e < 0 && |digits| >= -e + 1 && InRadix(digits, 10)
    ensures var a, b := Slice(digits, 0, e), SliceFrom(digits, e);
      |a| >= 1 && |b| == -e && InRadix(a, 10) && InRadix(b, 10) && a + b == digits
  {
  }

  // ---------------------------------------------------------------------
  // fromString (Decimal.ts:334-354)

  /** The radix a `0x`, `0o` or `0b` prefix letter names; 0 for any other character. */
  function PrefixRadix(c: char): (radix: nat)
    ensures radix in {0, 2, 8, 16}
    ensures radix == 16 <==> c == 'x' || c == 'X'
    ensures radix == 8 <==> c == 'o' || c == 'O'
    ensures radix == 2 <==> c == 'b' || c == 'B'
  {
    if c == 'x' || c == 'X' then 16
    else if c == 'o' || c == 'O' then 8
    else if c == 'b' || c == 'B' then 2
    else 0
  }

  /**
   * The first pattern of `fromString`: an optionally signed decimal integer,
   * or a hexadecimal, octal or binary literal in either case, read by `BigInt`.
   */
  function IntegerLiteral(s: string): (r: Option<int>)
    ensures r.Some? && |s| >= 1 && s[0] == '-' ==> InRadix(s[1..], 10) && r.value == -(ParseRadix(s[1..], 10) as int)
    ensures |s| >= 1 && InRadix(s, 10) ==> r == Some(ParseRadix(s, 10))
  {
    if |s| >= 2 && s[0] == '-' && InRadix(s[1..], 10) then
      Some(-(ParseRadix(s[1..], 10) as int))
    else if |s| >= 1 && InRadix(s, 10) then
      Some(ParseRadix(s, 10))
    else if |s| >= 3 && s[0] == '0' && PrefixRadix(s[1]) != 0 && InRadix(s[2..], PrefixRadix(s[1])) then
      Some(ParseRadix(s[2..], PrefixRadix(s[1])))
    else
      None
  }

  /** The parts the second pattern of `fromString` captures. */
  datatype Literal = Literal(negative: bool, whole: string, fraction: string, exponent: int)

  /** The length of the run of decimal digits that s starts with. */
  function LeadingDigits(s: string): (n: nat)
    ensures n <= |s| && InRadix(s[..n], 10)
    ensures n < |s| ==> DigitValue(s[n]) >= 10
  {
    if |s| > 0 && DigitValue(s[0]) < 10 then
      var n := 1 + LeadingDigits(s[1..]);
      assert s[..n] == [s[0]] + s[1..][..n - 1];
      n
    else
      0
  }

  /** The optional `.digits` group: the fraction digits and what follows them. */
  function ScanFraction(rest: string): (r: Option<(string, string)>)
    ensures r.Some? ==> InRadix(r.value.0, 10)
  {
    if |rest| > 0 && rest[0] == '.' then
      var f := LeadingDigits(rest[1..]);
      if f == 0 then None else Some((rest[1..][..f], rest[1..][f..]))
    else
      Some(("", rest))
  }

  /** The optional `e` group, which must end the string: its signed value, 0 when absent. */
  function ScanExponent(tail: string): (r: Option<int>)
  {
    if |tail| == 0 then
      Some(0)
    else if tail[0] == 'e' || tail[0] == 'E' then
      var signed := tail[1..];
      var negative := |signed| > 0 && signed[0] == '-';
      var digits := if |signed| > 0 && (negative || signed[0] == '+') then signed[1..] else signed;
      if |digits| > 0 && InRadix(digits, 10) then
        var magnitude := ParseRadix(digits, 10);
        Some(Signed(negative, magnitude))
      else
        None
    else
      None
  }

  /**
   * The second pattern of `fromString`: an optional minus sign, digits, an
   * optional point followed by digits, an optional `e` or `E` with an
   * optionally signed exponent, and nothing else.
   */
  function ScanLiteral(s: string): (r: Option<Literal>)
    ensures r.Some? ==> InRadix(r.value.whole, 10) && InRadix(r.value.fraction, 10) && |r.value.whole| >= 1
  {
    var negative := |s| > 0 && s[0] == '-';
    ScanUnsigned(negative, if negative then s[1..] else s)
  }

  /** The second pattern after the optional minus sign. */
  function ScanUnsigned(negative: bool, t: string): (r: Option<Literal>)
    ensures r.Some? ==> InRadix(r.value.whole, 10) && InRadix(r.value.fraction, 10) && |r.value.whole| >= 1
  {
    var w := LeadingDigits(t);
    if w == 0 then
      None
    else
      match ScanFraction(t[w..])
      case None => None
      case Some(parts) =>
        match ScanExponent(parts.1)
        case None => None
        case Some(exponent) => Some(Literal(negative, t[..w], parts.0, exponent))
  }

  /** A sign followed by text that starts with a digit is read as that sign. */
  lemma ScanSigned(negative: bool, t: string)
    requires |t| >= 1 && DigitValue(t[0]) < 10
    ensures ScanLiteral(SignText(negative) + t) == ScanUnsigned(negative, t)
  {
    var s := SignText(negative) + t;
    if negative {
      assert s[1..] == t;
    } else {
      assert s == t;
      assert DigitValue('-') == 36;
    }
  }

  /** `new Decimal(BigInt(match[1] + match[2]), exponent - match[2].length)`. */
  function LiteralValue(l: Literal): (d: Decimal)
    requires InRadix(l.whole, 10) && InRadix(l.fraction, 10)
  {
    InRadixAppend(l.whole, l.fraction);
    Make(Signed(l.negative, ParseRadix(l.whole + l.fraction, 10)), l.exponent - |l.fraction|)
  }

  /** `fromString`: the first pattern through `BigInt`, else the second one, else the assertion fails. */
  function FromString(s: string): (r: Result<Decimal>)
    ensures r.Ok? ==> Canonical(r.value)
    ensures r.Err? ==> r.error == ParseFailure
  {
    match IntegerLiteral(s)
    case Some(n) => Ok(FromBigInt(n))
    case None =>
      match ScanLiteral(s)
      case None => Err(ParseFailure)
      case Some(l) => Ok(LiteralValue(l))
  }

  /**
   * What every accepted text looks like: it is non-empty, starts with '-' or
   * a decimal digit, a leading '-' is followed by a decimal digit, and it
   * ends with a digit of radix 16 at most. Any other text is rejected.
   */
  lemma FromStringRejects(s: string)
    ensures FromString(s).Ok? ==> |s| >= 1 && (s[0] == '-' || DigitValue(s[0]) < 10)
    ensures FromString(s).Ok? && s[0] == '-' ==> |s| >= 2 && DigitValue(s[1]) < 10
    ensures FromString(s).Ok? ==> DigitValue(s[|s| - 1]) < 16
  {
    if IntegerLiteral(s).None? && ScanLiteral(s).Some? {
      var negative := |s| > 0 && s[0] == '-';
      var t := if negative then s[1..] else s;
      ScanUnsignedLast(negative, t);
    }
  }

  /** Text the second pattern accepts after its sign starts and ends with a decimal digit. */
  lemma ScanUnsignedLast(negative: bool, t: string)
    requires ScanUnsigned(negative, t).Some?
    ensures |t| >= 1 && DigitValue(t[0]) < 10 && DigitValue(t[|t| - 1]) < 10
  {
    var w := LeadingDigits(t);
    assert t[..w][0] == t[0];
    var rest := t[w..];
    var parts := ScanFraction(rest).value;
    FractionLast(rest);
    if |parts.1| > 0 {
      ExponentLast(parts.1);
      assert t[|t| - 1] == parts.1[|parts.1| - 1];
    } else if |rest| > 0 {
      assert t[|t| - 1] == rest[|rest| - 1];
    } else {
      assert t[|t| - 1] == t[..w][w - 1];
    }
  }

  /** The optional `.digits` group leaves a suffix of its input, and ends in a digit when it consumed anything. */
  lemma FractionLast(rest: string)
    requires ScanFraction(rest).Some?
    ensures var r := ScanFraction(rest).value.1;
      |r| <= |rest| && rest[|rest| - |r|..] == r && (|r| < |rest| ==> DigitValue(rest[|rest| - |r| - 1]) < 10)
  {
    if |rest| > 0 && rest[0] == '.' {
      var u := rest[1..];
      var f := LeadingDigits(u);
      assert rest[|rest| - |u[f..]|..] == u[f..];
      assert rest[|rest| - |u[f..]| - 1] == u[..f][f - 1];
    }
  }

  /** An accepted `e` group ends with a decimal digit. */
  lemma ExponentLast(tail: string)
    requires |tail| > 0 && ScanExponent(tail).Some?
    ensures DigitValue(tail[|tail| - 1]) < 10
  {
    var signed := tail[1..];
    var negative := |signed| > 0 && signed[0] == '-';
    var digits := if |signed| > 0 && (negative || signed[0] == '+') then signed[1..] else signed;
    assert tail[|tail| - 1] == digits[|digits| - 1];
  }

  /** Texts rejected for how they start: empty, a leading '+', a leading point. */
  lemma RejectedStarts()
    ensures FromString("") == Err(ParseFailure)
    ensures FromString("+1") == Err(ParseFailure)
    ensures FromString(".5") == Err(ParseFailure)
  {
    FromStringRejects("");
    FromStringRejects("+1");
    FromStringRejects(".5");
  }

  /** Texts rejected for how they end: a trailing point, an empty exponent, a bare minus sign. */
  lemma RejectedEnds()
    ensures FromString("1.") == Err(ParseFailure)
    ensures FromString("1e") == Err(ParseFailure)
    ensures FromString("-") == Err(ParseFailure)
  {
    FromStringRejects("1.");
    FromStringRejects("1e");
    FromStringRejects("-");
  }

  /** n with the sign a leading minus gives it. */
  function Signed(negative: bool, n: nat): (r: int)
    ensures negative ==> r == -(n as int)
    ensures !negative ==> r == n
  {
    if negative then -(n as int) else n
  }

  /** The text of a sign: "-" or nothing. */
  function SignText(negative: bool): string {
    if negative then "-" else ""
  }

  /** Any optionally signed run of digits reads as that integer. */
  lemma IntegerShape(negative: bool, d: string)
    requires |d| >= 1 && InRadix(d, 10)
    ensures FromString(SignText(negative) + d) ==
      Ok(FromBigInt(Signed(negative, ParseRadix(d, 10))))
  {
    IntegerLiteralSigned(negative, d);
    FromInteger(SignText(negative) + d, Signed(negative, ParseRadix(d, 10)));
  }

  /** The first pattern reads an optionally signed run of digits as that integer. */
  lemma IntegerLiteralSigned(negative: bool, d: string)
    requires |d| >= 1 && InRadix(d, 10)
    ensures IntegerLiteral(SignText(negative) + d) == Some(Signed(negative, ParseRadix(d, 10)))
  {
    if negative {
      assert ("-" + d)[1..] == d;
    } else {
      assert SignText(negative) + d == d;
    }
  }

  /** What `fromString` returns for text the first pattern matches. */
  lemma FromInteger(s: string, n: int)
    requires IntegerLiteral(s) == Some(n)
    ensures FromString(s) == Ok(FromBigInt(n))
  {
  }

  /** An optionally signed numeral with a point reads as its digits over 10^(fraction length). */
  lemma PointShape(negative: bool, a: string, b: string)
    requires |a| >= 1 && |b| >= 1 && InRadix(a, 10) && InRadix(b, 10)
    ensures InRadix(a + b, 10)
    ensures var m := ParseRadix(a + b, 10);
      FromString(SignText(negative) + (a + "." + b)) == Ok(Make(Signed(negative, m), -|b|))
  {
    InRadixAppend(a, b);
    NoIntegerLiteral(negative, a, "." + b);
    assert a + "." + b == a + ("." + b);
    ScanPointed(negative, a, b);
    var l := Literal(negative, a, b, 0);
    FromScanned(SignText(negative) + (a + "." + b), l);
  }

  /** What `fromString` returns for text only the second pattern matches. */
  lemma FromScanned(s: string, l: Literal)
    requires IntegerLiteral(s).None? && ScanLiteral(s) == Some(l)
    ensures InRadix(l.whole, 10) && InRadix(l.fraction, 10)
    ensures FromString(s) == Ok(LiteralValue(l))
  {
  }

  lemma ScanPointed(negative: bool, a: string, b: string)
    requires |a| >= 1 && |b| >= 1 && InRadix(a, 10) && InRadix(b, 10)
    ensures ScanLiteral(SignText(negative) + (a + "." + b)) == Some(Literal(negative, a, b, 0))
  {
    var t := a + ("." + b);
    assert a + "." + b == t;
    assert t[0] == a[0];
    ScanSigned(negative, t);
    LeadingDigitsBefore(a, "." + b);
    FractionBefore(b, "");
    assert "." + b + "" == "." + b;
    assert ScanExponent("") == Some(0);
  }

  /** A point and digits, up to a non-digit or the end, are the fraction group. */
  lemma FractionBefore(b: string, tail: string)
    requires |b| >= 1 && InRadix(b, 10) && (|tail| > 0 ==> DigitValue(tail[0]) >= 10)
    ensures ScanFraction("." + b + tail) == Some((b, tail))
  {
    assert ("." + b + tail)[1..] == b + tail;
    LeadingDigitsBefore(b, tail);
  }

  /** A string in which a point or an exponent marker follows the leading digits matches none of the integer forms. */
  lemma NoIntegerLiteral(negative: bool, a: string, rest: string)
    requires |a| >= 1 && InRadix(a, 10) && |rest| >= 1 && rest[0] in {'.', 'e', 'E'}
    ensures IntegerLiteral(SignText(negative) + (a + rest)).None?
  {
    var s := SignText(negative) + (a + rest);
    var t := a + rest;
    assert t[|a|] == rest[0] && DigitValue(rest[0]) >= 10;
    assert !InRadix(t, 10);
    if negative {
      assert s[1..] == t;
      assert DigitValue(s[0]) == 36;
    } else {
      assert s == t;
      assert PrefixRadix(s[1]) == 0 by {
        if |a| >= 2 {
          assert s[1] == a[1];
        } else {
          assert s[1] == rest[0];
        }
      }
    }
  }

  /** The value of an optional '+' or '-' followed by decimal digits. */
  function SignedDigits(sign: string, c: string): int
    requires InRadix(c, 10)
  {
    Signed(|sign| == 1 && sign[0] == '-', ParseRadix(c, 10))
  }

  /** The optional `.digits` group of the second pattern as text: nothing, or a point and the digits. */
  function PointText(b: string): string {
    if b == "" then "" else "." + b
  }

  /**
   * The exponent form: digits a, an optional point with digits b, an `e` or
   * `E`, an optional sign and digits c read as the digits of a and b together,
   * at the exponent the signed digits c spell less the number of fraction digits.
   */
  lemma ExponentShape(negative: bool, a: string, b: string, marker: char, sign: string, c: string, exponent: int)
    requires |a| >= 1 && InRadix(a, 10) && InRadix(b, 10)
    requires marker == 'e' || marker == 'E'
    requires |sign| <= 1 && (|sign| == 1 ==> sign[0] == '+' || sign[0] == '-')
    requires |c| >= 1 && InRadix(c, 10) && exponent == SignedDigits(sign, c)
    ensures InRadix(a + b, 10)
    ensures FromString(SignText(negative) + (a + (PointText(b) + ([marker] + sign + c)))) ==
      Ok(Make(Signed(negative, ParseRadix(a + b, 10)), exponent - |b|))
  {
    assert InRadix(a + b, 10) by {
      InRadixAppend(a, b);
    }
    ExponentValue(negative, a, b, marker, sign, c, exponent);
  }

  /** The exponent form, with both parts of the mantissa known to be digits together. */
  lemma ExponentValue(negative: bool, a: string, b: string, marker: char, sign: string, c: string, ex: int)
    requires |a| >= 1 && InRadix(a, 10) && InRadix(b, 10) && InRadix(a + b, 10)
    requires marker == 'e' || marker == 'E'
    requires |sign| <= 1 && (|sign| == 1 ==> sign[0] == '+' || sign[0] == '-')
    requires |c| >= 1 && InRadix(c, 10)
    requires ex == SignedDigits(sign, c)
    ensures FromString(SignText(negative) + (a + (PointText(b) + ([marker] + sign + c)))) ==
      Ok(Make(Signed(negative, ParseRadix(a + b, 10)), ex - |b|))
  {
    ExponentPart(marker, sign, c, ex);
    ExponentForm(negative, a, b, [marker] + sign + c, ex);
    LiteralMake(negative, a, b, ex);
  }

  /** Digits, an optional fraction group and an accepted exponent group are read by the second pattern. */
  lemma ExponentForm(negative: bool, a: string, b: string, tail: string, ex: int)
    requires |a| >= 1 && InRadix(a, 10) && InRadix(b, 10)
    requires |tail| >= 1 && (tail[0] == 'e' || tail[0] == 'E') && ScanExponent(tail) == Some(ex)
    ensures FromString(SignText(negative) + (a + (PointText(b) + tail))) == Ok(LiteralValue(Literal(negative, a, b, ex)))
  {
    var rest := PointText(b) + tail;
    assert rest[0] in {'.', 'e', 'E'};
    NoIntegerLiteral(negative, a, rest);
    assert DigitValue(tail[0]) >= 10;
    ScanParts(negative, a, b, tail, ex);
    FromScanned(SignText(negative) + (a + rest), Literal(negative, a, b, ex));
  }

  /** The value of a scanned literal, spelt out. */
  lemma LiteralMake(negative: bool, a: string, b: string, ex: int)
    requires InRadix(a, 10) && InRadix(b, 10) && InRadix(a + b, 10)
    ensures LiteralValue(Literal(negative, a, b, ex)) == Make(Signed(negative, ParseRadix(a + b, 10)), ex - |b|)
  {
  }

  /** The second pattern splits digits, an optional fraction group and an exponent group into their parts. */
  lemma ScanParts(negative: bool, a: string, b: string, tail: string, ex: int)
    requires |a| >= 1 && InRadix(a, 10) && InRadix(b, 10)
    requires |tail| >= 1 && DigitValue(tail[0]) >= 10 && tail[0] != '.' && ScanExponent(tail) == Some(ex)
    ensures ScanLiteral(SignText(negative) + (a + (PointText(b) + tail))) == Some(Literal(negative, a, b, ex))
  {
    var rest := PointText(b) + tail;
    var t := a + rest;
    assert t[0] == a[0];
    ScanSigned(negative, t);
    FractionText(b, tail);
    assert DigitValue(rest[0]) >= 10;
    LeadingDigitsBefore(a, rest);
    assert ScanUnsigned(negative, t) == Some(Literal(negative, a, b, ex));
  }

  /** The optional fraction group, read up to the exponent group. */
  lemma FractionText(b: string, tail: string)
    requires InRadix(b, 10)
    requires |tail| >= 1 && DigitValue(tail[0]) >= 10 && tail[0] != '.'
    ensures ScanFraction(PointText(b) + tail) == Some((b, tail))
  {
    if b == "" {
      assert PointText(b) + tail == tail;
    } else {
      FractionBefore(b, tail);
    }
  }

  /** The `e` group reads its optionally signed digits. */
  lemma ExponentPart(marker: char, sign: string, c: string, ex: int)
    requires marker == 'e' || marker == 'E'
    requires |sign| <= 1 && (|sign| == 1 ==> sign[0] == '+' || sign[0] == '-')
    requires |c| >= 1 && InRadix(c, 10)
    requires ex == SignedDigits(sign, c)
    ensures ScanExponent([marker] + sign + c) == Some(ex)
  {
    var tail := [marker] + sign + c;
    var signed := tail[1..];
    assert tail[0] == marker;
    assert signed == sign + c;
    if |sign| == 0 {
      assert signed == c;
      assert DigitValue(signed[0]) < 10;
      assert signed[0] != '-' && signed[0] != '+';
    } else {
      assert signed[0] == sign[0];
      assert signed[1..] == c;
    }
  }

  /** A `0x`, `0o` or `0b` literal, in either case, reads as its digits in that radix. */
  lemma RadixShape(p: char, d: string)
    requires PrefixRadix(p) != 0 && |d| >= 1 && InRadix(d, PrefixRadix(p))
    ensures FromString("0" + [p] + d) == Ok(FromBigInt(ParseRadix(d, PrefixRadix(p))))
  {
    RadixLiteral(p, d);
    FromInteger("0" + [p] + d, ParseRadix(d, PrefixRadix(p)));
  }

  /** The first pattern reads a radix literal through its third form. */
  lemma RadixLiteral(p: char, d: string)
    requires PrefixRadix(p) != 0 && |d| >= 1 && InRadix(d, PrefixRadix(p))
    ensures IntegerLiteral("0" + [p] + d) == Some(ParseRadix(d, PrefixRadix(p)))
  {
    var s := "0" + [p] + d;
    assert s[0] == '0' && s[1] == p && DigitValue(p) >= 10;
    assert !InRadix(s, 10);
    assert s[2..] == d;
  }

  /** "1.23e-2" reads as 123 at exponent -4. */
  lemma ExponentExample(t: string)
    requires t == "1.23e-2"
    ensures FromString(t) == Ok(Decimal(123, -4))
  {
    ExampleText(t);
    ExampleValue();
  }

  /** "1.23e-2" in the exponent form. */
  lemma ExampleText(t: string)
    requires t == "1.23e-2"
    ensures t == SignText(false) + ("1" + (PointText("23") + (['e'] + "-" + "2")))
    ensures SignedDigits("-", "2") == -2
  {
  }

  /** The exponent form of "1.23e-2" reads as 123 at exponent -4. */
  lemma ExampleValue()
    ensures FromString(SignText(false) + ("1" + (PointText("23") + (['e'] + "-" + "2")))) == Ok(Decimal(123, -4))
  {
    ExponentShape(false, "1", "23", 'e', "-", "2", -2);
    ExampleMantissa();
    MakeCanonical(Decimal(123, -4));
  }

  /** The digits "1" and "23" together spell 123. */
  lemma ExampleMantissa()
    ensures InRadix("1" + "23", 10) && ParseRadix("1" + "23", 10) == 123
  {
    assert "1" + "23" == "123";
    assert "123"[..2] == "12" && "12"[..1] == "1";
  }

  /** "0X1f" is the hexadecimal literal 31. */
  lemma RadixExample()
    ensures FromString("0X1f") == Ok(Decimal(31, 0))
  {
    RadixShape('X', "1f");
    assert "0" + ['X'] + "1f" == "0X1f";
    assert ParseRadix("1f", 16) == 31;
    MakeCanonical(Decimal(31, 0));
  }

  /** A run of digits followed by a non-digit (or nothing) is exactly the leading run. */
  lemma {:induction false} LeadingDigitsBefore(a: string, rest: string)
    requires InRadix(a, 10) && (|rest| > 0 ==> DigitValue(rest[0]) >= 10)
    ensures LeadingDigits(a + rest) == |a|
    ensures (a + rest)[..|a|] == a && (a + rest)[|a|..] == rest
    decreases |a|
  {
    if |a| > 0 {
      assert (a + rest)[1..] == a[1..] + rest;
      LeadingDigitsBefore(a[1..], rest);
    }
  }

  /** Shifting digits between mantissa and exponent keeps the canonical form. */
  lemma MakeShift(m: int, k: nat, e: int)
    ensures Make(m * Pow10(k), e - k) == Make(m, e)
  {
    ScaleShift(m, k, e - k);
    MakeRespectsValue(m * Pow10(k), e - k, m, e);
  }

  /** `fromString(toString(x))` rebuilds x exactly. */
  lemma ToStringRoundTrip(x: Decimal)
    requires Canonical(x)
    ensures FromString(ToString(x)) == Ok(x)
  {
    if x.mantissa < 0 {
      MakeCanonical(x);
      var y := Neg(x);
      MakeSign(-x.mantissa, x.exponent);
      assert y == Decimal(-x.mantissa, x.exponent) by {
        MakeCanonicalNeg(x);
      }
      UnsignedRoundTrip(y, true);
      assert ToString(x) == "-" + ToString(y);
    } else {
      UnsignedRoundTrip(x, false);
      assert SignText(false) + ToString(x) == ToString(x);
    }
  }

  /** Negating a canonical pair only flips the mantissa's sign. */
  lemma MakeCanonicalNeg(x: Decimal)
    requires Canonical(x)
    ensures Neg(x) == Decimal(-x.mantissa, x.exponent)
  {
    assert Canonical(Decimal(-x.mantissa, x.exponent));
    MakeCanonical(Decimal(-x.mantissa, x.exponent));
  }

  /** The text of a non-negative canonical Decimal, after an optional minus sign, reads back as it, negated if signed. */
  lemma UnsignedRoundTrip(x: Decimal, negative: bool)
    requires Canonical(x) && x.mantissa >= 0
    ensures FromString(SignText(negative) + ToString(x)) == Ok(Decimal(Signed(negative, x.mantissa), x.exponent))
  {
    var m, e := x.mantissa, x.exponent;
    assert Canonical(Decimal(Signed(negative, m), e));
    MakeCanonical(Decimal(Signed(negative, m), e));
    ToStringUnsigned(x);
    if e >= 0 {
      WholeRoundTrip(m, e, negative);
    } else {
      PointedRoundTrip(m, e, negative);
    }
  }

  /** The two shapes of `toString` on a non-negative Decimal. */
  lemma ToStringUnsigned(x: Decimal)
    requires x.mantissa >= 0
    ensures x.exponent >= 0 ==> ToString(x) == NatDigits(x.mantissa) + Repeat('0', x.exponent)
    ensures x.exponent < 0 ==> var digits := PadStart(NatDigits(x.mantissa), -x.exponent + 1, '0');
      ToString(x) == Slice(digits, 0, x.exponent) + "." + SliceFrom(digits, x.exponent)
  {
  }

  /** The text of m followed by e zeros reads back as (±m × 10^e, 0), canonically (±m, e). */
  lemma WholeRoundTrip(m: nat, e: nat, negative: bool)
    ensures FromString(SignText(negative) + (NatDigits(m) + Repeat('0', e))) == Ok(Make(Signed(negative, m), e))
  {
    var d := NatDigits(m) + Repeat('0', e);
    ParseWithZeros(m, e);
    IntegerShape(negative, d);
    SignedShift(m, e, negative);
  }

  lemma ParseWithZeros(m: nat, e: nat)
    ensures InRadix(NatDigits(m) + Repeat('0', e), 10)
    ensures ParseRadix(NatDigits(m) + Repeat('0', e), 10) == m * Pow10(e)
  {
    NatDigitsRoundTrip(m);
    ParseZeros(e);
    ParseAppend(NatDigits(m), Repeat('0', e));
  }

  lemma SignedShift(m: nat, e: nat, negative: bool)
    ensures FromBigInt(Signed(negative, m * Pow10(e))) == Make(Signed(negative, m), e)
  {
    var p := Pow10(e);
    assert Signed(negative, m * p) == Signed(negative, m) * p;
    MakeShift(Signed(negative, m), e, e);
  }

  /** The pointed text of m at a negative exponent e reads back as (±m, e) in canonical form. */
  lemma PointedRoundTrip(m: nat, e: int, negative: bool)
    requires e < 0
    ensures var digits := PadStart(NatDigits(m), -e + 1, '0');
      FromString(SignText(negative) + (Slice(digits, 0, e) + "." + SliceFrom(digits, e))) == Ok(Make(Signed(negative, m), e))
  {
    var digits := PadStart(NatDigits(m), -e + 1, '0');
    PaddedValue(m, -e + 1);
    PointedShape(digits, e);
    var a, b := Slice(digits, 0, e), SliceFrom(digits, e);
    PointShape(negative, a, b);
    PointedValue(negative, a, b, digits, m, e);
  }

  lemma PointedValue(negative: bool, a: string, b: string, digits: string, m: nat, e: int)
    requires a + b == digits && InRadix(digits, 10) && ParseRadix(digits, 10) == m && |b| == -e
    ensures InRadix(a + b, 10)
    ensures Make(Signed(negative, ParseRadix(a + b, 10)), -|b|) == Make(Signed(negative, m), e)
  {
  }
}
