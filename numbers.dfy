/**
 * Numbers as the query engine reads and prints them: Python's `int()` and `float()`
 * on plain decimal text, `str()` of an int and of a float, and `int()` of a float
 * (truncation toward zero). A float is held exactly as a decimal fraction.
 */
module Numbers {
  import opened Wrappers
  import opened Text

  function DigitValue(c: char): nat
    requires IsDigit(c)
  {
    c as int - '0' as int
  }

  function DigitChar(d: nat): char
    requires d < 10
  {
    ('0' as int + d) as char
  }

  predicate AllDigits(s: string) {
    forall i :: 0 <= i < |s| ==> IsDigit(s[i])
  }

  /** The number a string of decimal digits denotes; leading zeros are allowed, as `int("007")` allows them. */
  function DigitsValue(s: string): nat
    requires AllDigits(s)
  {
    if s == [] then 0 else DigitsValue(s[..|s| - 1]) * 10 + DigitValue(s[|s| - 1])
  }

  /** `str(n)` of a natural number: its decimal digits, no leading zero. */
  function NatToStr(n: nat): (r: string)
    ensures r != [] && AllDigits(r)
    ensures DigitsValue(r) == n
    ensures r[0] != '0' || r == "0"
  {
    if n < 10 then [DigitChar(n)]
    else
      var r := NatToStr(n / 10) + [DigitChar(n % 10)];
      assert r[..|r| - 1] == NatToStr(n / 10);
      r
  }

  /** `str(i)` of an int. */
  function IntToStr(i: int): string {
    if i < 0 then "-" + NatToStr(-i) else NatToStr(i)
  }

  /** Text with an optional leading `+` or `-` split off: (negative?, rest). */
  function SplitSign(t: string): (bool, string) {
    if |t| > 0 && (t[0] == '+' || t[0] == '-') then (t[0] == '-', t[1..]) else (false, t)
  }

  /** `int(s)` for the grammar: white space, optional sign, one or more ASCII digits, white space. */
  function ParseInt(s: string): Option<int> {
    var (negative, digits) := SplitSign(Strip(s));
    if digits != [] && AllDigits(digits) then
      Some(if negative then -(DigitsValue(digits) as int) else DigitsValue(digits))
    else None
  }

  /** `int(str(i)) == i`. */
  lemma IntRoundTrip(i: int)
    ensures ParseInt(IntToStr(i)) == Some(i)
  {
    var s := IntToStr(i);
    assert Trimmed(s);
    StripTrimmed(s);
    if i < 0 {
      assert s[1..] == NatToStr(-i);
    }
  }

  lemma {:induction false} LeadingZerosValue(z: string, x: string)
    requires forall k :: 0 <= k < |z| ==> z[k] == '0'
    requires AllDigits(x)
    ensures AllDigits(z + x) && DigitsValue(z + x) == DigitsValue(x)
    decreases |x|
  {
    if x == [] {
      assert z + x == z;
      ZerosValue(z);
    } else {
      var y := x[..|x| - 1];
      assert (z + x)[..|z + x| - 1] == z + y;
      LeadingZerosValue(z, y);
    }
  }

  lemma {:induction false} ZerosValue(z: string)
    requires forall k :: 0 <= k < |z| ==> z[k] == '0'
    ensures AllDigits(z) && DigitsValue(z) == 0
  {
    if z != [] {
      ZerosValue(z[..|z| - 1]);
    }
  }

  /** A decimal floating-point value, `mantissa / 10^scale`, held exactly. */
  datatype Decimal = Decimal(mantissa: int, scale: nat)

  function Pow10(n: nat): (r: nat)
    ensures r >= 1
  {
    if n == 0 then 1 else 10 * Pow10(n - 1)
  }

  /** The number a decimal denotes. */
  function RealOf(d: Decimal): real {
    d.mantissa as real / Pow10(d.scale) as real
  }

  /** `int(x)` of a float: truncation toward zero. */
  function Truncate(d: Decimal): int {
    if d.mantissa >= 0 then d.mantissa / Pow10(d.scale) else -((-d.mantissa) / Pow10(d.scale))
  }

  lemma TruncateNonNegative(m: nat, p: nat)
    requires p >= 1
    ensures (m / p) as real <= m as real / p as real < (m / p) as real + 1.0
  {
    var q, r := m / p, m % p;
    assert m == q * p + r;
    assert m as real == q as real * p as real + r as real;
    assert m as real / p as real == q as real + r as real / p as real;
    assert 0.0 <= r as real / p as real < 1.0;
  }

  /** `int()` of a float drops the fraction toward zero: the result lies between zero and the value, less than one away. */
  lemma TruncateTowardZero(d: Decimal)
    ensures 0.0 <= RealOf(d) ==> Truncate(d) as real <= RealOf(d) < Truncate(d) as real + 1.0
    ensures RealOf(d) < 0.0 ==> Truncate(d) as real - 1.0 < RealOf(d) <= Truncate(d) as real
  {
    var p := Pow10(d.scale);
    if d.mantissa >= 0 {
      TruncateNonNegative(d.mantissa, p);
    } else {
      TruncateNonNegative(-d.mantissa, p);
      assert RealOf(d) == -((-d.mantissa) as real / p as real);
    }
  }

  /** Position of the first `e` or `E`, or the length when there is none. */
  function ExponentMark(s: string): (k: nat)
    ensures k <= |s|
    ensures forall i :: 0 <= i < k ==> s[i] != 'e' && s[i] != 'E'
    ensures k < |s| ==> s[k] == 'e' || s[k] == 'E'
  {
    if s == [] then 0 else if s[0] == 'e' || s[0] == 'E' then 0 else 1 + ExponentMark(s[1..])
  }

  /** Position of the first `c`, or the length when there is none. */
  function IndexOf(s: string, c: char): (k: nat)
    ensures k <= |s|
    ensures forall i :: 0 <= i < k ==> s[i] != c
    ensures k < |s| ==> s[k] == c
  {
    if s == [] then 0 else if s[0] == c then 0 else 1 + IndexOf(s[1..], c)
  }

  /** The exponent after `e`: an optional sign and one or more digits; no exponent is 0. */
  function ParseExponent(e: Option<string>): Option<int> {
    match e
    case None => Some(0)
    case Some(text) =>
      var (negative, digits) := SplitSign(text);
      if digits != [] && AllDigits(digits) then
        Some(if negative then -(DigitsValue(digits) as int) else DigitsValue(digits))
      else None
  }

  /**
   * The part before any exponent: digits with at most one decimal point and at least one digit.
   * Gives the value of all its digits and how many of them follow the point.
   */
  function ParseMantissa(mant: string): Option<(nat, nat)> {
    var p := IndexOf(mant, '.');
    var whole := mant[..p];
    var fraction := if p < |mant| then mant[p + 1..] else [];
    if AllDigits(whole) && AllDigits(fraction) && |whole| + |fraction| > 0 then
      Some((DigitsValue(whole + fraction), |fraction|))
    else None
  }

  /**
   * `float(s)` for the grammar: white space, optional sign, a mantissa, an optional
   * exponent `e`/`E` with optional sign and digits, white space.
   */
  function ParseFloat(s: string): Option<Decimal> {
    var signed := SplitSign(Strip(s));
    var body := signed.1;
    var k := ExponentMark(body);
    var mantissa := ParseMantissa(body[..k]);
    var exponent := ParseExponent(if k < |body| then Some(body[k + 1..]) else None);
    if mantissa.None? || exponent.None? then None
    else Some(Scaled(signed.0, mantissa.value.0, mantissa.value.1, exponent.value))
  }

  /** The decimal `±digits × 10^(exponent − fractionDigits)`. */
  function Scaled(negative: bool, digits: nat, fractionDigits: nat, exponent: int): Decimal {
    var m: int := if negative then -(digits as int) else digits;
    var scale := fractionDigits - exponent;
    if scale >= 0 then Decimal(m, scale) else Decimal(m * Pow10(-scale), 0)
  }

  lemma MantissaWithPoint(whole: string, fraction: string)
    requires AllDigits(whole) && AllDigits(fraction) && |whole| > 0
    ensures AllDigits(whole + fraction)
    ensures ParseMantissa(whole + "." + fraction) == Some((DigitsValue(whole + fraction), |fraction|))
  {
    var mant := whole + "." + fraction;
    assert mant[|whole|] == '.';
    assert forall i :: 0 <= i < |whole| ==> mant[i] == whole[i];
    var k := IndexOf(mant, '.');
    assert k == |whole|;
    assert mant[..k] == whole;
    assert mant[k + 1..] == fraction;
    assert AllDigits(whole + fraction) by {
      forall i | 0 <= i < |whole + fraction| ensures IsDigit((whole + fraction)[i]) {
        if i >= |whole| {
          assert (whole + fraction)[i] == fraction[i - |whole|];
        }
      }
    }
  }

  function SignText(negative: bool): string {
    if negative then "-" else ""
  }

  /** The digits-point-digits text has no exponent mark and its mantissa is read as all its digits. */
  lemma PointMantissa(whole: string, fraction: string)
    requires AllDigits(whole) && AllDigits(fraction) && |whole| > 0
    ensures AllDigits(whole + fraction)
    ensures ExponentMark(whole + "." + fraction) == |whole + "." + fraction|
    ensures ParseMantissa(whole + "." + fraction) == Some((DigitsValue(whole + fraction), |fraction|))
  {
    var body := whole + "." + fraction;
    assert ExponentMark(body) == |body| by {
      assert forall i :: 0 <= i < |whole| ==> body[i] == whole[i];
      assert forall i :: |whole| < i < |body| ==> body[i] == fraction[i - |whole| - 1];
    }
    MantissaWithPoint(whole, fraction);
  }

  /** A sign followed by text that starts with a digit splits into that sign and that text. */
  lemma SplitSignOf(negative: bool, body: string)
    requires body != [] && IsDigit(body[0])
    ensures SplitSign(SignText(negative) + body) == (negative, body)
  {
    var s := SignText(negative) + body;
    if negative {
      assert s[1..] == body;
    } else {
      assert s == body;
    }
  }


  /** A sign followed by text with a digit first and no white space last is already stripped. */
  lemma SignedLiteralTrimmed(negative: bool, body: string)
    requires body != [] && IsDigit(body[0]) && !IsSpace(body[|body| - 1])
    ensures Strip(SignText(negative) + body) == SignText(negative) + body
  {
    StripTrimmed(SignText(negative) + body);
  }

  lemma PointLiteralEnds(whole: string, fraction: string)
    requires AllDigits(whole) && AllDigits(fraction) && |whole| > 0
    ensures IsDigit((whole + "." + fraction)[0])
    ensures !IsSpace((whole + "." + fraction)[|whole + "." + fraction| - 1])
  {
    var body := whole + "." + fraction;
    assert body[0] == whole[0];
    if fraction != [] {
      assert body[|body| - 1] == fraction[|fraction| - 1];
    }
  }

  /** `float()` of a stripped, sign-prefixed text without exponent is the value of its mantissa. */
  lemma ParseFloatWithoutExponent(negative: bool, body: string, digits: nat, fractionDigits: nat)
    requires Strip(SignText(negative) + body) == SignText(negative) + body
    requires SplitSign(SignText(negative) + body) == (negative, body)
    requires ExponentMark(body) == |body|
    requires ParseMantissa(body) == Some((digits, fractionDigits))
    ensures ParseFloat(SignText(negative) + body) == Some(Scaled(negative, digits, fractionDigits, 0))
  {
    ParseStrippedWithoutExponent(SignText(negative) + body, negative, body);
  }

  lemma ParseStrippedWithoutExponent(s: string, negative: bool, body: string)
    requires Strip(s) == s && SplitSign(s) == (negative, body)
    requires ExponentMark(body) == |body| && ParseMantissa(body).Some?
    ensures ParseFloat(s) == Some(Scaled(negative, ParseMantissa(body).value.0, ParseMantissa(body).value.1, 0))
  {
    assert body[..|body|] == body;
  }

  function Zeros(n: nat): (z: string)
    ensures |z| == n && forall k :: 0 <= k < n ==> z[k] == '0'
  {
    if n == 0 then [] else "0" + Zeros(n - 1)
  }

  /** The digits of `|d.mantissa|`, zero-padded so that at least one stands before the point. */
  function PaddedDigits(d: Decimal): (digits: string)
    ensures AllDigits(digits) && |digits| > d.scale
    ensures DigitsValue(digits) == if d.mantissa < 0 then -d.mantissa else d.mantissa
  {
    var magnitude := NatToStr(if d.mantissa < 0 then -d.mantissa else d.mantissa);
    var z := Zeros(if |magnitude| > d.scale then 0 else d.scale + 1 - |magnitude|);
    LeadingZerosValue(z, magnitude);
    z + magnitude
  }

  /** `digits` with a point put before its last `scale` digits. */
  function PointText(digits: string, scale: nat): string
    requires |digits| > scale
  {
    digits[..|digits| - scale] + "." + digits[|digits| - scale..]
  }

  /** A literal for `d` with exactly `d.scale` digits after the point and at least one before it. */
  function FloatLexeme(d: Decimal): string {
    SignText(d.mantissa < 0) + PointText(PaddedDigits(d), d.scale)
  }

  /** `float()` of a point literal is its digits scaled by the number of digits after the point. */
  lemma ParsePointText(negative: bool, digits: string, scale: nat)
    requires AllDigits(digits) && |digits| > scale
    ensures ParseFloat(SignText(negative) + PointText(digits, scale)) == Some(Scaled(negative, DigitsValue(digits), scale, 0))
  {
    PointTextMantissa(digits, scale);
    SplitSignOf(negative, PointText(digits, scale));
    SignedLiteralTrimmed(negative, PointText(digits, scale));
    ParseFloatWithoutExponent(negative, PointText(digits, scale), DigitsValue(digits), scale);
  }

  /** The facts about the digits around the point that `float()` reads a point literal by. */
  lemma PointTextMantissa(digits: string, scale: nat)
    requires AllDigits(digits) && |digits| > scale
    ensures PointText(digits, scale) != [] && IsDigit(PointText(digits, scale)[0])
    ensures !IsSpace(PointText(digits, scale)[|PointText(digits, scale)| - 1])
    ensures ExponentMark(PointText(digits, scale)) == |PointText(digits, scale)|
    ensures ParseMantissa(PointText(digits, scale)) == Some((DigitsValue(digits), scale))
  {
    var p := |digits| - scale;
    var whole, fraction := digits[..p], digits[p..];
    assert AllDigits(whole) && AllDigits(fraction) by {
      assert forall i :: 0 <= i < p ==> whole[i] == digits[i];
      assert forall i :: 0 <= i < scale ==> fraction[i] == digits[p + i];
    }
    assert whole + fraction == digits;
    PointMantissa(whole, fraction);
    PointLiteralEnds(whole, fraction);
  }

  /** A sign-prefixed point literal has no padding and holds a point. */
  lemma PointLiteralTrimmed(negative: bool, whole: string, fraction: string)
    requires AllDigits(whole) && AllDigits(fraction) && |whole| > 0
    ensures Trimmed(SignText(negative) + (whole + "." + fraction))
    ensures '.' in SignText(negative) + (whole + "." + fraction)
    ensures (SignText(negative) + (whole + "." + fraction))[0] in "-0123456789"
  {
    PointLiteralEnds(whole, fraction);
    SignedLiteralTrimmed(negative, whole + "." + fraction);
    var body := whole + "." + fraction;
    assert body[|whole|] == '.';
    assert (SignText(negative) + body)[|SignText(negative)| + |whole|] == '.';
    SignedFirst(negative, body);
  }

  lemma SignedFirst(negative: bool, body: string)
    requires body != [] && IsDigit(body[0])
    ensures (SignText(negative) + body)[0] in "-0123456789"
  {
    if !negative {
      assert (SignText(negative) + body)[0] == body[0];
    }
  }

  /** `str(x)` of a float has no padding and always holds a point. */
  lemma FloatToStrShape(d: Decimal)
    ensures Trimmed(FloatToStr(d)) && '.' in FloatToStr(d)
  {
    FloatLexemeShape(Printed(d));
  }


  /** A float's literal has no padding and always holds a point. */
  lemma FloatLexemeShape(d: Decimal)
    ensures Trimmed(FloatLexeme(d)) && '.' in FloatLexeme(d)
    ensures FloatLexeme(d)[0] in "-0123456789"
  {
    PointTextShape(d.mantissa < 0, PaddedDigits(d), d.scale);
  }

  lemma PointTextShape(negative: bool, digits: string, scale: nat)
    requires AllDigits(digits) && |digits| > scale
    ensures Trimmed(SignText(negative) + PointText(digits, scale))
    ensures '.' in SignText(negative) + PointText(digits, scale)
    ensures (SignText(negative) + PointText(digits, scale))[0] in "-0123456789"
  {
    var k := |digits| - scale;
    assert AllDigits(digits[..k]) && AllDigits(digits[k..]) by {
      assert forall i :: 0 <= i < k ==> digits[..k][i] == digits[i];
      assert forall i :: 0 <= i < scale ==> digits[k..][i] == digits[k + i];
    }
    PointLiteralTrimmed(negative, digits[..k], digits[k..]);
  }

  /** `float()` reads a decimal's literal back as the very same decimal. */
  lemma FloatLexemeRoundTrip(d: Decimal)
    ensures ParseFloat(FloatLexeme(d)) == Some(d)
  {
    ParsePointText(d.mantissa < 0, PaddedDigits(d), d.scale);
  }

  /** The decimal in lowest terms: no zero digit ends its fraction. */
  function Normalize(d: Decimal): (n: Decimal)
    ensures RealOf(n) == RealOf(d)
    ensures n.scale == 0 || n.mantissa % 10 != 0
    decreases d.scale
  {
    if d.scale > 0 && d.mantissa % 10 == 0 then
      var next := Decimal(d.mantissa / 10, d.scale - 1);
      assert RealOf(next) == RealOf(d) by {
        var p := Pow10(d.scale - 1);
        assert Pow10(d.scale) == 10 * p;
        assert d.mantissa == 10 * next.mantissa;
        assert (10 * next.mantissa) as real / (10 * p) as real == next.mantissa as real / p as real;
      }
      Normalize(next)
    else d
  }

  /** `str(x)` of a float in positional notation: the shortest digits, and at least one after the point. */
  function FloatToStr(d: Decimal): string {
    FloatLexeme(Printed(d))
  }

  /** The decimal whose literal `str(x)` prints: lowest terms, but never without a fraction digit. */
  function Printed(d: Decimal): (p: Decimal)
    ensures RealOf(p) == RealOf(d) && p.scale > 0
  {
    var n := Normalize(d);
    if n.scale == 0 then
      assert (n.mantissa * 10) as real / 10.0 == n.mantissa as real;
      Decimal(n.mantissa * 10, 1)
    else n
  }

  /** `float(str(x))` is `x` again. */
  lemma FloatToStrRoundTrip(d: Decimal)
    ensures ParseFloat(FloatToStr(d)).Some?
    ensures RealOf(ParseFloat(FloatToStr(d)).value) == RealOf(d)
  {
    FloatLexemeRoundTrip(Printed(d));
  }
}
