/** The numeric text handling of the comparison branch: `Int32.Parse` and
    its siblings, `decimal.Parse`, `Math.Round(decimal)` (ties to even) and
    the integer `ToString()` that feeds the rounded value back to `Parse`. */
module Numbers {
  import opened Results
  import opened Text

  /** The integral member types that get decimal rounding. */
  datatype IntType = Int16 | Int32 | Int64 | UInt16 | UInt32 | UInt64

  function MinValue(w: IntType): int {
    match w
    case Int16 => -0x8000
    case Int32 => -0x8000_0000
    case Int64 => -0x8000_0000_0000_0000
    case _ => 0
  }

  function MaxValue(w: IntType): int {
    match w
    case Int16 => 0x7FFF
    case Int32 => 0x7FFF_FFFF
    case Int64 => 0x7FFF_FFFF_FFFF_FFFF
    case UInt16 => 0xFFFF
    case UInt32 => 0xFFFF_FFFF
    case UInt64 => 0xFFFF_FFFF_FFFF_FFFF
  }

  predicate InRange(w: IntType, n: int) {
    MinValue(w) <= n <= MaxValue(w)
  }

  predicate IsDigit(c: char) { '0' <= c <= '9' }

  predicate AllDigits(s: string) {
    forall i :: 0 <= i < |s| ==> IsDigit(s[i])
  }

  function DigitValue(c: char): nat
    requires IsDigit(c)
  {
    c as int - '0' as int
  }

  function DigitChar(d: nat): char
    requires d < 10
  {
    ('0' as int + d) as char
  }

  /** The value of a string of decimal digits, most significant first. */
  function DigitsValue(s: string): nat
    requires AllDigits(s)
  {
    if s == [] then 0 else DigitsValue(s[..|s| - 1]) * 10 + DigitValue(s[|s| - 1])
  }

  /** What `NumberStyles.Integer` parsing accepts once white space is gone:
      an optional sign followed by one or more digits. */
  function ParseInt(s: string): Option<int> {
    var signed := |s| > 0 && (s[0] == '-' || s[0] == '+');
    var rest := if signed then s[1..] else s;
    if rest != [] && AllDigits(rest) then
      Some(if signed && s[0] == '-' then -(DigitsValue(rest) as int) else DigitsValue(rest))
    else None
  }

  /** `Int32.Parse(s)` (and the other widths): a malformed string raises a
      FormatException, an out-of-range value an OverflowException. */
  function ParseIntegral(w: IntType, s: string): (r: Result<int>)
    ensures r.Ok? <==> ParseInt(s).Some? && InRange(w, ParseInt(s).value)
    ensures r.Ok? ==> r.value == ParseInt(s).value && InRange(w, r.value)
  {
    match ParseInt(s)
    case None => Fail(MalformedOperand(s))
    case Some(n) => if InRange(w, n) then Ok(n) else Fail(OperandOverflow(s))
  }

  function NatToString(n: nat): (r: string)
    ensures r != [] && AllDigits(r)
  {
    if n < 10 then [DigitChar(n)] else NatToString(n / 10) + [DigitChar(n % 10)]
  }

  /** `n.ToString()` in the invariant format: a minus sign for negative values. */
  function IntToString(n: int): string {
    if n < 0 then "-" + NatToString(-n) else NatToString(n)
  }

  lemma {:induction false} NatToStringValue(n: nat)
    ensures DigitsValue(NatToString(n)) == n
  {
    var r := NatToString(n);
    if n >= 10 {
      NatToStringValue(n / 10);
      assert r[..|r| - 1] == NatToString(n / 10);
    }
  }

  /** A digit string parses to its value, with or without a minus sign. */
  lemma ParseDigits(r: string)
    requires r != [] && AllDigits(r)
    ensures ParseInt(r) == Some(DigitsValue(r))
    ensures ParseInt("-" + r) == Some(-(DigitsValue(r) as int))
  {
    assert IsDigit(r[0]);
    assert ("-" + r)[0] == '-' && ("-" + r)[1..] == r;
  }

  /** Printing an integer and parsing it back gives the same integer. */
  lemma ParseIntRoundTrip(n: int)
    ensures ParseInt(IntToString(n)) == Some(n)
  {
    if n < 0 {
      NatToStringValue(-n);
      ParseDigits(NatToString(-n));
    } else {
      NatToStringValue(n);
      ParseDigits(NatToString(n));
    }
  }

  /** A `decimal` value: (-1 if negative) * digits / 10^scale. */
  datatype Decimal = Decimal(negative: bool, digits: nat, scale: nat)

  function Pow10(k: nat): (r: nat)
    ensures r > 0
  {
    if k == 0 then 1 else 10 * Pow10(k - 1)
  }

  /** Digits with `,` group separators, none before the first digit (the
      integer part under the number style); the empty text is allowed. */
  predicate GroupedDigits(w: string) {
    w == [] || (IsDigit(w[0]) && forall i :: 0 <= i < |w| ==> IsDigit(w[i]) || w[i] == ',')
  }

  predicate IsSign(c: char) { c == '-' || c == '+' }

  /** The sign of a number and the text around it: one sign, at the front
      or at the back. */
  function SplitSign(s: string): (bool, string) {
    if |s| > 0 && IsSign(s[0]) then (s[0] == '-', s[1..])
    else if |s| > 0 && IsSign(s[|s| - 1]) then (s[|s| - 1] == '-', s[..|s| - 1])
    else (false, s)
  }

  /** An unsigned number as digits over 10^scale: an integer part with group
      separators, at most one decimal point, and at least one digit. */
  function ParseUnsignedDecimal(body: string): Option<(nat, nat)> {
    var k := if '.' in body then IndexOf(body, '.') else |body|;
    var fraction := if k < |body| then body[k + 1..] else [];
    if GroupedDigits(body[..k]) then
      var whole := RemoveAll(body[..k], ",");
      if |whole| + |fraction| > 0 && AllDigits(whole + fraction) then
        Some((DigitsValue(whole + fraction), |fraction|))
      else None
    else None
  }

  /** `decimal.Parse` under the number style with `.` as the decimal point
      and `,` as the group separator. */
  function ParseDecimal(s: string): Option<Decimal> {
    var (negative, body) := SplitSign(s);
    match ParseUnsignedDecimal(body)
    case None => None
    case Some((digits, scale)) => Some(Decimal(negative, digits, scale))
  }

  /** A sign reads the same at either end of an unsigned number. */
  lemma SignAtEitherEnd(body: string, sign: char)
    requires body != [] && !IsSign(body[0]) && !IsSign(body[|body| - 1]) && IsSign(sign)
    ensures ParseDecimal([sign] + body) == ParseDecimal(body + [sign])
  {
    assert ([sign] + body)[1..] == body;
    assert (body + [sign])[..|body|] == body;
  }

  /** The signed numerator of d over the denominator 10^scale. */
  function Numerator(d: Decimal): int {
    if d.negative then -(d.digits as int) else d.digits
  }

  /** The magnitude of `Math.Round`: digits / den rounded to the nearest
      integer, a tie going to the even one. */
  function Magnitude(digits: nat, den: nat): int
    requires den > 0
  {
    var q := digits / den;
    var rem := digits % den;
    if 2 * rem < den then q
    else if 2 * rem > den then q + 1
    else if q % 2 == 0 then q else q + 1
  }

  /** `Math.Round(d)`: the nearest integer, a tie going to the even one. */
  function RoundHalfEven(d: Decimal): int {
    var magnitude := Magnitude(d.digits, Pow10(d.scale));
    if d.negative then -magnitude else magnitude
  }

  /** The rounded magnitude lies within half a unit of digits / den, and on
      a tie it is even. */
  lemma MagnitudeNearest(digits: nat, den: nat)
    requires den > 0
    ensures var unit: int := den;
            var gap := 2 * (Magnitude(digits, den) * unit - digits);
            -unit <= gap <= unit && ((gap == unit || gap == -unit) ==> Magnitude(digits, den) % 2 == 0)
  {
    var q := digits / den;
    var rem := digits % den;
    assert digits == q * den + rem && 0 <= rem < den;
    assert (q + 1) * den == q * den + den;
    if 2 * rem < den {
      assert Magnitude(digits, den) * den - digits == -rem;
    } else if 2 * rem > den {
      assert Magnitude(digits, den) * den - digits == den - rem;
    } else if q % 2 == 0 {
      assert Magnitude(digits, den) * den - digits == -rem;
    } else {
      assert Magnitude(digits, den) * den - digits == den - rem;
    }
  }

  /** Rounding lands within half a unit of the decimal, and on a tie it
      lands on an even integer. */
  lemma RoundIsNearestEven(d: Decimal)
    ensures var den: int := Pow10(d.scale);
            var gap := 2 * (RoundHalfEven(d) * den - Numerator(d));
            -den <= gap <= den && ((gap == den || gap == -den) ==> RoundHalfEven(d) % 2 == 0)
  {
    var den := Pow10(d.scale);
    var magnitude := Magnitude(d.digits, den);
    MagnitudeNearest(d.digits, den);
    var product := magnitude * den;
    if d.negative {
      assert RoundHalfEven(d) == -magnitude;
      assert RoundHalfEven(d) * den == -product;
      assert Numerator(d) == -(d.digits as int);
      assert magnitude % 2 == 0 ==> (-magnitude) % 2 == 0;
    } else {
      assert RoundHalfEven(d) == magnitude;
      assert Numerator(d) == d.digits;
    }
  }

}
