/**
 * PHP's conversions between numbers and strings as the trace reader uses them:
 * the (int) cast, integer-to-string, and sprintf('%f', ...) together with the string to
 * float reading that arithmetic on time strings performs. Times are modelled as
 * fixed-point values in micro-units (millionths), the precision '%f' prints.
 */
module Numbers {

  predicate IsDigit(c: char) {
    '0' <= c <= '9'
  }

  function DigitValue(c: char): nat
    requires IsDigit(c)
  {
    c as int - '0' as int
  }

  function DigitChar(d: nat): (c: char)
    requires d < 10
    ensures IsDigit(c) && DigitValue(c) == d
  {
    ('0' as int + d) as char
  }

  predicate AllDigits(s: string) {
    forall i :: 0 <= i < |s| ==> IsDigit(s[i])
  }

  /** The value of a run of decimal digits. */
  function DigitsValue(s: string): nat
    requires AllDigits(s)
  {
    if s == [] then 0 else 10 * DigitsValue(s[..|s| - 1]) + DigitValue(s[|s| - 1])
  }

  /** Decimal notation of a natural number, as PHP prints an int. */
  function NatToString(n: nat): (s: string)
    ensures |s| >= 1 && AllDigits(s)
  {
    if n < 10 then [DigitChar(n)] else NatToString(n / 10) + [DigitChar(n % 10)]
  }

  /** Reading the decimal notation of `n` gives back `n`. */
  lemma {:induction false} NatToStringValue(n: nat)
    ensures DigitsValue(NatToString(n)) == n
  {
    if n >= 10 {
      var s := NatToString(n);
      NatToStringValue(n / 10);
      assert s[..|s| - 1] == NatToString(n / 10);
    }
  }

  /** The (string) cast of an int. */
  function IntToString(n: int): (s: string)
  {
    if n < 0 then "-" + NatToString(-n) else NatToString(n)
  }

  /** The length of the run of digits that starts `s`. */
  function DigitRun(s: string): (k: nat)
    ensures k <= |s| && AllDigits(s[..k]) && (k == |s| || !IsDigit(s[k]))
  {
    if s == [] || !IsDigit(s[0]) then 0
    else
      var k := 1 + DigitRun(s[1..]);
      assert s[..k] == [s[0]] + s[1..][..k - 1];
      k
  }

  lemma {:induction false} DigitRunOfDigits(d: string, rest: string)
    requires AllDigits(d)
    requires rest == [] || !IsDigit(rest[0])
    ensures DigitRun(d + rest) == |d|
  {
    if d != [] {
      assert (d + rest)[1..] == d[1..] + rest;
      DigitRunOfDigits(d[1..], rest);
    }
  }

  /** The whitespace PHP allows in front of a numeric string. */
  predicate IsNumericSpace(c: char) {
    c == ' ' || c == '\t' || c == '\n' || c == '\r' || c == '\U{000B}' || c == '\U{000C}'
  }

  /** Every character is whitespace that the numeric casts skip. */
  predicate AllSpace(s: string) {
    forall i :: 0 <= i < |s| ==> IsNumericSpace(s[i])
  }

  function SkipSpace(s: string): (r: string)
    ensures |r| <= |s| && r == s[|s| - |r|..]
    ensures AllSpace(s[..|s| - |r|])
    ensures r == [] || !IsNumericSpace(r[0])
  {
    if s != [] && IsNumericSpace(s[0]) then SkipSpace(s[1..]) else s
  }

  /** The value of the digits that start `s` (0 when there are none). */
  function LeadingValue(s: string): nat
  {
    DigitsValue(s[..DigitRun(s)])
  }

  /**
   * The (int) cast of a string: leading whitespace, an optional sign, then as many
   * digits as follow; a string that does not start that way reads as 0.
   */
  function ParseInt(s: string): int
  {
    var t := SkipSpace(s);
    if t != [] && (t[0] == '-' || t[0] == '+') then
      var v: int := LeadingValue(t[1..]);
      if t[0] == '-' then -v else v
    else LeadingValue(t)
  }

  /** The (int) cast of a string of digits is its decimal value. */
  lemma ParseDigits(s: string)
    requires AllDigits(s)
    ensures ParseInt(s) == DigitsValue(s)
  {
    if s != [] {
      assert IsDigit(s[0]);
      NoLeadingSpace(s);
    }
    LeadingValueOfDigits(s);
  }

  /** Reading an int that PHP printed gives back the int. */
  lemma ParseIntToString(n: int)
    ensures ParseInt(IntToString(n)) == n
  {
    if n < 0 {
      NegativeRoundTrip(n);
    } else {
      ParseNonNegative(n);
    }
  }

  lemma NegativeRoundTrip(n: int)
    requires n < 0
    ensures ParseInt(IntToString(n)) == n
  {
    var d := NatToString(-n);
    assert IntToString(n) == "-" + d;
    ParseNegative(d);
    NatToStringValue(-n);
  }

  lemma ParseNonNegative(a: nat)
    ensures ParseInt(NatToString(a)) == a
  {
    ParseDigits(NatToString(a));
    NatToStringValue(a);
  }

  /** The (int) cast of a minus sign followed by digits is minus their decimal value. */
  lemma ParseNegative(d: string)
    requires AllDigits(d)
    ensures ParseInt("-" + d) == 0 - DigitsValue(d)
  {
    SignThen('-', d);
    NoLeadingSpace("-" + d);
    LeadingValueOfDigits(d);
  }

  lemma LeadingValueOfDigits(d: string)
    requires AllDigits(d)
    ensures LeadingValue(d) == DigitsValue(d)
  {
    DigitRunOfDigits(d, []);
    assert d + [] == d && d[..|d|] == d;
  }

  function Pow10(k: nat): (p: nat)
    ensures p >= 1
  {
    if k == 0 then 1 else 10 * Pow10(k - 1)
  }

  /** Micro-units per unit: '%f' prints six fraction digits. */
  const MicrosPerUnit: nat := 1000000

  /** The number of fraction digits '%f' prints. */
  const FractionDigits: nat := 6

  lemma Pow10Six()
    ensures Pow10(FractionDigits) == MicrosPerUnit
  {
    assert Pow10(6) == 1000000;
  }

  lemma DivBelow(k: nat, p: nat, q: nat)
    requires p > 0 && k < q * p
    ensures k / p < q
  {
  }

  /** `k` written with exactly `w` digits, zero-padded on the left. */
  function FixedDigits(k: nat, w: nat): (s: string)
    requires k < Pow10(w)
    ensures |s| == w && AllDigits(s)
  {
    if w == 0 then []
    else
      DivBelow(k, 10, Pow10(w - 1));
      FixedDigits(k / 10, w - 1) + [DigitChar(k % 10)]
  }

  /**
   * The first `w` fraction digits of `d` as a `w`-digit number: reading stops at the first
   * non-digit, and the positions after it count as zeros.
   */
  function FractionValue(d: string, w: nat): nat
  {
    if w == 0 then 0
    else
      var k := DigitRun(d);
      10 * FractionValue(d, w - 1) + (if w - 1 < k then assert d[..k][w - 1] == d[w - 1]; DigitValue(d[w - 1]) else 0)
  }

  /** Within the leading run of digits, the fraction value is the value of the digits read. */
  lemma {:induction false} FractionOfDigits(d: string, j: nat)
    requires j <= DigitRun(d)
    ensures AllDigits(d[..j]) && FractionValue(d, j) == DigitsValue(d[..j])
  {
    var k := DigitRun(d);
    assert forall i :: 0 <= i < j ==> d[..j][i] == d[..k][i];
    if j > 0 {
      FractionOfDigits(d, j - 1);
      assert d[..j][..j - 1] == d[..j - 1];
    }
  }

  /** Reading `w` digits written with FixedDigits gives back the number. */
  lemma {:induction false} DigitsOfFixed(k: nat, w: nat)
    requires k < Pow10(w)
    ensures DigitsValue(FixedDigits(k, w)) == k
  {
    if w > 0 {
      DivBelow(k, 10, Pow10(w - 1));
      var s := FixedDigits(k, w);
      DigitsOfFixed(k / 10, w - 1);
      assert s[..w - 1] == FixedDigits(k / 10, w - 1);
    }
  }

  lemma FractionOfFixed(k: nat, w: nat)
    requires k < Pow10(w)
    ensures FractionValue(FixedDigits(k, w), w) == k
  {
    var s := FixedDigits(k, w);
    DigitRunOfDigits(s, []);
    assert s + [] == s && s[..w] == s;
    FractionOfDigits(s, w);
    DigitsOfFixed(k, w);
  }

  /**
   * sprintf('%f', n / 1000000): a minus sign for negative values, the integer part,
   * a point and exactly six fraction digits.
   */
  function FormatMicros(n: int): (s: string)
    ensures |s| >= 8 && s[|s| - 7] == '.' && AllDigits(s[|s| - 6..])
  {
    (if n < 0 then "-" else "") + UnsignedText(if n < 0 then -n else n)
  }

  /** '%f' of a value that is not negative, in micro-units. */
  function UnsignedText(a: nat): (s: string)
    ensures |s| >= 8 && s[|s| - 7] == '.' && AllDigits(s[|s| - 6..])
  {
    Pow10Six();
    NatToString(a / MicrosPerUnit) + "." + FixedDigits(a % MicrosPerUnit, FractionDigits)
  }

  /**
   * The value, in micro-units, that PHP's arithmetic reads from a decimal string:
   * leading whitespace, an optional sign, integer digits, then optionally a point and
   * fraction digits, of which six are kept. A string that does not start that way reads as 0.
   */
  function ParseMicros(s: string): int
  {
    var t := SkipSpace(s);
    var u := if t != [] && (t[0] == '-' || t[0] == '+') then t[1..] else t;
    var m: int := UnsignedMicros(u);
    if t != [] && t[0] == '-' then -m else m
  }

  /** ParseMicros without the sign. */
  function UnsignedMicros(u: string): nat
  {
    var k := DigitRun(u);
    var fraction := if k < |u| && u[k] == '.' then FractionValue(u[k + 1..], FractionDigits) else 0;
    DigitsValue(u[..k]) * MicrosPerUnit + fraction
  }

  lemma UnsignedDecimal(q: nat, r: nat)
    requires r < Pow10(FractionDigits)
    ensures UnsignedMicros(NatToString(q) + "." + FixedDigits(r, FractionDigits)) == q * MicrosPerUnit + r
  {
    var whole := NatToString(q);
    var frac := FixedDigits(r, FractionDigits);
    var u := whole + "." + frac;
    assert u == whole + ("." + frac);
    DigitRunOfDigits(whole, "." + frac);
    assert u[..|whole|] == whole;
    assert u[|whole|] == '.';
    assert u[|whole| + 1..] == frac;
    NatToStringValue(q);
    FractionOfFixed(r, FractionDigits);
  }

  lemma ParseSigned(minus: bool, u: string)
    requires u != [] && IsDigit(u[0])
    ensures ParseMicros((if minus then "-" else "") + u) == if minus then 0 - UnsignedMicros(u) else UnsignedMicros(u)
  {
    if minus {
      ParseNegativeMicros(u);
    } else {
      assert "" + u == u;
      ParseUnsignedMicros(u);
    }
  }

  lemma ParseUnsignedMicros(u: string)
    requires u != [] && IsDigit(u[0])
    ensures ParseMicros(u) == UnsignedMicros(u)
  {
    NoLeadingSpace(u);
  }

  lemma ParseNegativeMicros(u: string)
    ensures ParseMicros("-" + u) == 0 - UnsignedMicros(u)
  {
    SignThen('-', u);
    NoLeadingSpace("-" + u);
  }

  lemma SignThen(c: char, u: string)
    ensures ([c] + u)[0] == c && ([c] + u)[1..] == u
  {
  }

  lemma NoLeadingSpace(s: string)
    requires s != [] && !IsNumericSpace(s[0])
    ensures SkipSpace(s) == s
  {
  }

  /** Reading back what '%f' printed gives the same number of micro-units. */
  lemma ParseFormatMicros(n: int)
    ensures ParseMicros(FormatMicros(n)) == n
  {
    var a: nat := if n < 0 then -n else n;
    Pow10Six();
    UnsignedDecimal(a / MicrosPerUnit, a % MicrosPerUnit);
    ParseSigned(n < 0, UnsignedText(a));
  }
}
