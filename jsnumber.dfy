/**
 * JavaScript's `parseFloat` and `parseInt` (with no radix), which the
 * browser side applies to what the user types. A number is kept as an exact
 * rational; rounding to a binary64 double is not modelled.
 */
module JsNumber {
  import opened Wrappers
  import opened JsText

  /** A JavaScript number as far as these parsers produce one. */
  datatype JsNum = Num(value: real) | NaN | Infinity(negative: bool)

  predicate IsDigit(c: char) {
    '0' <= c <= '9'
  }

  function DigitValue(c: char): (d: nat)
    requires IsDigit(c)
    ensures d < 10
  {
    c as int - '0' as int
  }

  function HexDigitValue(c: char): Option<nat> {
    if '0' <= c <= '9' then Some(c as int - '0' as int)
    else if 'a' <= c <= 'f' then Some(c as int - 'a' as int + 10)
    else if 'A' <= c <= 'F' then Some(c as int - 'A' as int + 10)
    else None
  }

  /** The number of leading decimal digits. */
  function LeadingDigits(s: string): (n: nat)
    ensures n <= |s|
    ensures forall i :: 0 <= i < n ==> IsDigit(s[i])
    ensures n < |s| ==> !IsDigit(s[n])
  {
    if |s| == 0 || !IsDigit(s[0]) then 0 else 1 + LeadingDigits(s[1..])
  }

  /** The number of leading hexadecimal digits. */
  function LeadingHexDigits(s: string): (n: nat)
    ensures n <= |s|
    ensures forall i :: 0 <= i < n ==> HexDigitValue(s[i]).Some?
    ensures n < |s| ==> HexDigitValue(s[n]).None?
  {
    if |s| == 0 || HexDigitValue(s[0]).None? then 0 else 1 + LeadingHexDigits(s[1..])
  }

  /** The value of a string of decimal digits, most significant first. */
  function DigitsValue(d: string): nat
    requires forall i :: 0 <= i < |d| ==> IsDigit(d[i])
  {
    if |d| == 0 then 0 else 10 * DigitsValue(d[..|d| - 1]) + DigitValue(d[|d| - 1])
  }

  /** The value of a string of hexadecimal digits, most significant first. */
  function HexValue(d: string): nat
    requires forall i :: 0 <= i < |d| ==> HexDigitValue(d[i]).Some?
  {
    if |d| == 0 then 0 else 16 * HexValue(d[..|d| - 1]) + HexDigitValue(d[|d| - 1]).value
  }

  function Pow10(k: nat): (r: nat)
    ensures r >= 1
  {
    if k == 0 then 1 else 10 * Pow10(k - 1)
  }

  /** 10 to an integer power, as a rational. */
  function Scale(e: int): (r: real)
    ensures r > 0.0
  {
    if e >= 0 then Pow10(e) as real else 1.0 / Pow10(-e) as real
  }

  /** An optional sign: its factor and the length it takes. */
  function Sign(s: string): (r: (int, nat))
    ensures r.1 <= |s| && (r.0 == 1 || r.0 == -1)
  {
    if |s| > 0 && s[0] == '-' then (-1, 1)
    else if |s| > 0 && s[0] == '+' then (1, 1)
    else (1, 0)
  }

  /** The exponent part `e`/`E`, an optional sign and at least one digit, if present: its value. */
  function Exponent(s: string): int {
    if |s| == 0 || (s[0] != 'e' && s[0] != 'E') then 0
    else
      var (sign, k) := Sign(s[1..]);
      var rest := s[1 + k..];
      var n := LeadingDigits(rest);
      if n == 0 then 0 else sign * DigitsValue(rest[..n])
  }

  /**
   * `parseFloat(s)`: leading white space is skipped, then the longest
   * prefix that is a decimal literal (an optional sign, then `Infinity` or
   * digits with an optional fraction and exponent) is read; NaN if there is
   * none.
   */
  function ParseFloat(s: string): (r: JsNum)
    ensures TrimStart(s) == [] ==> r.NaN?
    ensures |TrimStart(s)| > 0 && IsDigit(TrimStart(s)[0]) ==> r.Num? && r.value >= 0.0
    ensures r.Num? && r.value < 0.0 ==> TrimStart(s)[0] == '-'
  {
    var t := TrimStart(s);
    var (sign, k) := Sign(t);
    assert |t| > 0 && IsDigit(t[0]) ==> sign == 1 && k == 0 && !StartsWith(t, "Infinity");
    var rest := t[k..];
    if StartsWith(rest, "Infinity") then Infinity(sign < 0) else Decimal(sign, rest)
  }

  /** The decimal literal at the start of `rest`, after its sign: digits with an optional fraction and exponent. */
  function Decimal(sign: int, rest: string): (r: JsNum)
    requires sign == 1 || sign == -1
    ensures LeadingDigits(rest) > 0 ==> r.Num?
    ensures r.Num? && sign == 1 ==> r.value >= 0.0
    ensures r.Num? && sign == -1 ==> r.value <= 0.0
  {
    var ni := LeadingDigits(rest);
    var afterInt := rest[ni..];
    var hasDot := |afterInt| > 0 && afterInt[0] == '.';
    var nf := if hasDot then LeadingDigits(afterInt[1..]) else 0;
    if ni == 0 && nf == 0 then NaN
    else
      var fracPart := if hasDot then afterInt[1..1 + nf] else "";
      var afterNum := if hasDot then afterInt[1 + nf..] else afterInt;
      var mantissa := Mantissa(rest[..ni], fracPart);
      var scale := Scale(Exponent(afterNum) - nf);
      SignedScale(sign, mantissa, scale);
      Num(sign as real * mantissa as real * scale)
  }

  /** A scaled digit count takes the sign it is given. */
  lemma SignedScale(sign: int, mantissa: nat, scale: real)
    requires (sign == 1 || sign == -1) && scale > 0.0
    ensures sign == 1 ==> sign as real * mantissa as real * scale >= 0.0
    ensures sign == -1 ==> sign as real * mantissa as real * scale <= 0.0
  {
    assert mantissa as real * scale >= 0.0;
  }

  /** The integer the integer and fraction digits spell together. */
  function Mantissa(intPart: string, fracPart: string): nat
    requires forall i :: 0 <= i < |intPart| ==> IsDigit(intPart[i])
    requires forall i :: 0 <= i < |fracPart| ==> IsDigit(fracPart[i])
  {
    assert forall i :: 0 <= i < |intPart + fracPart| ==> IsDigit((intPart + fracPart)[i]) by {
      forall i | 0 <= i < |intPart + fracPart|
        ensures IsDigit((intPart + fracPart)[i])
      {
        if i >= |intPart| {
          assert (intPart + fracPart)[i] == fracPart[i - |intPart|];
        }
      }
    }
    DigitsValue(intPart + fracPart)
  }

  /**
   * `parseInt(s)` with no radix: leading white space is skipped, then an
   * optional sign, then hexadecimal digits after `0x`/`0X` or else decimal
   * digits, as many as there are; None (NaN) when there are none.
   */
  function ParseInt(s: string): (r: Option<int>)
    ensures TrimStart(s) == [] ==> r.None?
    ensures var t := TrimStart(s);
      |t| > 0 && IsDigit(t[0]) && (|t| == 1 || (t[1] != 'x' && t[1] != 'X')) ==> r.Some? && r.value >= 0
    ensures r.Some? && r.value < 0 ==> TrimStart(s)[0] == '-'
  {
    var t := TrimStart(s);
    var (sign, k) := Sign(t);
    var rest := t[k..];
    var magnitude := ParseMagnitude(rest);
    if magnitude.None? then None else Some(sign * magnitude.value)
  }

  /** The unsigned part of `parseInt`: hexadecimal after `0x`/`0X`, else decimal; None when no digit follows. */
  function ParseMagnitude(rest: string): (r: Option<nat>)
    ensures |rest| > 0 && IsDigit(rest[0]) && (|rest| == 1 || (rest[1] != 'x' && rest[1] != 'X')) ==> r.Some?
  {
    if StartsWith(rest, "0x") || StartsWith(rest, "0X") then
      var h := rest[2..];
      var n := LeadingHexDigits(h);
      if n == 0 then None else Some(HexValue(h[..n]))
    else
      var n := LeadingDigits(rest);
      if n == 0 then None else Some(DigitsValue(rest[..n]))
  }

  // ---------------------------------------------------------------------------
  // Decimal rendering, the partner of both parsers

  function DigitChar(d: nat): (c: char)
    requires d < 10
    ensures IsDigit(c) && DigitValue(c) == d
  {
    ('0' as int + d) as char
  }

  /** The decimal rendering of a natural number, as `String(n)` writes it. */
  function NatToString(n: nat): (s: string)
    ensures |s| >= 1 && forall i :: 0 <= i < |s| ==> IsDigit(s[i])
  {
    if n < 10 then [DigitChar(n)] else NatToString(n / 10) + [DigitChar(n % 10)]
  }

  /** Reading the digits of a rendering gives the number back. */
  lemma {:induction false} DigitsOfNatToString(n: nat)
    ensures DigitsValue(NatToString(n)) == n
  {
    var s := NatToString(n);
    if n >= 10 {
      DigitsOfNatToString(n / 10);
      assert s[..|s| - 1] == NatToString(n / 10);
    }
  }

  /** All the digits of a string of digits are leading digits. */
  lemma AllLeadingDigits(s: string)
    requires forall i :: 0 <= i < |s| ==> IsDigit(s[i])
    ensures LeadingDigits(s) == |s|
  {
    if |s| > 0 {
      AllLeadingDigits(s[1..]);
    }
  }

  /** A string of digits has no leading white space, sign, hexadecimal prefix or `Infinity`. */
  lemma DigitsShape(s: string)
    requires |s| >= 1 && forall i :: 0 <= i < |s| ==> IsDigit(s[i])
    ensures TrimStart(s) == s && Sign(s) == (1, 0)
    ensures !StartsWith(s, "0x") && !StartsWith(s, "0X") && !StartsWith(s, "Infinity")
    ensures LeadingDigits(s) == |s|
  {
    DigitsNoSpace(s);
    AllLeadingDigits(s);
    DigitsNoPrefix(s);
  }

  lemma DigitsNoPrefix(s: string)
    requires |s| >= 1 && forall i :: 0 <= i < |s| ==> IsDigit(s[i])
    ensures !StartsWith(s, "0x") && !StartsWith(s, "0X") && !StartsWith(s, "Infinity")
  {
    if |s| >= 2 {
      assert IsDigit(s[1]);
      Differs(s, "0x", 1);
      Differs(s, "0X", 1);
    } else {
      Shorter(s, "0x");
      Shorter(s, "0X");
    }
    assert IsDigit(s[0]);
    Differs(s, "Infinity", 0);
  }

  lemma Shorter(s: string, p: string)
    requires |s| < |p|
    ensures !StartsWith(s, p)
  {
  }

  lemma DigitsNoSpace(s: string)
    requires |s| >= 1 && IsDigit(s[0])
    ensures TrimStart(s) == s
  {
    assert LeadingSpaces(s) == 0;
    assert s[0..] == s;
  }

  /** A string that differs from `p` at an index below both lengths does not start with `p`. */
  lemma Differs(s: string, p: string, i: nat)
    requires i < |p| && (i < |s| ==> s[i] != p[i])
    ensures !StartsWith(s, p)
  {
  }

  /** `parseInt(String(n))` is `n`. */
  lemma ParseIntNatToString(n: nat)
    ensures ParseInt(NatToString(n)) == Some(n)
  {
    var s := NatToString(n);
    DigitsOfNatToString(n);
    DigitsShape(s);
    assert s[0..] == s && s[..|s|] == s;
  }

  /** `parseInt("-" + String(n))` is `-n`. */
  lemma ParseIntNegative(n: nat)
    ensures ParseInt("-" + NatToString(n)) == Some(-(n as int))
  {
    var s := NatToString(n);
    DigitsOfNatToString(n);
    DigitsShape(s);
    var m := "-" + s;
    assert LeadingSpaces(m) == 0;
    assert TrimStart(m) == m;
    assert Sign(m) == (-1, 1);
    assert m[1..] == s;
    assert s[..|s|] == s;
  }

  /** `parseFloat(String(n))` is `n`. */
  lemma ParseFloatNatToString(n: nat)
    ensures ParseFloat(NatToString(n)) == Num(n as real)
  {
    var s := NatToString(n);
    DigitsOfNatToString(n);
    DigitsShape(s);
    assert s[0..] == s && s[..|s|] == s && s[|s|..] == "";
    assert s + "" == s;
    assert Exponent("") == 0;
  }

  /** Text that does not start, after white space, with a sign, a digit, a point or `Infinity` is NaN. */
  lemma ParseFloatNaN(s: string)
    requires var t := TrimStart(s);
      |t| == 0 || (!IsDigit(t[0]) && t[0] != '+' && t[0] != '-' && t[0] != '.' && t[0] != 'I')
    ensures ParseFloat(s) == NaN
  {
  }

  /** Same for `parseInt`, where only a sign or a digit can start a number. */
  lemma ParseIntNaN(s: string)
    requires var t := TrimStart(s);
      |t| == 0 || (!IsDigit(t[0]) && t[0] != '+' && t[0] != '-')
    ensures ParseInt(s) == None
  {
  }
}
