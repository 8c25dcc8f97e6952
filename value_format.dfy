/**
 * formatValue of the events view: an amount in the token's smallest unit shown as
 * a fixed-point decimal with six fractional digits (the amount divided by 10^6).
 */
module ValueFormat {
  import opened Wrappers
  import opened JsText
  import opened JsNumbers

  /** The divisor: one whole token is 10^6 smallest units. */
  const Scale: nat := 1_000_000

  /** The width the fractional part is padded to. */
  const FracDigits: nat := 6

  /**
   * The values formatValue is handed: null or undefined, a BigInt (amounts are
   * unsigned on chain), or a string that BigInt may or may not convert.
   */
  datatype RawValue = Missing | Big(n: nat) | Text(s: string)

  /**
   * The values for which `!value` holds in JavaScript: null and undefined always,
   * a BigInt exactly when it is zero, a string exactly when it is empty.
   */
  predicate IsFalsy(v: RawValue)
    ensures v.Missing? ==> IsFalsy(v)
    ensures v.Big? ==> (IsFalsy(v) <==> v.n == 0)
    ensures v.Text? ==> (IsFalsy(v) <==> |v.s| == 0)
  {
    v == Missing || v == Big(0) || v == Text("")
  }

  /** A radix literal's digits, if they are non-empty and all valid in the radix. */
  function RadixDigits(digits: string, radix: nat): (r: Option<nat>)
    ensures r.Some? <==> digits != "" && IsDigits(digits, radix)
    ensures r.Some? ==> r.value == DigitsValue(digits, radix)
  {
    if digits != "" && IsDigits(digits, radix) then Some(DigitsValue(digits, radix)) else None
  }

  /**
   * BigInt(s) for a non-empty string: a decimal literal, or a hexadecimal, octal or
   * binary literal behind a 0x, 0o or 0b prefix (either case); None where BigInt throws.
   */
  function ParseBigInt(s: string): (r: Option<nat>)
    ensures r.Some? ==> s != ""
    ensures s != "" && IsDigits(s, 10) ==> r == Some(DigitsValue(s, 10))
    ensures !(|s| >= 2 && s[0] == '0' && s[1] in {'x', 'X', 'o', 'O', 'b', 'B'}) && !(s != "" && IsDigits(s, 10)) ==> r == None
    ensures |s| >= 2 && s[0] == '0' && (s[1] == 'x' || s[1] == 'X') ==>
      (r.Some? <==> |s| > 2 && IsDigits(s[2..], 16)) && (r.Some? ==> r.value == DigitsValue(s[2..], 16))
    ensures |s| >= 2 && s[0] == '0' && (s[1] == 'o' || s[1] == 'O') ==>
      (r.Some? <==> |s| > 2 && IsDigits(s[2..], 8)) && (r.Some? ==> r.value == DigitsValue(s[2..], 8))
    ensures |s| >= 2 && s[0] == '0' && (s[1] == 'b' || s[1] == 'B') ==>
      (r.Some? <==> |s| > 2 && IsDigits(s[2..], 2)) && (r.Some? ==> r.value == DigitsValue(s[2..], 2))
  {
    if |s| >= 2 && s[0] == '0' && (s[1] == 'x' || s[1] == 'X') then RadixDigits(s[2..], 16)
    else if |s| >= 2 && s[0] == '0' && (s[1] == 'o' || s[1] == 'O') then RadixDigits(s[2..], 8)
    else if |s| >= 2 && s[0] == '0' && (s[1] == 'b' || s[1] == 'B') then RadixDigits(s[2..], 2)
    else RadixDigits(s, 10)
  }

  /**
   * The body of the try block: the quotient by 10^6 in decimal, a point, and the
   * remainder in decimal left-padded with zeros to six digits.
   */
  function FormatAmount(n: nat): (r: string)
    ensures |r| >= FracDigits + 2 && r[|r| - FracDigits - 1] == '.'
    ensures IsCanonicalDecimal(r[..|r| - FracDigits - 1])
    ensures DigitsValue(r[..|r| - FracDigits - 1], 10) == n / Scale
    ensures IsDigits(r[|r| - FracDigits..], 10)
    ensures DigitsValue(r[|r| - FracDigits..], 10) == n % Scale
  {
    var intText := DecimalText(n / Scale);
    var remText := DecimalText(n % Scale);
    DecimalTextLength(n % Scale, FracDigits);
    var fracText := PadStart(remText, FracDigits, '0');
    LeadingZeros(fracText[..|fracText| - |remText|], remText);
    assert fracText == fracText[..|fracText| - |remText|] + remText;
    var r := intText + "." + fracText;
    assert r[..|r| - FracDigits - 1] == intText;
    assert r[|r| - FracDigits..] == fracText;
    r
  }

  /**
   * formatValue(value): "0" for a falsy value, the fixed-point text of the amount
   * when BigInt converts it, and the value itself when BigInt throws.
   */
  function FormatValue(v: RawValue): (r: string)
    ensures IsFalsy(v) ==> r == "0"
    ensures v.Big? && v.n > 0 ==> r == FormatAmount(v.n)
    ensures v.Text? && v.s != "" && ParseBigInt(v.s).Some? ==> r == FormatAmount(ParseBigInt(v.s).value)
    ensures v.Big? ==> ReadAmount(r) == Some(v.n)
    ensures v.Text? && v.s != "" && ParseBigInt(v.s).Some? ==> ReadAmount(r) == ParseBigInt(v.s)
    ensures v.Text? && v.s != "" && ParseBigInt(v.s).None? ==> r == v.s
  {
    match v
    case Missing => "0"
    case Big(n) => if n == 0 then ZeroReadsBack(); "0" else AmountReadsBack(n); FormatAmount(n)
    case Text(s) =>
      if s == "" then "0"
      else match ParseBigInt(s)
        case Some(n) => AmountReadsBack(n); FormatAmount(n)
        case None => s
  }

  /**
   * The partner of FormatValue: reads displayed text back into smallest units.
   * "I.FFFFFF" is I * 10^6 + FFFFFF; plain digits "I" are I whole tokens.
   */
  function ReadAmount(t: string): (r: Option<nat>)
  {
    var k := |t| - FracDigits - 1;
    if k >= 1 && t[k] == '.' && IsDigits(t[..k], 10) && IsDigits(t[k + 1..], 10) then
      Some(DigitsValue(t[..k], 10) * Scale + DigitsValue(t[k + 1..], 10))
    else if t != "" && IsDigits(t, 10) then Some(DigitsValue(t, 10) * Scale)
    else None
  }

  /** The fixed-point text of an amount reads back as the amount. */
  lemma AmountReadsBack(n: nat)
    ensures ReadAmount(FormatAmount(n)) == Some(n)
  {
    var t := FormatAmount(n);
    var k := |t| - FracDigits - 1;
    assert t[k + 1..] == t[|t| - FracDigits..];
  }

  lemma ZeroReadsBack()
    ensures ReadAmount("0") == Some(0)
  {
    assert "0"[..0] == [];
  }

  /** Distinct amounts are displayed differently. */
  lemma FormatValueInjective(a: nat, b: nat)
    requires FormatValue(Big(a)) == FormatValue(Big(b))
    ensures a == b
  {
  }

  /**
   * Zero is displayed two ways: the BigInt 0n is falsy and shows "0", while the
   * non-empty string "0" is truthy, converts, and shows "0.000000".
   */
  lemma ZeroDisplay()
    ensures FormatValue(Big(0)) == "0"
    ensures FormatValue(Text("0")) == "0.000000"
  {
    assert DecimalText(0) == "0";
    assert PadStart("0", FracDigits, '0') == "000000";
  }

  /** A string holding the decimal text of a positive amount displays like the amount itself. */
  lemma TextAgreesWithBig(n: nat)
    requires n > 0
    ensures FormatValue(Text(DecimalText(n))) == FormatValue(Big(n))
  {
  }
}
