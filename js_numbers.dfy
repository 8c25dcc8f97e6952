/**
 * Integer text as JavaScript reads and writes it: the digits of a BigInt literal in
 * a radix, the decimal text BigInt.prototype.toString produces, and the lower-case
 * hexadecimal text Buffer.prototype.toString('hex') produces for bytes.
 */
module JsNumbers {

  /** The value of an alphanumeric character as a digit (0-9, then a/A = 10 up to z/Z = 35); 36 for any other character. */
  function DigitOf(c: char): (d: nat)
    ensures d <= 36
    ensures d < 10 <==> '0' <= c <= '9'
  {
    if '0' <= c <= '9' then c as int - '0' as int
    else if 'a' <= c <= 'z' then c as int - 'a' as int + 10
    else if 'A' <= c <= 'Z' then c as int - 'A' as int + 10
    else 36
  }

  /** Every character of s is a digit of the given radix. */
  predicate IsDigits(s: string, radix: nat) {
    forall i | 0 <= i < |s| :: DigitOf(s[i]) < radix
  }

  /** The number a string of digits denotes in the given radix, most significant digit first. */
  function DigitsValue(s: string, radix: nat): nat
    requires IsDigits(s, radix)
    decreases |s|
  {
    if s == [] then 0 else DigitsValue(s[..|s| - 1], radix) * radix + DigitOf(s[|s| - 1])
  }

  /** Decimal text in the form toString gives it: non-empty, digits only, no leading zero except "0" itself. */
  predicate IsCanonicalDecimal(s: string) {
    |s| >= 1 && IsDigits(s, 10) && (s[0] == '0' ==> s == "0")
  }

  /** The decimal digit character for d. */
  function DecimalChar(d: nat): (c: char)
    requires d < 10
    ensures '0' <= c <= '9' && DigitOf(c) == d
  {
    ('0' as int + d) as char
  }

  /** BigInt.prototype.toString() of a non-negative value: its decimal text. */
  function DecimalText(n: nat): (r: string)
    ensures IsCanonicalDecimal(r)
    ensures DigitsValue(r, 10) == n
    decreases n
  {
    if n < 10 then [DecimalChar(n)]
    else
      var t := DecimalText(n / 10);
      var r := t + [DecimalChar(n % 10)];
      assert r[..|r| - 1] == t;
      r
  }

  /** A number below 10^k has at most k decimal digits. */
  lemma {:induction false} DecimalTextLength(n: nat, k: nat)
    requires 1 <= k && n < Pow10(k)
    ensures |DecimalText(n)| <= k
    decreases k
  {
    if n >= 10 {
      assert n / 10 < Pow10(k - 1);
      DecimalTextLength(n / 10, k - 1);
      assert |DecimalText(n)| == |DecimalText(n / 10)| + 1;
    }
  }

  function Pow10(k: nat): (p: nat)
    ensures p >= 1
  {
    if k == 0 then 1 else 10 * Pow10(k - 1)
  }

  /** Zeros in front do not change the value of a decimal string. */
  lemma {:induction false} LeadingZeros(z: string, s: string)
    requires forall i | 0 <= i < |z| :: z[i] == '0'
    requires IsDigits(s, 10)
    ensures IsDigits(z + s, 10)
    ensures DigitsValue(z + s, 10) == DigitsValue(s, 10)
    decreases |s|
  {
    var zs := z + s;
    if s == [] {
      assert zs == z;
      ZerosValue(z);
    } else {
      assert zs[..|zs| - 1] == z + s[..|s| - 1];
      LeadingZeros(z, s[..|s| - 1]);
    }
  }

  lemma {:induction false} ZerosValue(z: string)
    requires forall i | 0 <= i < |z| :: z[i] == '0'
    ensures IsDigits(z, 10) && DigitsValue(z, 10) == 0
    decreases |z|
  {
    if z != [] {
      ZerosValue(z[..|z| - 1]);
    }
  }

  /** Decimal text that starts with a non-zero digit denotes a positive number. */
  lemma {:induction false} LeadingDigitPositive(s: string)
    requires |s| >= 1 && IsDigits(s, 10) && s[0] != '0'
    ensures DigitsValue(s, 10) >= 1
    decreases |s|
  {
    if |s| > 1 {
      LeadingDigitPositive(s[..|s| - 1]);
    }
  }

  /** toString inverts the reading of canonical decimal text: the two are a bijection. */
  lemma {:induction false} DecimalTextOfValue(s: string)
    requires IsCanonicalDecimal(s)
    ensures DecimalText(DigitsValue(s, 10)) == s
    decreases |s|
  {
    var n := DigitsValue(s, 10);
    if |s| == 1 {
      assert s[..0] == [];
      assert n == DigitsValue(s[..0], 10) * 10 + DigitOf(s[0]);
      assert n == DigitOf(s[0]) < 10;
      assert DecimalText(n) == [DecimalChar(n)];
    } else {
      var t := s[..|s| - 1];
      LeadingDigitPositive(t);
      DecimalTextOfValue(t);
      assert n / 10 == DigitsValue(t, 10) && n % 10 == DigitOf(s[|s| - 1]);
      assert s == t + [s[|s| - 1]];
    }
  }

  /** A lower-case hexadecimal digit character, as Buffer's 'hex' encoding writes them. */
  predicate IsLowerHex(c: char) {
    '0' <= c <= '9' || 'a' <= c <= 'f'
  }

  function HexChar(d: nat): (c: char)
    requires d < 16
    ensures IsLowerHex(c) && DigitOf(c) == d
  {
    if d < 10 then DecimalChar(d) else ('a' as int + (d - 10)) as char
  }

  /** The two hexadecimal digits of one byte, high nibble first. */
  function ByteHex(b: bv8): (r: string)
    ensures |r| == 2
  {
    [HexChar(b as nat / 16), HexChar(b as nat % 16)]
  }

  /** The 'hex' encoding of a Node buffer: two lower-case digits per byte, in order. */
  function BytesHex(bs: seq<bv8>): (r: string)
    ensures |r| == 2 * |bs|
    ensures forall i | 0 <= i < |r| :: IsLowerHex(r[i])
  {
    if bs == [] then "" else ByteHex(bs[0]) + BytesHex(bs[1..])
  }

  /** The bytes that hexadecimal text denotes, two digits per byte. */
  function HexBytes(s: string): (bs: seq<bv8>)
    requires |s| % 2 == 0 && IsDigits(s, 16)
    ensures |bs| == |s| / 2
  {
    if s == [] then [] else [(DigitOf(s[0]) * 16 + DigitOf(s[1])) as bv8] + HexBytes(s[2..])
  }

  /** Reading the hexadecimal text of some bytes gives the bytes back. */
  lemma {:induction false} HexRoundTrip(bs: seq<bv8>)
    ensures IsDigits(BytesHex(bs), 16)
    ensures HexBytes(BytesHex(bs)) == bs
  {
    if bs != [] {
      HexRoundTrip(bs[1..]);
      var h := BytesHex(bs);
      assert h[2..] == BytesHex(bs[1..]);
      ByteHexRoundTrip(bs[0]);
    }
  }

  /** The two digits of one byte read back as the byte. */
  lemma ByteHexRoundTrip(b: bv8)
    ensures (DigitOf(ByteHex(b)[0]) * 16 + DigitOf(ByteHex(b)[1])) as bv8 == b
  {
    var n := b as nat;
    NibbleDigits(b);
    NibblesRebuildByte(b);
    assert DigitOf(ByteHex(b)[0]) * 16 + DigitOf(ByteHex(b)[1]) == n / 16 * 16 + n % 16;
  }

  /** The digits ByteHex writes are the high and the low nibble. */
  lemma NibbleDigits(b: bv8)
    ensures DigitOf(ByteHex(b)[0]) == b as nat / 16
    ensures DigitOf(ByteHex(b)[1]) == b as nat % 16
  {
    var n := b as nat;
    assert ByteHex(b) == [HexChar(n / 16), HexChar(n % 16)];
  }

  /** The high nibble times 16 plus the low nibble is the byte. */
  lemma NibblesRebuildByte(b: bv8)
    ensures (b as nat / 16 * 16 + b as nat % 16) as bv8 == b
  {
    var n := b as nat;
    DivModSixteen(n);
    assert n < 256;
  }

  lemma DivModSixteen(n: nat)
    ensures n / 16 * 16 + n % 16 == n
  {
  }

  /** HexBytes distributes over concatenation at an even boundary. */
  lemma {:induction false} HexBytesAppend(s: string, t: string)
    requires |s| % 2 == 0 && IsDigits(s, 16)
    requires |t| % 2 == 0 && IsDigits(t, 16)
    ensures IsDigits(s + t, 16)
    ensures HexBytes(s + t) == HexBytes(s) + HexBytes(t)
    decreases |s|
  {
    if s != [] {
      assert (s + t)[2..] == s[2..] + t;
      HexBytesAppend(s[2..], t);
    } else {
      assert s + t == t;
    }
  }
}
