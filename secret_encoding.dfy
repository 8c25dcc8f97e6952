/**
 * The secret argument executeUnlock passes to the contract's unlock: text that
 * starts with "0x" is taken as already hexadecimal; any other text is turned into
 * a bytes32 value, its UTF-8 bytes in hexadecimal right-padded with zeros.
 */
module SecretEncoding {
  import opened Wrappers
  import opened JsText
  import opened JsNumbers

  /** The hexadecimal digits of a bytes32 value. */
  const Bytes32HexDigits: nat := 64

  /** The prefix 0x, then the bytes in lower-case hexadecimal, padded at the end with '0' digits to 64. */
  function EncodeTextSecret(utf8: seq<bv8>): (r: string)
    ensures StartsWith(r, "0x")
    ensures |r| == 2 + Max(Bytes32HexDigits, 2 * |utf8|)
    ensures forall i | 2 <= i < |r| :: IsLowerHex(r[i])
    ensures r[2..2 + 2 * |utf8|] == BytesHex(utf8)
    ensures forall i | 2 + 2 * |utf8| <= i < |r| :: r[i] == '0'
  {
    var hex := BytesHex(utf8);
    var padded := PadEnd(hex, Bytes32HexDigits, '0');
    var r := "0x" + padded;
    assert r[2..] == padded;
    r
  }

  /**
   * The secret executeUnlock sends for the text typed in the dialog, given the
   * text's UTF-8 encoding: None when the text is empty (no call is made).
   */
  function UnlockSecret(secret: string, utf8: seq<bv8>): (r: Option<string>)
    ensures r.None? <==> secret == ""
    ensures StartsWith(secret, "0x") ==> r == Some(secret)
    ensures secret != "" && !StartsWith(secret, "0x") ==> r == Some(EncodeTextSecret(utf8))
    ensures r.Some? ==> StartsWith(r.value, "0x")
  {
    if secret == "" then None
    else if StartsWith(secret, "0x") then Some(secret)
    else Some(EncodeTextSecret(utf8))
  }

  /** k zero bytes. */
  function ZeroBytes(k: nat): (z: seq<bv8>)
    ensures |z| == k && forall i | 0 <= i < k :: z[i] == 0
  {
    seq(k, _ => 0 as bv8)
  }

  /**
   * The hexadecimal digits after "0x" denote the secret's bytes followed by zero
   * bytes up to 32: the text secret right-aligned into a bytes32 word, and never
   * cut short when it is longer than 32 bytes.
   */
  lemma {:induction false} EncodedWordBytes(utf8: seq<bv8>)
    ensures |EncodeTextSecret(utf8)[2..]| % 2 == 0
    ensures IsDigits(EncodeTextSecret(utf8)[2..], 16)
    ensures HexBytes(EncodeTextSecret(utf8)[2..]) == utf8 + ZeroBytes(Max(0, 32 - |utf8|))
  {
    var r := EncodeTextSecret(utf8);
    var h := r[2..];
    var n := 2 * |utf8|;
    var hex := BytesHex(utf8);
    var pad := h[n..];
    assert h[..n] == hex by {
      assert h[..n] == r[2..2 + n];
    }
    assert h == hex + pad;
    assert |pad| == Max(Bytes32HexDigits, n) - n;
    assert |pad| / 2 == Max(0, 32 - |utf8|);
    assert forall i | 0 <= i < |pad| :: pad[i] == r[2 + n + i];
    HexRoundTrip(utf8);
    ZerosHex(pad);
    HexBytesAppend(hex, pad);
  }

  /** A run of an even number of '0' digits denotes that many zero bytes, halved. */
  lemma {:induction false} ZerosHex(z: string)
    requires |z| % 2 == 0
    requires forall i | 0 <= i < |z| :: z[i] == '0'
    ensures IsDigits(z, 16) && HexBytes(z) == ZeroBytes(|z| / 2)
    decreases |z|
  {
    if z != [] {
      ZerosHex(z[2..]);
      assert HexBytes(z) == [0 as bv8] + HexBytes(z[2..]);
    }
  }

  /** A text secret of at most 32 bytes is sent as exactly a bytes32 value: "0x" and 64 digits. */
  lemma ShortSecretIsBytes32(secret: string, utf8: seq<bv8>)
    requires secret != "" && !StartsWith(secret, "0x") && |utf8| <= 32
    ensures UnlockSecret(secret, utf8).Some?
    ensures |UnlockSecret(secret, utf8).value| == 2 + Bytes32HexDigits
  {
  }

  /** What executeUnlock sends is itself taken unchanged if it is entered again: the encoding is idempotent. */
  lemma EncodingIsFixedPoint(secret: string, utf8: seq<bv8>, again: seq<bv8>)
    requires UnlockSecret(secret, utf8).Some?
    ensures UnlockSecret(UnlockSecret(secret, utf8).value, again) == UnlockSecret(secret, utf8)
  {
  }
}
