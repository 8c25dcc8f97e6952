/**
 * formatAddress and formatHash of the events view: a long hexadecimal string shown
 * as its first six characters, "..." and its last four.
 */
module AddressFormat {
  import opened Wrappers
  import opened JsText

  /** The first six characters, three dots, and the last four, each taken with substring's clamping. */
  function Abbreviate(s: string): (r: string)
    ensures r == s[..Min(6, |s|)] + "..." + s[Max(0, |s| - 4)..]
    ensures |r| == 3 + Min(6, |s|) + Min(4, |s|)
  {
    var head, tail := Substring(s, 0, 6), SubstringFrom(s, |s| - 4);
    assert head == s[..Min(6, |s|)];
    assert tail == s[Max(0, |s| - 4)..];
    head + "..." + tail
  }

  /** formatAddress(address): "" for a missing or empty address, the abbreviation otherwise. */
  function FormatAddress(address: Option<string>): (r: string)
    ensures r == "" <==> address == None || address == Some("")
    ensures address.Some? && address.value != "" ==>
      var s := address.value; r == s[..Min(6, |s|)] + "..." + s[Max(0, |s| - 4)..]
    ensures address.Some? && |address.value| >= 10 ==> |r| == 13
    ensures |r| <= 13
  {
    match address
    case None => ""
    case Some(s) => if s == "" then "" else Abbreviate(s)
  }

  /** formatHash(hash): the same display as formatAddress, for hashes and identifiers. */
  function FormatHash(hash: Option<string>): (r: string)
    ensures r == "" <==> hash == None || hash == Some("")
    ensures hash.Some? && hash.value != "" ==>
      var s := hash.value; r == s[..Min(6, |s|)] + "..." + s[Max(0, |s| - 4)..]
    ensures hash.Some? && |hash.value| >= 10 ==> |r| == 13
    ensures |r| <= 13
  {
    match hash
    case None => ""
    case Some(s) => if s == "" then "" else Abbreviate(s)
  }

  /**
   * For a string of ten characters or more the display keeps its first six and its
   * last four characters and stands "..." for what lies between.
   */
  lemma {:induction false} AbbreviationHidesMiddle(s: string)
    requires |s| >= 10
    ensures s == Abbreviate(s)[..6] + s[6..|s| - 4] + Abbreviate(s)[9..]
  {
    var r := Abbreviate(s);
    assert r[..6] == s[..6];
    assert r[9..] == s[|s| - 4..];
  }
}
