/**
 * The JavaScript string built-ins that the events view relies on, over Dafny strings:
 * String.prototype.substring, startsWith, padStart, padEnd and toLowerCase.
 */
module JsText {

  function Min(a: int, b: int): int { if a <= b then a else b }

  function Max(a: int, b: int): int { if a <= b then b else a }

  /** A substring argument as the built-in reads it: negative counts as 0, beyond the end as the length. */
  function Clamp(i: int, n: nat): (r: nat)
    ensures r <= n
    ensures 0 <= i <= n ==> r == i
    ensures i < 0 ==> r == 0
    ensures i > n ==> r == n
  {
    if i < 0 then 0 else if i > n then n else i
  }

  /**
   * s.substring(start, end): both indices are clamped to [0, |s|]; when the
   * clamped start is past the clamped end, the two are swapped.
   */
  function Substring(s: string, start: int, end: int): (r: string)
    ensures |r| <= |s|
    ensures 0 <= start <= end <= |s| ==> r == s[start..end]
    ensures 0 <= end <= start <= |s| ==> r == s[end..start]
    ensures start <= 0 && 0 <= end <= |s| ==> r == s[..end]
    ensures 0 <= start <= |s| <= end ==> r == s[start..]
    ensures start <= 0 && |s| <= end ==> r == s
    ensures end <= 0 && |s| <= start ==> r == s
    ensures 0 <= end <= |s| < start ==> r == s[end..]
    ensures end < 0 && 0 <= start <= |s| ==> r == s[..start]
    ensures (start < 0 && end < 0) || (start > |s| && end > |s|) ==> r == ""
  {
    var a, b := Clamp(start, |s|), Clamp(end, |s|);
    if a <= b then s[a..b] else s[b..a]
  }

  /** s.substring(start): the end defaults to the length of the string. */
  function SubstringFrom(s: string, start: int): (r: string)
    ensures r == s[Clamp(start, |s|)..]
  {
    Substring(s, start, |s|)
  }

  /** s.startsWith(p): the first |p| characters of s are those of p. */
  predicate StartsWith(s: string, p: string)
    ensures StartsWith(s, p) <==> |p| <= |s| && forall i | 0 <= i < |p| :: s[i] == p[i]
  {
    |p| <= |s| && s[..|p|] == p
  }

  /** k copies of the character c. */
  function Repeat(c: char, k: nat): (r: string)
    ensures |r| == k
    ensures forall i | 0 <= i < k :: r[i] == c
  {
    seq(k, _ => c)
  }

  /** s.padStart(n, fill) with a one-character fill: fill characters in front until the length is n. */
  function PadStart(s: string, n: nat, fill: char): (r: string)
    ensures |r| == Max(|s|, n)
    ensures r[|r| - |s|..] == s
    ensures forall i | 0 <= i < |r| - |s| :: r[i] == fill
  {
    if |s| >= n then s else Repeat(fill, n - |s|) + s
  }

  /** s.padEnd(n, fill) with a one-character fill: fill characters behind until the length is n. */
  function PadEnd(s: string, n: nat, fill: char): (r: string)
    ensures |r| == Max(|s|, n)
    ensures r[..|s|] == s
    ensures forall i | |s| <= i < |r| :: r[i] == fill
  {
    if |s| >= n then s else s + Repeat(fill, n - |s|)
  }

  /** The lower-case form of one character, restricted to the ASCII letters A-Z. */
  function LowerChar(c: char): (r: char)
    ensures 'A' <= c <= 'Z' ==> 'a' <= r <= 'z' && r as int - c as int == 'a' as int - 'A' as int
    ensures !('A' <= c <= 'Z') ==> r == c
  {
    if 'A' <= c <= 'Z' then (c as int - 'A' as int + 'a' as int) as char else c
  }

  /** s.toLowerCase() on ASCII text. */
  function Lower(s: string): (r: string)
    ensures |r| == |s|
    ensures forall i | 0 <= i < |s| :: r[i] == LowerChar(s[i])
    ensures forall i | 0 <= i < |s| :: !('A' <= r[i] <= 'Z')
  {
    seq(|s|, i requires 0 <= i < |s| => LowerChar(s[i]))
  }

  /** Lower-casing twice is lower-casing once. */
  lemma LowerIdempotent(s: string)
    ensures Lower(Lower(s)) == Lower(s)
  {
  }
}
