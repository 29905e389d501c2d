/**
 * Bytes and their hexadecimal renderings: the lowercase form that
 * `hexdigest()` produces and the uppercase digits that percent-encoding uses.
 */
module Hex {
  import opened Wrappers

  newtype byte = x: int | 0 <= x < 256

  /** The lowercase hex digit for a nibble. */
  function LowerDigit(n: int): (c: char)
    requires 0 <= n < 16
    ensures IsLowerHexDigit(c) && DigitValue(c) == n
  {
    if n < 10 then ('0' as int + n) as char else ('a' as int + n - 10) as char
  }

  /** The uppercase hex digit for a nibble. */
  function UpperDigit(n: int): (c: char)
    requires 0 <= n < 16
    ensures IsUpperHexDigit(c) && DigitValue(c) == n
  {
    if n < 10 then ('0' as int + n) as char else ('A' as int + n - 10) as char
  }

  predicate IsLowerHexDigit(c: char) {
    '0' <= c <= '9' || 'a' <= c <= 'f'
  }

  predicate IsUpperHexDigit(c: char) {
    '0' <= c <= '9' || 'A' <= c <= 'F'
  }

  /** The value of a hex digit in either case; -1 for any other character. */
  function DigitValue(c: char): int {
    if '0' <= c <= '9' then c as int - '0' as int
    else if 'a' <= c <= 'f' then c as int - 'a' as int + 10
    else if 'A' <= c <= 'F' then c as int - 'A' as int + 10
    else -1
  }

  predicate IsLowerHex(s: string) {
    forall i :: 0 <= i < |s| ==> IsLowerHexDigit(s[i])
  }

  /** Two lowercase hex digits per byte, high nibble first. */
  function LowerHex(bs: seq<byte>): (s: string)
    ensures |s| == 2 * |bs|
    ensures IsLowerHex(s)
  {
    if bs == [] then ""
    else [LowerDigit(bs[0] as int / 16), LowerDigit(bs[0] as int % 16)] + LowerHex(bs[1..])
  }

  /** Reads pairs of hex digits back into bytes; None on an odd length or a non-digit. */
  function ParseHex(s: string): Option<seq<byte>>
    decreases |s|
  {
    if s == [] then Some([])
    else if |s| < 2 || DigitValue(s[0]) < 0 || DigitValue(s[1]) < 0 then None
    else match ParseHex(s[2..])
      case None => None
      case Some(rest) => Some([(DigitValue(s[0]) * 16 + DigitValue(s[1])) as byte] + rest)
  }

  /** The lowercase rendering loses nothing: it parses back to the same bytes. */
  lemma {:induction false} ParseLowerHex(bs: seq<byte>)
    ensures ParseHex(LowerHex(bs)) == Some(bs)
  {
    if bs != [] {
      var s := LowerHex(bs);
      assert s[2..] == LowerHex(bs[1..]);
      ParseLowerHex(bs[1..]);
      assert [bs[0]] + bs[1..] == bs;
    }
  }
}
