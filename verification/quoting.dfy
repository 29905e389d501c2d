/**
 * Percent-encoding as `urllib.parse.quote(s, safe)` performs it: the string
 * is encoded as UTF-8, and every byte outside the unreserved set of section
 * 2.3 of RFC 3986 (letters, digits, `_`, `.`, `-`, `~`) and outside the
 * caller's extra safe characters becomes `%XX` with uppercase hex digits
 * (section 2.1 of RFC 3986).
 */
module Quoting {
  import opened Wrappers
  import opened Hex
  import opened Utf8

  /** Characters `quote` never encodes. */
  predicate IsUnreserved(c: char) {
    'A' <= c <= 'Z' || 'a' <= c <= 'z' || '0' <= c <= '9' || c == '_' || c == '.' || c == '-' || c == '~'
  }

  /** A character that stays literal: unreserved, or an ASCII member of `safe`. */
  predicate IsSafeChar(c: char, safe: string) {
    IsUnreserved(c) || (c as int < 0x80 && c in safe)
  }

  /** The encoding of one byte. */
  function QuoteByte(b: byte, safe: string): (r: string)
    ensures r == [(b as int) as char] || (|r| == 3 && r[0] == '%' && IsUpperHexDigit(r[1]) && IsUpperHexDigit(r[2]))
  {
    if b < 0x80 && IsSafeChar((b as int) as char, safe) then [(b as int) as char]
    else ['%', UpperDigit(b as int / 16), UpperDigit(b as int % 16)]
  }

  /** `quote_from_bytes`: the encodings of the bytes, in order. */
  function QuoteBytes(bs: seq<byte>, safe: string): (r: string)
    ensures forall i :: 0 <= i < |r| ==> r[i] == '%' || IsSafeChar(r[i], safe)
  {
    if bs == [] then "" else QuoteByte(bs[0], safe) + QuoteBytes(bs[1..], safe)
  }

  /** `quote(s, safe)` on a string. */
  function Quote(s: string, safe: string): string {
    QuoteBytes(Encode(s), safe)
  }

  /** Reverses percent-encoding back to bytes; None on a malformed escape or a non-ASCII character. */
  function Unquote(s: string): Option<seq<byte>>
    decreases |s|
  {
    if s == [] then Some([])
    else if s[0] == '%' then
      if |s| < 3 || DigitValue(s[1]) < 0 || DigitValue(s[2]) < 0 then None
      else match Unquote(s[3..])
        case None => None
        case Some(rest) => Some([(DigitValue(s[1]) * 16 + DigitValue(s[2])) as byte] + rest)
    else if s[0] as int < 0x80 then
      match Unquote(s[1..])
      case None => None
      case Some(rest) => Some([s[0] as int as byte] + rest)
    else None
  }

  lemma {:induction false} QuoteBytesAppend(a: seq<byte>, b: seq<byte>, safe: string)
    ensures QuoteBytes(a + b, safe) == QuoteBytes(a, safe) + QuoteBytes(b, safe)
  {
    if a != [] {
      assert (a + b)[1..] == a[1..] + b;
      QuoteBytesAppend(a[1..], b, safe);
    } else {
      assert a + b == b;
    }
  }

  /** Unquoting undoes quoting whenever `%` itself is not declared safe. */
  lemma {:induction false} UnquoteQuoteBytes(bs: seq<byte>, safe: string)
    requires '%' !in safe
    ensures Unquote(QuoteBytes(bs, safe)) == Some(bs)
  {
    if bs != [] {
      var q := QuoteByte(bs[0], safe);
      var s := QuoteBytes(bs, safe);
      assert s == q + QuoteBytes(bs[1..], safe);
      UnquoteQuoteBytes(bs[1..], safe);
      if |q| == 1 {
        assert s[0] != '%' && s[1..] == QuoteBytes(bs[1..], safe);
      } else {
        assert s[3..] == QuoteBytes(bs[1..], safe);
      }
      assert [bs[0]] + bs[1..] == bs;
    }
  }

  /** Distinct strings quote to distinct strings (when `%` is not safe). */
  lemma QuoteInjective(s: string, t: string, safe: string)
    requires '%' !in safe
    requires Quote(s, safe) == Quote(t, safe)
    ensures s == t
  {
    UnquoteQuoteBytes(Encode(s), safe);
    UnquoteQuoteBytes(Encode(t), safe);
    EncodeInjective(s, t);
  }

  /**
   * The character-level reading of `quote`: a safe ASCII character stands
   * for itself; any other character becomes `%XX` for each of its UTF-8 bytes.
   */
  function QuoteChar(c: char, safe: string): string {
    if c as int < 0x80 && IsSafeChar(c, safe) then [c] else PercentEscapes(EncodeChar(c))
  }

  /** `%XX` for every byte, unconditionally. */
  function PercentEscapes(bs: seq<byte>): (r: string)
    ensures |r| == 3 * |bs|
  {
    if bs == [] then "" else ['%', UpperDigit(bs[0] as int / 16), UpperDigit(bs[0] as int % 16)] + PercentEscapes(bs[1..])
  }

  function QuoteChars(s: string, safe: string): string {
    if s == [] then "" else QuoteChar(s[0], safe) + QuoteChars(s[1..], safe)
  }

  lemma {:induction false} QuoteBytesOfHighBytes(bs: seq<byte>, safe: string)
    requires forall i :: 0 <= i < |bs| ==> bs[i] >= 0x80
    ensures QuoteBytes(bs, safe) == PercentEscapes(bs)
  {
    if bs != [] {
      QuoteBytesOfHighBytes(bs[1..], safe);
    }
  }

  /** The byte-level definition agrees with the character-level reading. */
  lemma {:induction false} QuoteIsPerCharacter(s: string, safe: string)
    ensures Quote(s, safe) == QuoteChars(s, safe)
  {
    if s != [] {
      var c := s[0];
      var e := EncodeChar(c);
      assert Encode(s) == e + Encode(s[1..]);
      QuoteBytesAppend(e, Encode(s[1..]), safe);
      if c as int < 0x80 {
        assert e == [c as int as byte];
        assert QuoteBytes(e, safe) == QuoteByte(e[0], safe) + QuoteBytes([], safe);
        assert (e[0] as int) as char == c;
        if !IsSafeChar(c, safe) {
          assert PercentEscapes(e) == QuoteByte(e[0], safe) + PercentEscapes([]);
        }
      } else {
        QuoteBytesOfHighBytes(e, safe);
      }
      QuoteIsPerCharacter(s[1..], safe);
    }
  }

  lemma {:induction false} QuoteCharsAppend(s: string, t: string, safe: string)
    ensures QuoteChars(s + t, safe) == QuoteChars(s, safe) + QuoteChars(t, safe)
  {
    if s != [] {
      assert (s + t)[1..] == s[1..] + t;
      QuoteCharsAppend(s[1..], t, safe);
    } else {
      assert s + t == t;
    }
  }

  /** Every character of `s` is ASCII and safe. */
  predicate AllSafe(s: string, safe: string) {
    forall i :: 0 <= i < |s| ==> s[i] as int < 0x80 && IsSafeChar(s[i], safe)
  }

  /** A string made only of safe ASCII characters is left as it is. */
  lemma QuoteSafeString(s: string, safe: string)
    requires AllSafe(s, safe)
    ensures Quote(s, safe) == s
  {
    QuoteIsPerCharacter(s, safe);
    QuoteCharsSafe(s, safe);
  }

  lemma {:induction false} QuoteCharsSafe(s: string, safe: string)
    requires AllSafe(s, safe)
    ensures QuoteChars(s, safe) == s
  {
    if s != [] {
      QuoteCharsSafe(s[1..], safe);
    }
  }

  /** An unsafe ASCII character becomes `%` and its two uppercase hex digits. */
  lemma QuoteCharUnsafeAscii(c: char, safe: string)
    requires c as int < 0x80 && !IsSafeChar(c, safe)
    ensures QuoteChar(c, safe) == ['%', UpperDigit(c as int / 16), UpperDigit(c as int % 16)]
  {
    assert EncodeChar(c) == [c as int as byte];
    assert PercentEscapes([c as int as byte]) == ['%', UpperDigit(c as int / 16), UpperDigit(c as int % 16)] + PercentEscapes([]);
  }

  /** One unsafe ASCII character between safe text becomes a single `%XX`. */
  lemma QuoteOneEscape(a: string, c: char, b: string, safe: string)
    requires AllSafe(a, safe) && AllSafe(b, safe)
    requires c as int < 0x80 && !IsSafeChar(c, safe)
    ensures Quote(a + [c] + b, safe) == a + ['%', UpperDigit(c as int / 16), UpperDigit(c as int % 16)] + b
  {
    var e := ['%', UpperDigit(c as int / 16), UpperDigit(c as int % 16)];
    QuoteCharUnsafeAscii(c, safe);
    assert QuoteChars([c], safe) == e by {
      assert QuoteChars([c], safe) == QuoteChar(c, safe) + QuoteChars([], safe);
    }
    QuoteCharsAppend(a, [c], safe);
    QuoteCharsSafe(a, safe);
    assert QuoteChars(a + [c], safe) == a + e;
    QuoteCharsAppend(a + [c], b, safe);
    QuoteCharsSafe(b, safe);
    QuoteIsPerCharacter(a + [c] + b, safe);
  }
}
