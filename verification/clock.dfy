/**
 * The UTC instant a batch is signed at, and the two `strftime` renderings
 * the signer takes from it: `%Y%m%d` and `%Y%m%dT%H%M%SZ`. Also Python's
 * `str(int)`, used for the expiry.
 */
module Clock {
  import opened Wrappers

  /** A UTC calendar instant, as `datetime.now(tz=timezone.utc)` yields it. */
  datatype Timestamp = Timestamp(year: int, month: int, day: int, hour: int, minute: int, second: int)
  {
    /** The ranges a `datetime` enforces. */
    predicate Valid() {
      1 <= year <= 9999 && 1 <= month <= 12 && 1 <= day <= DaysInMonth(year, month)
      && 0 <= hour < 24 && 0 <= minute < 60 && 0 <= second < 60
    }
  }

  predicate IsLeapYear(y: int) {
    y % 4 == 0 && (y % 100 != 0 || y % 400 == 0)
  }

  function DaysInMonth(y: int, m: int): int {
    if m == 2 then (if IsLeapYear(y) then 29 else 28)
    else if m == 4 || m == 6 || m == 9 || m == 11 then 30
    else 31
  }

  function Pow10(n: nat): (r: nat)
    ensures r >= 1
  {
    if n == 0 then 1 else 10 * Pow10(n - 1)
  }

  predicate IsDigit(c: char) {
    '0' <= c <= '9'
  }

  predicate AllDigits(s: string) {
    forall i :: 0 <= i < |s| ==> IsDigit(s[i])
  }

  function DigitChar(d: int): (c: char)
    requires 0 <= d < 10
    ensures IsDigit(c)
  {
    ('0' as int + d) as char
  }

  /** The number a string of decimal digits denotes. */
  function DigitsValue(s: string): nat
    requires AllDigits(s)
  {
    if s == [] then 0 else DigitsValue(s[..|s| - 1]) * 10 + (s[|s| - 1] as int - '0' as int)
  }

  /** `n` in exactly `width` decimal digits, zero-padded on the left (`%02d`, `%04d`). */
  function Padded(n: nat, width: nat): (s: string)
    ensures |s| == width && AllDigits(s)
  {
    if width == 0 then "" else Padded(n / 10, width - 1) + [DigitChar(n % 10)]
  }

  /** Zero-padding loses nothing when the number fits in the width. */
  lemma {:induction false} PaddedValue(n: nat, width: nat)
    requires n < Pow10(width)
    ensures DigitsValue(Padded(n, width)) == n
  {
    if width > 0 {
      var s := Padded(n, width);
      var p := Padded(n / 10, width - 1);
      assert s[..|s| - 1] == p;
      assert s[|s| - 1] as int - '0' as int == n % 10;
      LastDigitSplit(n, Pow10(width - 1));
      PaddedValue(n / 10, width - 1);
    }
  }

  /** Removing the last decimal digit of a number below `10 * q` leaves one below `q`. */
  lemma LastDigitSplit(n: nat, q: nat)
    requires n < 10 * q
    ensures n / 10 < q && n / 10 * 10 + n % 10 == n
  {
  }

  /** `%Y%m%d`: the date stamp of the credential scope. */
  function Datestamp(t: Timestamp): (s: string)
    requires t.Valid()
    ensures |s| == 8 && AllDigits(s)
  {
    Padded(t.year, 4) + Padded(t.month, 2) + Padded(t.day, 2)
  }

  /** `%Y%m%dT%H%M%SZ`: the value of `X-Amz-Date`. */
  function AmzDate(t: Timestamp): (s: string)
    requires t.Valid()
    ensures |s| == 16 && s[..8] == Datestamp(t) && s[8] == 'T' && s[15] == 'Z'
    ensures AllDigits(s[9..15])
  {
    Datestamp(t) + "T" + Padded(t.hour, 2) + Padded(t.minute, 2) + Padded(t.second, 2) + "Z"
  }

  /** An `X-Amz-Date` value holds only digits, `T` and `Z`. */
  lemma AmzDateExcludes(t: Timestamp, c: char)
    requires t.Valid()
    requires c != 'T' && c != 'Z' && !IsDigit(c)
    ensures c !in AmzDate(t)
  {
    var s := AmzDate(t);
    forall k | 0 <= k < |s|
      ensures s[k] != c
    {
      if k < 8 {
        assert s[k] == s[..8][k];
      } else if 9 <= k < 15 {
        assert s[k] == s[9..15][k - 9];
      }
    }
  }

  /** Reads an `X-Amz-Date` value back into an instant; None when it is not of that shape. */
  function ParseAmzDate(s: string): Option<Timestamp> {
    if |s| == 16 && s[8] == 'T' && s[15] == 'Z'
       && AllDigits(s[0..4]) && AllDigits(s[4..6]) && AllDigits(s[6..8])
       && AllDigits(s[9..11]) && AllDigits(s[11..13]) && AllDigits(s[13..15]) then
      Some(Timestamp(DigitsValue(s[0..4]), DigitsValue(s[4..6]), DigitsValue(s[6..8]),
                     DigitsValue(s[9..11]), DigitsValue(s[11..13]), DigitsValue(s[13..15])))
    else None
  }

  /** The `X-Amz-Date` rendering determines the instant it was made from. */
  lemma ParseAmzDateRoundTrip(t: Timestamp)
    requires t.Valid()
    ensures ParseAmzDate(AmzDate(t)) == Some(t)
  {
    var s := AmzDate(t);
    assert s[0..4] == Padded(t.year, 4);
    assert s[4..6] == Padded(t.month, 2);
    assert s[6..8] == Padded(t.day, 2);
    assert s[9..11] == Padded(t.hour, 2);
    assert s[11..13] == Padded(t.minute, 2);
    assert s[13..15] == Padded(t.second, 2);
    assert Pow10(2) == 100 && Pow10(4) == 10000;
    PaddedValue(t.year, 4);
    PaddedValue(t.month, 2);
    PaddedValue(t.day, 2);
    PaddedValue(t.hour, 2);
    PaddedValue(t.minute, 2);
    PaddedValue(t.second, 2);
  }

  /** The shortest decimal digits of `n`. */
  function Digits(n: nat): (s: string)
    ensures |s| >= 1 && AllDigits(s)
  {
    if n < 10 then [DigitChar(n)] else Digits(n / 10) + [DigitChar(n % 10)]
  }

  lemma {:induction false} DigitsValueOfDigits(n: nat)
    ensures DigitsValue(Digits(n)) == n
  {
    if n >= 10 {
      var s := Digits(n);
      assert s[..|s| - 1] == Digits(n / 10);
      DigitsValueOfDigits(n / 10);
    }
  }

  /** `str(i)` for a Python int: optional minus sign, then the digits. */
  function DecimalString(i: int): string {
    if i < 0 then "-" + Digits(-i) else Digits(i)
  }

  /** Reads `str(i)` back. */
  function ParseDecimal(s: string): Option<int> {
    if |s| >= 2 && s[0] == '-' && AllDigits(s[1..]) then Some(0 - DigitsValue(s[1..]) as int)
    else if |s| >= 1 && AllDigits(s) then Some(DigitsValue(s))
    else None
  }

  lemma DecimalRoundTrip(i: int)
    ensures ParseDecimal(DecimalString(i)) == Some(i)
  {
    if i < 0 {
      assert DecimalString(i)[1..] == Digits(-i);
      DigitsValueOfDigits(-i);
    } else {
      DigitsValueOfDigits(i);
    }
  }
}
