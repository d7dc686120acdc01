/**
  Signed 64-bit integers as the sorter writes and reads them: the decimal
  rendering `long.ToString()` uses inside `Entity.ToString`, and the
  `long.TryParse` that `ParseEntityFromString` applies to a line's prefix
  (number style Integer: optional surrounding white space, an optional
  leading sign, one or more ASCII digits, and a range check; trailing
  '\0' characters after the number are accepted too).
 */
module Decimal {
  import opened Results

  const MinInt64: int := -0x8000_0000_0000_0000
  const MaxInt64: int := 0x7FFF_FFFF_FFFF_FFFF

  type Int64 = n: int | MinInt64 <= n <= MaxInt64

  predicate IsDigit(c: char)
  {
    '0' <= c <= '9'
  }

  predicate AllDigits(s: string)
  {
    forall i | 0 <= i < |s| :: IsDigit(s[i])
  }

  function DigitChar(d: int): (c: char)
    requires 0 <= d < 10
    ensures IsDigit(c)
  {
    (('0' as int) + d) as char
  }

  function DigitValue(c: char): int
    requires IsDigit(c)
  {
    c as int - '0' as int
  }

  /** The value of a digit string, most significant digit first. */
  function DigitsValue(s: string): nat
    requires AllDigits(s)
  {
    if |s| == 0 then 0 else DigitsValue(s[..|s| - 1]) * 10 + DigitValue(s[|s| - 1])
  }

  /** The shortest digit string of `n`: reading it back gives `n`. */
  function Digits(n: nat): (s: string)
    ensures 1 <= |s| && AllDigits(s)
    ensures DigitsValue(s) == n
    ensures s[0] == '0' <==> n == 0
    ensures n == 0 ==> s == "0"
  {
    if n < 10 then [DigitChar(n)]
    else
      var front := Digits(n / 10);
      var s := front + [DigitChar(n % 10)];
      assert s[..|s| - 1] == front;
      s
  }

  /**
    `long.ToString()`: a minus sign exactly for negative numbers, then the
    digits of the magnitude, with no leading '0' unless the number is 0.
   */
  function FormatInt64(n: Int64): (s: string)
    ensures 1 <= |s|
    ensures forall i | 0 <= i < |s| :: s[i] == '-' || IsDigit(s[i])
    ensures s[0] == '-' <==> n < 0
    ensures var digits := if n < 0 then s[1..] else s;
      && 1 <= |digits| && AllDigits(digits)
      && DigitsValue(digits) == (if n < 0 then -(n as int) else n as int)
      && (digits[0] == '0' ==> digits == "0")
  {
    if n < 0 then "-" + Digits(-(n as int)) else Digits(n)
  }

  /** `long.TryParse` reads back what `long.ToString()` writes. */
  lemma ParseFormatInt64(n: Int64)
    ensures TryParseInt64(FormatInt64(n)) == Some(n)
  {
    var s := FormatInt64(n);
    FormatUnpadded(n);
    var signed := s[0] == '-' || s[0] == '+';
    assert signed <==> n < 0;
    var body := if signed then s[1..] else s;
    assert AllDigits(body) && DigitsValue(body) == (if n < 0 then -(n as int) else n as int);
  }

  /** A rendered number has no padding for `long.TryParse` to strip. */
  lemma FormatUnpadded(n: Int64)
    ensures StripNumberPadding(FormatInt64(n)) == FormatInt64(n)
  {
    var s := FormatInt64(n);
    assert !IsNumberWhite(s[0]);
    assert s[|s| - 1] != '\0' && !IsNumberWhite(s[|s| - 1]);
  }

  /** White space `long.TryParse` skips around a number: U+0009..U+000D and U+0020. */
  predicate IsNumberWhite(c: char)
  {
    '\t' <= c <= '\r' || c == ' '
  }

  function SkipNumberWhite(s: string): (r: string)
    ensures |r| <= |s|
    ensures |s| > 0 && !IsNumberWhite(s[0]) ==> r == s
  {
    if |s| > 0 && IsNumberWhite(s[0]) then SkipNumberWhite(s[1..]) else s
  }

  function DropNumberWhite(s: string): (r: string)
    ensures |r| <= |s|
    ensures |s| > 0 && !IsNumberWhite(s[|s| - 1]) ==> r == s
  {
    if |s| > 0 && IsNumberWhite(s[|s| - 1]) then DropNumberWhite(s[..|s| - 1]) else s
  }

  /** Drops the '\0' characters at the end of `s`. */
  function DropTrailingNul(s: string): (r: string)
    ensures |r| <= |s|
    ensures |s| > 0 && s[|s| - 1] != '\0' ==> r == s
  {
    if |s| > 0 && s[|s| - 1] == '\0' then DropTrailingNul(s[..|s| - 1]) else s
  }

  /**
    What `long.TryParse` looks at between its padding: leading white
    space is skipped, and after the digits it allows white space and then
    any number of '\0' characters, which it accepts for compatibility.
   */
  function StripNumberPadding(s: string): (r: string)
    ensures |s| > 0 && !IsNumberWhite(s[0]) && !IsNumberWhite(s[|s| - 1]) && s[|s| - 1] != '\0' ==> r == s
  {
    DropNumberWhite(DropTrailingNul(SkipNumberWhite(s)))
  }

  /** Skipping leading white space commutes with appending a character that is not white space. */
  lemma {:induction false} SkipNumberWhiteSnoc(s: string, c: char)
    requires !IsNumberWhite(c)
    ensures SkipNumberWhite(s + [c]) == SkipNumberWhite(s) + [c]
  {
    if |s| > 0 && IsNumberWhite(s[0]) {
      assert (s + [c])[1..] == s[1..] + [c];
      SkipNumberWhiteSnoc(s[1..], c);
    }
  }

  /** A trailing '\0' never changes what `long.TryParse` returns. */
  lemma TrailingNulIgnored(s: string)
    ensures TryParseInt64(s + ['\0']) == TryParseInt64(s)
  {
    SkipNumberWhiteSnoc(s, '\0');
    var t := SkipNumberWhite(s);
    assert (t + ['\0'])[..|t|] == t;
  }

  /** The padding as .NET orders it: white space, then '\0', after the digits, and not the other way round. */
  lemma PaddingOrder()
    ensures TryParseInt64("12 \0\0") == Some(12)
    ensures TryParseInt64("12\0 ") == None
  {
    assert DropTrailingNul("12 \0\0") == "12 " by {
      assert "12 \0\0"[..4] == "12 \0";
      assert "12 \0"[..3] == "12 ";
    }
    assert DropNumberWhite("12 ") == "12" by {
      assert "12 "[..2] == "12";
    }
    assert DigitsValue("12") == 12;
    assert !AllDigits("12\0") by {
      assert !IsDigit("12\0"[2]);
    }
  }

  /** `long.TryParse(s, out n)`: `Some(n)` on success, `None` when it returns false. */
  function TryParseInt64(s: string): Option<Int64>
  {
    var t := StripNumberPadding(s);
    var signed := |t| > 0 && (t[0] == '-' || t[0] == '+');
    var body := if signed then t[1..] else t;
    if |body| == 0 || !AllDigits(body) then None
    else
      var v: int := if signed && t[0] == '-' then -(DigitsValue(body) as int) else DigitsValue(body);
      if MinInt64 <= v <= MaxInt64 then Some(v) else None
  }
}
