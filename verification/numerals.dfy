/** Decimal numerals: Java's `Integer.parseInt(s)` (radix 10) and the
    fixed-width digit strings the personal code is made of. */
module Numerals {
  import opened Results

  const IntMin: int := -0x8000_0000
  const IntMax: int := 0x7fff_ffff

  predicate IsDigit(c: char) {
    '0' <= c <= '9'
  }

  predicate IsDigits(s: string) {
    forall i | 0 <= i < |s| :: IsDigit(s[i])
  }

  function Pow10(n: nat): (p: nat)
    ensures p >= 1
  {
    if n == 0 then 1 else 10 * Pow10(n - 1)
  }

  /** The number a string of decimal digits spells, most significant first. */
  function DigitsValue(s: string): (v: nat)
    requires IsDigits(s)
    ensures v < Pow10(|s|)
  {
    if |s| == 0 then 0
    else DigitsValue(s[..|s| - 1]) * 10 + (s[|s| - 1] as int - '0' as int)
  }

  /** `Integer.parseInt(s)`: an optional `+` or `-` sign followed by at least
      one digit, whose value fits a 32-bit `int`; `None` stands for the
      `NumberFormatException` thrown otherwise. */
  function ParseInt(s: string): (r: Option<int>)
    ensures r.Some? ==> IntMin <= r.value <= IntMax
    ensures r.Some? ==> |s| >= 1 && r.value < Pow10(|s|)
    ensures r.Some? && r.value < 0 ==> 0 - Pow10(|s| - 1) < r.value
  {
    if |s| == 0 then None
    else
      var signed := s[0] == '-' || s[0] == '+';
      var digits := if signed then s[1..] else s;
      if |digits| == 0 || !IsDigits(digits) then None
      else
        var magnitude: int := DigitsValue(digits);
        var v := if s[0] == '-' then -magnitude else magnitude;
        if IntMin <= v <= IntMax then Some(v) else None
  }

  /** A plain digit string parses to the number it spells. */
  lemma ParseIntOfDigits(s: string)
    ensures |s| >= 1 && IsDigits(s) && DigitsValue(s) <= IntMax ==> ParseInt(s) == Some(DigitsValue(s))
  {
    if |s| >= 1 && IsDigits(s) {
      assert IsDigit(s[0]);
    }
  }

  /** A string holding a character that is neither a digit nor a leading
      sign does not parse. */
  lemma ParseIntRejectsNonDigit(s: string, i: int)
    requires 0 <= i < |s| && !IsDigit(s[i])
    requires i > 0 || (s[0] != '-' && s[0] != '+')
    ensures ParseInt(s) == None
  {
    if |s| >= 1 && (s[0] == '-' || s[0] == '+') {
      assert s[1..][i - 1] == s[i];
    }
  }

  function DigitChar(d: int): (c: char)
    requires 0 <= d <= 9
    ensures IsDigit(c) && c as int - '0' as int == d
  {
    ('0' as int + d) as char
  }

  /** The `width`-digit zero-padded decimal numeral of `n`. */
  function FixedDigits(n: nat, width: nat): (s: string)
    requires n < Pow10(width)
    ensures |s| == width && IsDigits(s)
  {
    if width == 0 then ""
    else FixedDigits(n / 10, width - 1) + [DigitChar(n % 10)]
  }

  /** Reading a zero-padded numeral gives back its number. */
  lemma {:induction false} DigitsValueOfFixedDigits(n: nat, width: nat)
    requires n < Pow10(width)
    ensures DigitsValue(FixedDigits(n, width)) == n
  {
    if width > 0 {
      var s := FixedDigits(n, width);
      assert s[..|s| - 1] == FixedDigits(n / 10, width - 1);
      DigitsValueOfFixedDigits(n / 10, width - 1);
    }
  }

  /** `Integer.parseInt` inverts zero-padding. */
  lemma ParseIntOfFixedDigits(n: nat, width: nat)
    requires 1 <= width && n < Pow10(width) && n <= IntMax
    ensures ParseInt(FixedDigits(n, width)) == Some(n)
  {
    DigitsValueOfFixedDigits(n, width);
    ParseIntOfDigits(FixedDigits(n, width));
  }
}
