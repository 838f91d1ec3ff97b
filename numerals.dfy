/**
 * Rendering and reading natural numbers as digit strings: JavaScript's number-to-string
 * conversion for non-negative integers, `parseInt(s, 10)`, and the hexadecimal digit
 * strings of the token wire format.
 */
module Numerals {
  import opened Wrappers
  import Text

  /** The digit for `d` in bases up to 16, lower-case as JavaScript writes them. */
  function DigitChar(d: nat): char
    requires d < 16
  {
    if d < 10 then ('0' as int + d) as char else ('a' as int + d - 10) as char
  }

  /** The value of a digit character, or 16 for a character that is no digit at all. */
  function DigitValue(c: char): (v: nat)
    ensures v <= 16
  {
    if '0' <= c <= '9' then c as int - '0' as int
    else if 'a' <= c <= 'f' then c as int - 'a' as int + 10
    else 16
  }

  predicate IsDigitOf(c: char, base: nat) {
    DigitValue(c) < base
  }

  predicate AllDigitsOf(s: string, base: nat) {
    forall i :: 0 <= i < |s| ==> IsDigitOf(s[i], base)
  }

  lemma DigitRoundTrip(d: nat)
    requires d < 16
    ensures DigitValue(DigitChar(d)) == d
  {
  }

  /** The decimal digits of `n`, as `String(n)` writes a non-negative integer. */
  function ToDigits(n: nat): (s: string)
    ensures 0 < |s| && AllDigitsOf(s, 10)
    decreases n
  {
    if n < 10 then
      DigitRoundTrip(n);
      [DigitChar(n)]
    else
      DigitRoundTrip(n % 10);
      var s := ToDigits(n / 10) + [DigitChar(n % 10)];
      assert forall i :: 0 <= i < |s| - 1 ==> s[i] == ToDigits(n / 10)[i];
      s
  }

  /** The value of a string of digits in base 10 or 16, most significant first. */
  function FromDigits(s: string, base: nat): nat
    requires (base == 10 || base == 16) && AllDigitsOf(s, base)
    decreases |s|
  {
    if |s| == 0 then 0
    else
      var high := FromDigits(s[..|s| - 1], base);
      (if base == 10 then 10 * high else 16 * high) + DigitValue(s[|s| - 1])
  }

  lemma FromDigitsSnoc(s: string, c: char)
    requires AllDigitsOf(s + [c], 10)
    ensures AllDigitsOf(s, 10)
    ensures FromDigits(s + [c], 10) == 10 * FromDigits(s, 10) + DigitValue(c)
  {
    assert forall i :: 0 <= i < |s| ==> s[i] == (s + [c])[i];
    assert (s + [c])[..|s|] == s;
  }

  /** Reading back a rendered number gives the number. */
  lemma {:induction false} FromToDigits(n: nat)
    ensures FromDigits(ToDigits(n), 10) == n
    decreases n
  {
    if n < 10 {
      DigitRoundTrip(n);
      assert ToDigits(n)[..0] == [];
    } else {
      assert ToDigits(n) == ToDigits(n / 10) + [DigitChar(n % 10)];
      FromDigitsSnoc(ToDigits(n / 10), DigitChar(n % 10));
      FromToDigits(n / 10);
      DigitRoundTrip(n % 10);
    }
  }

  /** `n` in exactly `width` hexadecimal digits, keeping only the low-order ones. */
  function FixedHex(n: nat, width: nat): (s: string)
    ensures |s| == width && AllDigitsOf(s, 16)
    decreases width
  {
    if width == 0 then []
    else
      DigitRoundTrip(n % 16);
      FixedHex(n / 16, width - 1) + [DigitChar(n % 16)]
  }

  function Pow16(k: nat): (p: nat)
    ensures 0 < p
  {
    if k == 0 then 1 else 16 * Pow16(k - 1)
  }

  /** A fixed-width rendering of a number that fits is read back exactly. */
  lemma {:induction false} FromFixedHex(n: nat, width: nat)
    requires n < Pow16(width)
    ensures FromDigits(FixedHex(n, width), 16) == n
    decreases width
  {
    if width > 0 {
      assert n / 16 < Pow16(width - 1);
      FromFixedHex(n / 16, width - 1);
      var s := FixedHex(n, width);
      assert s[..|s| - 1] == FixedHex(n / 16, width - 1);
    }
  }

  /** The longest prefix of `s` made of decimal digits. */
  function DecimalPrefix(s: string): (r: string)
    ensures |r| <= |s| && r == s[..|r|] && AllDigitsOf(r, 10)
    ensures |r| < |s| ==> !IsDigitOf(s[|r|], 10)
    decreases |s|
  {
    if |s| > 0 && IsDigitOf(s[0], 10) then [s[0]] + DecimalPrefix(s[1..]) else []
  }

  /**
   * `parseInt(s, 10)`: skip leading whitespace, read an optional sign and the longest run
   * of decimal digits; `None` stands for `NaN`, the result when there is no digit.
   */
  function ParseInt(s: string): Option<int>
  {
    var t := Text.TrimStart(s);
    var negative := |t| > 0 && t[0] == '-';
    var unsigned := if |t| > 0 && (t[0] == '-' || t[0] == '+') then t[1..] else t;
    var digits := DecimalPrefix(unsigned);
    if |digits| == 0 then None
    else
      var v: int := FromDigits(digits, 10);
      Some(if negative then -v else v)
  }

  /** `parseInt` reads back the decimal rendering of any natural number. */
  lemma ParseIntDecimal(n: nat)
    ensures ParseInt(ToDigits(n)) == Some(n)
  {
    var s := ToDigits(n);
    assert Text.TrimStart(s) == s by {
      assert !Text.IsSpace(s[0]) by { assert IsDigitOf(s[0], 10); }
    }
    assert s[0] != '-' && s[0] != '+' by { assert IsDigitOf(s[0], 10); }
    PrefixOfDigits(s);
    FromToDigits(n);
  }

  /** A string of decimal digits is its own longest decimal prefix. */
  lemma {:induction false} PrefixOfDigits(s: string)
    requires AllDigitsOf(s, 10)
    ensures DecimalPrefix(s) == s
    decreases |s|
  {
    if |s| > 0 {
      PrefixOfDigits(s[1..]);
      assert [s[0]] + s[1..] == s;
    }
  }
}
