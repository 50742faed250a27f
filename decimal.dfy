/**
 * Decimal text <-> 32-bit signed integer, as the store's `incr` uses it:
 * Rust's `str::parse::<i32>` to read a stored value and `i32::to_string`
 * to write one back.
 */
module Decimal {
  import opened Optional

  /** Rust's `i32`. Arithmetic on it must stay in range: an overflow is a panic in a debug build. */
  newtype i32 = x: int | -0x8000_0000 <= x < 0x8000_0000

  predicate IsDigit(c: char) {
    '0' <= c <= '9'
  }

  predicate AllDigits(s: string) {
    forall i :: 0 <= i < |s| ==> IsDigit(s[i])
  }

  function DigitValue(c: char): (d: nat)
    requires IsDigit(c)
    ensures d < 10
  {
    c as int - '0' as int
  }

  function DigitChar(d: nat): (c: char)
    requires d < 10
    ensures IsDigit(c) && DigitValue(c) == d
  {
    ('0' as int + d) as char
  }

  /** The value of a run of decimal digits, most significant digit first (leading zeros allowed). */
  function DigitsValue(s: string): nat
    requires AllDigits(s)
  {
    if s == [] then 0 else DigitsValue(s[..|s| - 1]) * 10 + DigitValue(s[|s| - 1])
  }

  /**
   * Rust's grammar for a signed integer: one or more ASCII digits, possibly
   * after a single `+` or `-`. No whitespace, no second sign, no empty digit run.
   */
  predicate WellFormedInt(s: string) {
    || (|s| > 0 && AllDigits(s))
    || (|s| > 1 && (s[0] == '+' || s[0] == '-') && AllDigits(s[1..]))
  }

  /** The integer a text denotes under that grammar; the value is not yet range-checked. */
  function ParseInt(s: string): (r: Option<int>)
    ensures r.Some? <==> WellFormedInt(s)
    ensures |s| > 0 && AllDigits(s) ==> r == Some(DigitsValue(s))
    ensures r.Some? && s[0] == '+' ==> r.value == DigitsValue(s[1..])
    ensures r.Some? && s[0] == '-' ==> r.value == -(DigitsValue(s[1..]) as int)
  {
    if s == [] then None
    else
      var negative := s[0] == '-';
      var digits := if s[0] == '-' || s[0] == '+' then s[1..] else s;
      if digits == [] || !AllDigits(digits) then None
      else
        var magnitude: int := DigitsValue(digits);
        Some(if negative then -magnitude else magnitude)
  }

  /** Rust's `str::parse::<i32>`: `ParseInt`, failing when the value does not fit in 32 bits. */
  function ParseI32(s: string): (r: Option<i32>)
    ensures r.Some? <==> ParseInt(s).Some? && -0x8000_0000 <= ParseInt(s).value < 0x8000_0000
    ensures r.Some? ==> r.value as int == ParseInt(s).value
  {
    match ParseInt(s)
    case Some(v) => if -0x8000_0000 <= v < 0x8000_0000 then Some(v as i32) else None
    case None => None
  }

  /** Canonical decimal text of a natural number: digits only, no leading zero except for 0 itself. */
  function FormatNat(n: nat): (s: string)
    ensures |s| > 0 && AllDigits(s)
    ensures |s| > 1 ==> s[0] != '0'
    ensures DigitsValue(s) == n
  {
    if n < 10 then [DigitChar(n)]
    else
      var s := FormatNat(n / 10) + [DigitChar(n % 10)];
      assert s[..|s| - 1] == FormatNat(n / 10);
      s
  }

  /**
   * Rust's `to_string` on an integer: a `-` exactly for negatives, then the
   * canonical digits of the magnitude. Parsing the text gives the integer back.
   */
  function FormatInt(n: int): (s: string)
    ensures |s| > 0 && (s[0] == '-' <==> n < 0)
    ensures n < 0 ==> s[1..] == FormatNat(-n)
    ensures n >= 0 ==> s == FormatNat(n)
    ensures ParseInt(s) == Some(n)
  {
    if n < 0 then
      var s := "-" + FormatNat(-n);
      assert s[1..] == FormatNat(-n);
      s
    else
      var s := FormatNat(n);
      assert IsDigit(s[0]);
      s
  }

  /** The same round trip for an `i32`: `s.parse::<i32>()` of `n.to_string()` is `Ok(n)`. */
  lemma ParseFormatI32(n: i32)
    ensures ParseI32(FormatInt(n as int)) == Some(n)
  {
  }

  /** Parsing accepts texts that `to_string` never writes: an explicit `+` and leading zeros. */
  lemma ParseIsLenient()
    ensures ParseI32("+7") == Some(7) && ParseI32("007") == Some(7) && FormatInt(7) == "7"
  {
    assert DigitsValue("7") == 7;
    assert DigitsValue("00") == 0;
    assert DigitsValue("007") == 7;
    assert "+7"[1..] == "7";
  }

  /** Parsing rejects an empty text, a lone sign, a second sign and a non-digit. */
  lemma ParseRejectsMalformed()
    ensures ParseI32("") == None && ParseI32("-") == None && ParseI32("+-1") == None && ParseI32("1a") == None
  {
    assert !IsDigit("+-1"[1..][0]);
    assert !IsDigit("1a"[1]);
  }

  /** The range check is the `i32` one: 2^31 is refused, -2^31 accepted. */
  lemma ParseI32Range()
    ensures ParseI32("2147483648") == None && ParseI32("-2147483648") == Some(-0x8000_0000)
  {
    assert DigitsValue("2147483648") == 2147483648 by {
      assert "2147483648"[..9] == "214748364";
      assert DigitsValue("214748364") == 214748364 by {
        assert "214748364"[..8] == "21474836";
        assert "21474836"[..7] == "2147483";
        assert "2147483"[..6] == "214748";
        assert "214748"[..5] == "21474";
        assert "21474"[..4] == "2147";
        assert "2147"[..3] == "214";
        assert "214"[..2] == "21";
        assert "21"[..1] == "2";
      }
    }
    assert "-2147483648"[1..] == "2147483648";
  }
}
