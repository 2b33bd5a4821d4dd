/**
 * Decimal text of unsigned 64-bit integers: `u64::to_string` and
 * `u64::from_str` (the `parse::<u64>()` the id helpers call).
 */
module Decimal {
  import opened Wrappers

  /** 2^64: every u64 is below it. */
  const U64Limit: nat := 0x1_0000_0000_0000_0000

  predicate IsDigit(c: char)
  {
    '0' <= c <= '9'
  }

  predicate AllDigits(s: string)
  {
    forall i :: 0 <= i < |s| ==> IsDigit(s[i])
  }

  function DigitValue(c: char): (d: nat)
    requires IsDigit(c)
    ensures d < 10
  {
    c as int - '0' as int
  }

  function DigitChar(d: nat): (c: char)
    requires d < 10
    ensures IsDigit(c) && DigitValue(c) == d
  {
    ('0' as int + d) as char
  }

  /** The number a string of decimal digits denotes, most significant digit first. */
  function Value(s: string): nat
    requires AllDigits(s)
  {
    if s == [] then 0 else Value(s[..|s| - 1]) * 10 + DigitValue(s[|s| - 1])
  }

  /**
   * `u64::from_str`: an optional leading '+', then one or more decimal digits
   * (leading zeros allowed) whose value fits in 64 bits; anything else fails.
   */
  function ParseU64(s: string): (r: Option<nat>)
    ensures r.Some? ==> r.value < U64Limit
    ensures s != [] && AllDigits(s) && Value(s) < U64Limit ==> r == Some(Value(s))
    ensures s == [] || s == "+" ==> r.None?
    ensures s != [] && s[0] != '+' && !IsDigit(s[0]) ==> r.None?
    ensures (exists i :: 1 <= i < |s| && !IsDigit(s[i])) ==> r.None?
    ensures s != [] && AllDigits(s) && Value(s) >= U64Limit ==> r.None?
    ensures |s| > 1 && s[0] == '+' && AllDigits(s[1..]) && Value(s[1..]) < U64Limit ==> r == Some(Value(s[1..]))
    ensures |s| > 1 && s[0] == '+' && AllDigits(s[1..]) && Value(s[1..]) >= U64Limit ==> r.None?
  {
    var digits := if |s| > 0 && s[0] == '+' then s[1..] else s;
    if digits != [] && AllDigits(digits) && Value(digits) < U64Limit then Some(Value(digits)) else None
  }

  /** `u64::to_string`: the shortest decimal text of n. */
  function DecimalText(n: nat): (s: string)
    ensures s != [] && AllDigits(s) && Value(s) == n
    ensures |s| > 1 ==> s[0] != '0'
  {
    if n < 10 then [DigitChar(n)]
    else
      var s := DecimalText(n / 10) + [DigitChar(n % 10)];
      assert s[..|s| - 1] == DecimalText(n / 10);
      s
  }

  /** Parsing the decimal text of a u64 gives the number back. */
  lemma ParseDecimalText(n: nat)
    requires n < U64Limit
    ensures ParseU64(DecimalText(n)) == Some(n)
  {
    var s := DecimalText(n);
    assert IsDigit(s[0]);
  }

  /** Different numbers have different decimal texts. */
  lemma DecimalTextInjective(n: nat, m: nat)
    ensures DecimalText(n) == DecimalText(m) <==> n == m
  {
  }

  /** Numbers of 2^64 and above do not parse: `from_str` reports overflow. */
  lemma ParseRejectsOverflow(n: nat)
    requires n >= U64Limit
    ensures ParseU64(DecimalText(n)) == None
  {
    var s := DecimalText(n);
    assert IsDigit(s[0]);
  }

  /** `from_str` accepts a '+' sign and leading zeros, and rejects a '-' sign or no digits at all. */
  lemma ParseExamples()
    ensures ParseU64("+05") == Some(5)
    ensures ParseU64("-5") == None
    ensures ParseU64("") == None && ParseU64("+") == None
  {
    var digits := "+05"[1..];
    assert digits == "05";
    assert AllDigits(digits);
    assert digits[..1] == "0";
    assert Value("0") == 0 by {
      assert "0"[..0] == "";
    }
    assert Value(digits) == 5;
    assert !IsDigit("-5"[0]);
  }
}
