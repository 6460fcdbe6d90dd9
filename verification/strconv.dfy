/**
 * The parts of Go's integer arithmetic and of its `strconv` package that the
 * program relies on: the 64-bit `int`, two's-complement wrap-around of `*`,
 * `strconv.Atoi` and `strconv.Itoa`.
 */
module Strconv {

  const MinInt64: int := -0x8000_0000_0000_0000
  const MaxInt64: int := 0x7FFF_FFFF_FFFF_FFFF
  const Modulus64: int := 0x1_0000_0000_0000_0000

  /** Go's `int` on a 64-bit platform. */
  type Int64 = x: int | -0x8000_0000_0000_0000 <= x <= 0x7FFF_FFFF_FFFF_FFFF

  /**
   * The value a Go `int` operation yields when its exact result is `x`: the
   * unique 64-bit integer congruent to `x` modulo 2^64.
   */
  function Wrap64(x: int): (r: Int64)
    ensures MinInt64 <= x <= MaxInt64 ==> r == x
    ensures (x - r) % Modulus64 == 0
  {
    (x - MinInt64) % Modulus64 + MinInt64
  }

  /** Saturation at the bounds of `Int64`, as `strconv.ParseInt` does on a range error. */
  function Clamp64(x: int): Int64
  {
    if x < MinInt64 then MinInt64 else if x > MaxInt64 then MaxInt64 else x
  }

  predicate IsDigit(c: char) {
    '0' <= c <= '9'
  }

  predicate AllDigits(s: string) {
    forall i | 0 <= i < |s| :: IsDigit(s[i])
  }

  function DigitValue(c: char): nat
    requires IsDigit(c)
  {
    c as int - '0' as int
  }

  function DigitChar(d: nat): (c: char)
    requires d < 10
    ensures IsDigit(c) && DigitValue(c) == d
  {
    ('0' as int + d) as char
  }

  /** The number a string of decimal digits denotes, most significant digit first. */
  function DigitsValue(s: string): nat
    requires AllDigits(s)
  {
    if |s| == 0 then 0 else DigitsValue(s[..|s| - 1]) * 10 + DigitValue(s[|s| - 1])
  }

  /** `s` without its leading sign, if it has one. */
  function Unsigned(s: string): string {
    if |s| > 0 && (s[0] == '+' || s[0] == '-') then s[1..] else s
  }

  /** The strings `strconv.Atoi` accepts: an optional sign and at least one decimal digit. */
  predicate IsDecimal(s: string) {
    |Unsigned(s)| > 0 && AllDigits(Unsigned(s))
  }

  /**
   * `strconv.Atoi(s)` with its error discarded, as the program uses it: the
   * number `s` denotes, saturated at the `Int64` bounds, and 0 when `s` is not
   * a decimal numeral.
   */
  function Atoi(s: string): (r: Int64)
    ensures !IsDecimal(s) ==> r == 0
    ensures IsDecimal(s) && s[0] == '-' ==> r <= 0
    ensures IsDecimal(s) && s[0] != '-' ==> r >= 0
    ensures IsDecimal(s) && DigitsValue(Unsigned(s)) <= MaxInt64 ==>
      r == (if s[0] == '-' then -(DigitsValue(Unsigned(s)) as int) else DigitsValue(Unsigned(s)))
    ensures IsDecimal(s) && DigitsValue(Unsigned(s)) > MaxInt64 ==>
      r == (if s[0] == '-' then MinInt64 else MaxInt64)
  {
    if !IsDecimal(s) then 0
    else if s[0] == '-' then Clamp64(-(DigitsValue(Unsigned(s)) as int))
    else Clamp64(DigitsValue(Unsigned(s)))
  }

  /** The canonical decimal numeral of `n`: no sign and no leading zero. */
  function NatToDecimal(n: nat): (s: string)
    ensures |s| > 0 && AllDigits(s)
    ensures DigitsValue(s) == n
    ensures s[0] == '0' ==> s == "0"
    decreases n
  {
    if n < 10 then [DigitChar(n)]
    else
      var prefix := NatToDecimal(n / 10);
      var s := prefix + [DigitChar(n % 10)];
      assert s[..|s| - 1] == prefix;
      s
  }

  /** `strconv.Itoa(n)`: a minus sign for negative numbers, then the digits of |n|. */
  function Itoa(n: int): (s: string)
    ensures IsDecimal(s) && s[0] != '+'
    ensures s[0] == '-' <==> n < 0
    ensures ',' !in s && '\n' !in s
    ensures n == 0 ==> s == "0"
    ensures DigitsValue(Unsigned(s)) == (if n < 0 then -n else n)
    ensures Unsigned(s)[0] == '0' ==> Unsigned(s) == "0"
  {
    if n < 0 then
      var digits := NatToDecimal(-n);
      var s := "-" + digits;
      assert s[1..] == digits;
      s
    else NatToDecimal(n)
  }

  /** `Atoi` inverts `Itoa` on every Go `int`. */
  lemma AtoiItoa(n: Int64)
    ensures Atoi(Itoa(n)) == n
  {
  }

  /** Different Go `int`s are printed differently. */
  lemma ItoaInjective(m: Int64, n: Int64)
    ensures Itoa(m) == Itoa(n) ==> m == n
  {
  }

  /** A leading '+', leading zeros and a lone '-' are read as Go reads them. */
  lemma AtoiForms()
    ensures Atoi("+3") == 3 && Atoi("03") == 3 && Atoi("-0") == 0
    ensures Atoi("-") == 0 && Atoi("") == 0 && Atoi("3 ") == 0
  {
    assert Unsigned("+3") == "3";
    assert DigitsValue("03") == 3 by {
      assert "03"[..1] == "0";
      assert "0"[..0] == "";
    }
    assert Unsigned("-0") == "0";
    assert !IsDigit("3 "[1]);
  }

}
