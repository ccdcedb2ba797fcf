/**
 * Python's `str()` applied to an integer: the ordinary signed decimal
 * numeral, with a leading '-' for negative values and no leading zeros.
 * The proof-of-work puzzle hashes this rendering of `n**2 - prevproof**5`,
 * which may be negative.
 */
module Decimal {

  function DigitChar(d: int): (c: char)
    requires 0 <= d < 10
    ensures '0' <= c <= '9'
    ensures DigitValue(c) == d
  {
    ('0' as int + d) as char
  }

  function DigitValue(c: char): int {
    c as int - '0' as int
  }

  predicate IsDigits(s: string) {
    forall i :: 0 <= i < |s| ==> '0' <= s[i] <= '9'
  }

  /** Decimal digits of a natural number, most significant first. */
  function NatToStr(n: nat): (s: string)
    ensures |s| >= 1 && IsDigits(s)
    ensures n > 0 ==> s[0] != '0'
    decreases n
  {
    if n < 10 then [DigitChar(n)] else NatToStr(n / 10) + [DigitChar(n % 10)]
  }

  /** `str(x)` for a Python int. */
  function IntToStr(x: int): (s: string)
    ensures |s| >= 1
    ensures s[0] == '-' <==> x < 0
    ensures x < 0 ==> |s| >= 2 && IsDigits(s[1..]) && s[1] != '0'
    ensures x >= 0 ==> IsDigits(s) && (x > 0 ==> s[0] != '0')
    ensures x == 0 ==> s == "0"
  {
    if x < 0 then "-" + NatToStr(-x) else NatToStr(x)
  }

  /** Reads a string of decimal digits back as a number. */
  function ParseNat(s: string): int
    decreases |s|
  {
    if s == [] then 0 else 10 * ParseNat(s[..|s| - 1]) + DigitValue(s[|s| - 1])
  }

  /** Reads a signed decimal numeral back as an integer. */
  function ParseInt(s: string): int {
    if |s| > 0 && s[0] == '-' then -ParseNat(s[1..]) else ParseNat(s)
  }

  lemma {:induction false} ParseNatToStr(n: nat)
    ensures ParseNat(NatToStr(n)) == n
    decreases n
  {
    if n >= 10 {
      var s := NatToStr(n);
      assert s[..|s| - 1] == NatToStr(n / 10);
      ParseNatToStr(n / 10);
    }
  }

  /** The rendering loses nothing: parsing `str(x)` gives back `x`. */
  lemma {:induction false} ParseIntToStr(x: int)
    ensures ParseInt(IntToStr(x)) == x
  {
    if x < 0 {
      assert IntToStr(x)[1..] == NatToStr(-x);
      ParseNatToStr(-x);
    } else {
      ParseNatToStr(x);
    }
  }

  /** Distinct puzzle operands are rendered as distinct digest inputs. */
  lemma IntToStrInjective(a: int, b: int)
    requires IntToStr(a) == IntToStr(b)
    ensures a == b
  {
    ParseIntToStr(a);
    ParseIntToStr(b);
  }
}
