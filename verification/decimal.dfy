/**
 * Decimal text of integers, as Rust's `Display` for `i64` writes it inside
 * `format!`: an optional '-' followed by the digits, with no leading zeros.
 */
module Decimal {
  import opened Options

  predicate IsDigit(c: char) {
    '0' <= c <= '9'
  }

  predicate AllDigits(s: string) {
    forall i :: 0 <= i < |s| ==> IsDigit(s[i])
  }

  /** A digit string as `Display` produces it: non-empty, and "0" is the only one starting with '0'. */
  predicate IsCanonical(s: string) {
    |s| > 0 && AllDigits(s) && (s[0] == '0' ==> |s| == 1)
  }

  function DigitChar(d: nat): (c: char)
    requires d < 10
    ensures IsDigit(c)
    ensures c == '0' <==> d == 0
  {
    ('0' as int + d) as char
  }

  function DigitValue(c: char): (d: nat)
    requires IsDigit(c)
    ensures d < 10
    ensures DigitChar(d) == c
  {
    c as int - '0' as int
  }

  /** The decimal digits of `n`, most significant first. */
  function NatToDecimal(n: nat): (s: string)
    ensures IsCanonical(s)
    ensures s[0] == '0' <==> n == 0
    decreases n
  {
    if n < 10 then [DigitChar(n)] else NatToDecimal(n / 10) + [DigitChar(n % 10)]
  }

  /** The number a digit string denotes. */
  function DecimalValue(s: string): nat
    requires AllDigits(s)
  {
    if |s| == 0 then 0 else DecimalValue(s[..|s| - 1]) * 10 + DigitValue(s[|s| - 1])
  }

  /**
   * `{}` applied to an `i64`: a '-' exactly for negative numbers, and digits
   * everywhere else. `PrintedIntParses` shows the digits denote the magnitude.
   */
  function IntToDecimal(i: int): (s: string)
    ensures |s| > 0 && (s[0] == '-' <==> i < 0)
    ensures forall k :: 0 <= k < |s| ==> IsDigit(s[k]) || (k == 0 && i < 0)
  {
    if i < 0 then "-" + NatToDecimal(-i) else NatToDecimal(i)
  }

  /** Reads back exactly the strings `IntToDecimal` writes; anything else is `None`. */
  function ParseInt(s: string): Option<int> {
    if |s| > 0 && s[0] == '-' then
      var digits := s[1..];
      if IsCanonical(digits) && digits[0] != '0' then Some(0 - DecimalValue(digits) as int) else None
    else if IsCanonical(s) then Some(DecimalValue(s))
    else None
  }

  lemma {:induction false} NatToDecimalValue(n: nat)
    ensures DecimalValue(NatToDecimal(n)) == n
    decreases n
  {
    if n >= 10 {
      var p := NatToDecimal(n / 10);
      NatToDecimalValue(n / 10);
      assert (p + [DigitChar(n % 10)])[..|p|] == p;
    }
  }

  lemma {:induction false} DecimalValuePositive(s: string)
    requires AllDigits(s) && |s| > 0 && s[0] != '0'
    ensures DecimalValue(s) > 0
    decreases |s|
  {
    if |s| > 1 {
      DecimalValuePositive(s[..|s| - 1]);
    }
  }

  lemma {:induction false} CanonicalDecimalRoundTrip(s: string)
    requires IsCanonical(s)
    ensures NatToDecimal(DecimalValue(s)) == s
    decreases |s|
  {
    if |s| > 1 {
      var p, c := s[..|s| - 1], s[|s| - 1];
      DecimalValuePositive(p);
      CanonicalDecimalRoundTrip(p);
      var n := DecimalValue(s);
      assert n == DecimalValue(p) * 10 + DigitValue(c);
      assert n / 10 == DecimalValue(p) && n % 10 == DigitValue(c);
      assert NatToDecimal(n) == NatToDecimal(n / 10) + [DigitChar(n % 10)];
      assert s == p + [c];
    }
  }

  lemma PrintedIntParses(i: int)
    ensures ParseInt(IntToDecimal(i)) == Some(i)
  {
    var s := IntToDecimal(i);
    if i < 0 {
      assert s[1..] == NatToDecimal(-i);
      NatToDecimalValue(-i);
    } else {
      NatToDecimalValue(i);
    }
  }

  lemma ParsedIntPrints(s: string, i: int)
    requires ParseInt(s) == Some(i)
    ensures IntToDecimal(i) == s
  {
    if |s| > 0 && s[0] == '-' {
      var digits := s[1..];
      CanonicalDecimalRoundTrip(digits);
      assert s == "-" + digits;
    } else {
      CanonicalDecimalRoundTrip(s);
    }
  }

  /** Printing and parsing an integer are inverse to each other, in both directions. */
  lemma ParseIntInverse(s: string, i: int)
    ensures ParseInt(s) == Some(i) <==> IntToDecimal(i) == s
  {
    if IntToDecimal(i) == s {
      PrintedIntParses(i);
    }
    if ParseInt(s) == Some(i) {
      ParsedIntPrints(s, i);
    }
  }

}
