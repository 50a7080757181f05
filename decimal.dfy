/** Base-10 numerals for unbounded natural numbers: the rendering that Rust's
    `Display` gives an unsigned integer (no sign, no padding, no leading zero,
    the single digit `0` for zero), and the parser that undoes it. */
module Decimal {

  /** `b` raised to the power `e`. */
  function Pow(b: nat, e: nat): nat
  {
    if e == 0 then 1 else b * Pow(b, e - 1)
  }

  lemma {:induction false} PowPositive(b: nat, e: nat)
    requires b >= 1
    ensures Pow(b, e) >= 1
  {
    if e > 0 {
      PowPositive(b, e - 1);
    }
  }

  lemma {:induction false} PowMonotonic(b: nat, i: nat, j: nat)
    requires b >= 1 && i <= j
    ensures Pow(b, i) <= Pow(b, j)
  {
    if i < j {
      PowMonotonic(b, i, j - 1);
      PowPositive(b, j - 1);
    }
  }

  lemma {:induction false} PowAdd(b: nat, i: nat, j: nat)
    ensures Pow(b, i + j) == Pow(b, i) * Pow(b, j)
  {
    if j > 0 {
      PowAdd(b, i, j - 1);
      assert Pow(b, i + j) == b * (Pow(b, i) * Pow(b, j - 1));
    }
  }

  predicate IsDigit(c: char)
  {
    '0' <= c <= '9'
  }

  function DigitChar(d: nat): (c: char)
    requires d < 10
    ensures IsDigit(c) && DigitValue(c) == d
  {
    ('0' as int + d) as char
  }

  function DigitValue(c: char): (d: nat)
    requires IsDigit(c)
    ensures d < 10
  {
    c as int - '0' as int
  }

  predicate AllDigits(s: string)
  {
    forall i :: 0 <= i < |s| ==> IsDigit(s[i])
  }

  /** A numeral as Rust prints an unsigned integer: at least one digit, digits
      only, and a leading `0` only in the numeral `0` itself. */
  predicate IsCanonical(s: string)
  {
    |s| >= 1 && AllDigits(s) && (s[0] == '0' ==> |s| == 1)
  }

  /** The decimal numeral of `n`, most significant digit first. */
  function Digits(n: nat): (s: string)
    ensures IsCanonical(s)
    ensures s[0] == '0' <==> n == 0
  {
    if n < 10 then [DigitChar(n)] else Digits(n / 10) + [DigitChar(n % 10)]
  }

  /** The value of a string of decimal digits, most significant first; the empty
      string has value 0. */
  function ParseDigits(s: string): (n: nat)
    requires AllDigits(s)
    ensures n < Pow(10, |s|)
  {
    if s == [] then 0
    else
      var init := s[..|s| - 1];
      assert AllDigits(init) by {
        forall i | 0 <= i < |init| ensures IsDigit(init[i]) { assert init[i] == s[i]; }
      }
      10 * ParseDigits(init) + DigitValue(s[|s| - 1])
  }

  /** A numeral whose first digit is not `0` is worth at least 10^(length - 1). */
  lemma {:induction false} ParseDigitsLower(s: string)
    requires AllDigits(s) && |s| >= 1 && s[0] != '0'
    ensures ParseDigits(s) >= Pow(10, |s| - 1)
  {
    if |s| > 1 {
      var init := s[..|s| - 1];
      assert init[0] == s[0];
      ParseDigitsLower(init);
    } else {
      assert DigitValue(s[0]) != 0;
    }
  }

  /** Parsing undoes rendering. */
  lemma {:induction false} ParseDigitsOfDigits(n: nat)
    ensures ParseDigits(Digits(n)) == n
  {
    if n >= 10 {
      var s := Digits(n);
      assert s[..|s| - 1] == Digits(n / 10);
      ParseDigitsOfDigits(n / 10);
    }
  }

  /** Rendering undoes parsing on canonical numerals, so `Digits` is a bijection
      between the naturals and the canonical numerals. */
  lemma {:induction false} DigitsOfParseDigits(s: string)
    requires IsCanonical(s)
    ensures Digits(ParseDigits(s)) == s
  {
    if |s| > 1 {
      var init := s[..|s| - 1];
      assert init[0] == s[0];
      assert IsCanonical(init) by {
        forall i | 0 <= i < |init| ensures IsDigit(init[i]) { assert init[i] == s[i]; }
      }
      ParseDigitsLower(init);
      PowPositive(10, |init| - 1);
      DigitsOfParseDigits(init);
      var d := DigitValue(s[|s| - 1]);
      var n := 10 * ParseDigits(init) + d;
      assert n / 10 == ParseDigits(init) && n % 10 == d;
      assert s == init + [s[|s| - 1]];
    }
  }

  /** Distinct numbers have distinct numerals. */
  lemma DigitsInjective(m: nat, n: nat)
    requires Digits(m) == Digits(n)
    ensures m == n
  {
    ParseDigitsOfDigits(m);
    ParseDigitsOfDigits(n);
  }

  /** The numeral of `n` has at most `k` digits exactly when `n < 10^k`. */
  lemma {:induction false} DigitsLength(n: nat, k: nat)
    requires k >= 1
    ensures |Digits(n)| <= k <==> n < Pow(10, k)
  {
    var s := Digits(n);
    ParseDigitsOfDigits(n);
    if |s| <= k {
      PowMonotonic(10, |s|, k);
    } else if n >= 1 {
      ParseDigitsLower(s);
      PowMonotonic(10, k, |s| - 1);
    }
  }
}
