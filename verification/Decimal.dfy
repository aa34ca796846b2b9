/**
 Numbers as decimal text: what `str`, `int` and `%d` do with natural numbers, and how many digits a number of a given
 size has.
 */
module Decimal {
  predicate IsDigit(c: char) {
    '0' <= c <= '9'
  }

  function DigitValue(c: char): nat
    requires IsDigit(c)
  {
    c as int - '0' as int
  }

  function Digit(d: nat): char
    requires d < 10
  {
    ('0' as int + d) as char
  }

  function Dec(n: nat): (s: string)
    ensures s != "" && forall i :: 0 <= i < |s| ==> IsDigit(s[i])
  {
    (if n < 10 then [] else Dec(n / 10)) + [Digit(n % 10)]
  }

  /** The number the digits spell, continuing from `acc`. */
  function Parse(s: string, acc: nat): nat
    requires forall i :: 0 <= i < |s| ==> IsDigit(s[i])
  {
    if s == "" then acc else Parse(s[1..], acc * 10 + DigitValue(s[0]))
  }

  lemma {:induction false} ParseSnoc(s: string, c: char, acc: nat)
    requires forall i :: 0 <= i < |s| ==> IsDigit(s[i])
    requires IsDigit(c)
    ensures Parse(s + [c], acc) == Parse(s, acc) * 10 + DigitValue(c)
  {
    if s == "" {
      assert (s + [c])[1..] == "";
    } else {
      assert (s + [c])[1..] == s[1..] + [c];
      ParseSnoc(s[1..], c, acc * 10 + DigitValue(s[0]));
    }
  }

  lemma {:induction false} ParseDec(n: nat)
    ensures Parse(Dec(n), 0) == n
  {
    if n < 10 {
      assert Dec(n)[1..] == "";
    } else {
      ParseDec(n / 10);
      ParseSnoc(Dec(n / 10), Digit(n % 10), 0);
    }
  }

  lemma DecInjective(m: nat, n: nat)
    requires Dec(m) == Dec(n)
    ensures m == n
  {
    ParseDec(m);
    ParseDec(n);
  }

  function Pow10(k: nat): nat {
    if k == 0 then 1 else 10 * Pow10(k - 1)
  }

  /** A number has k digits exactly when it lies between the powers of ten on either side. */
  lemma {:induction false} DecLength(n: nat, k: nat)
    requires k > 0
    ensures |Dec(n)| <= k <==> n < Pow10(k)
  {
    if n < 10 {
      assert |Dec(n)| == 1;
      Pow10Grows(1, k);
    } else if k == 1 {
      assert Dec(n / 10) != "" && Pow10(1) == 10 * Pow10(0);
    } else {
      DecLength(n / 10, k - 1);
    }
  }

  lemma Pow10Grows(j: nat, k: nat)
    requires j <= k
    ensures Pow10(j) <= Pow10(k)
  {
  }
}
