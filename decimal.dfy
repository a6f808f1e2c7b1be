/**
 * Decimal rendering of a non-negative integer, the part of the integer
 * `to_string` that the renderer relies on (style and colour codes are never
 * negative), together with its inverse, the value of a string of digits.
 */
module Decimal {

  /** The ASCII digit character for a digit value. */
  function DigitChar(d: nat): (c: char)
    requires d < 10
    ensures '0' <= c <= '9'
  {
    ('0' as int + d) as char
  }

  /** The digit value of an ASCII digit character; inverse of DigitChar. */
  function DigitValue(c: char): (d: nat)
    requires '0' <= c <= '9'
    ensures d < 10 && DigitChar(d) == c
  {
    c as int - '0' as int
  }

  lemma DigitValueOfChar(d: nat)
    requires d < 10
    ensures DigitValue(DigitChar(d)) == d
  {
  }

  predicate AllDigits(s: string) {
    forall i :: 0 <= i < |s| ==> '0' <= s[i] <= '9'
  }

  /** A decimal numeral as `to_string` writes it: non-empty, digits only, no leading zero. */
  predicate Canonical(s: string) {
    |s| > 0 && AllDigits(s) && (|s| == 1 || s[0] != '0')
  }

  /** The decimal numeral of `n`, most significant digit first. */
  function Dec(n: nat): (r: string)
    ensures Canonical(r)
    ensures |r| == 1 <==> n < 10
    decreases n
  {
    if n < 10 then [DigitChar(n)]
    else Dec(n / 10) + [DigitChar(n % 10)]
  }

  /** The value of a string of digits, read most significant digit first. */
  function DecValue(s: string): (n: nat)
    requires AllDigits(s)
    decreases |s|
  {
    if s == [] then 0
    else DecValue(s[..|s| - 1]) * 10 + DigitValue(s[|s| - 1])
  }

  /** Reading back a rendered numeral gives the number. */
  lemma {:induction false} DecValueOfDec(n: nat)
    ensures DecValue(Dec(n)) == n
    decreases n
  {
    var r := Dec(n);
    if n < 10 {
      assert r[..|r| - 1] == [];
    } else {
      assert r[..|r| - 1] == Dec(n / 10);
      DecValueOfDec(n / 10);
      DigitValueOfChar(n % 10);
    }
  }

  /** A numeral with no leading zero and more than one digit is at least 10. */
  lemma {:induction false} DecValueAtLeast(s: string)
    requires Canonical(s)
    ensures s[0] != '0' ==> DecValue(s) >= 1
    ensures |s| > 1 ==> DecValue(s) >= 10
    decreases |s|
  {
    if |s| > 1 {
      var p := s[..|s| - 1];
      assert p[0] == s[0];
      DecValueAtLeast(p);
    } else {
      assert s[..|s| - 1] == [];
    }
  }

  /** Every canonical numeral is the rendering of its own value. */
  lemma {:induction false} DecOfDecValue(s: string)
    requires Canonical(s)
    ensures Dec(DecValue(s)) == s
    decreases |s|
  {
    var n := DecValue(s);
    var p := s[..|s| - 1];
    if |s| == 1 {
      assert p == [] && DecValue(p) == 0;
      assert n == DigitValue(s[0]);
      assert Dec(n) == [s[0]];
    } else {
      assert p[0] == s[0];
      DecValueAtLeast(s);
      DecOfDecValue(p);
      var d := DigitValue(s[|s| - 1]);
      assert n == DecValue(p) * 10 + d;
      assert n / 10 == DecValue(p) && n % 10 == d;
      assert s == p + [s[|s| - 1]];
    }
  }

  /** `Dec` is injective: distinct numbers have distinct numerals. */
  lemma DecInjective(m: nat, n: nat)
    requires Dec(m) == Dec(n)
    ensures m == n
  {
    DecValueOfDec(m);
    DecValueOfDec(n);
  }
}
