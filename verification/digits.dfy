/**
 * Decimal digits and the decimal notation of natural numbers, as used by the
 * ISBN check (a run of ASCII digits) and by the `%d` conversion that formats
 * sequence ids.
 */
module Digits {

  /** An ASCII decimal digit: what the regular-expression class `\d` matches by default in Java. */
  predicate IsDigit(c: char) {
    '0' <= c <= '9'
  }

  predicate AllDigits(s: string) {
    forall i :: 0 <= i < |s| ==> IsDigit(s[i])
  }

  /** The numeric value of one digit character. */
  function DigitValue(c: char): (d: nat)
    requires IsDigit(c)
    ensures d < 10
  {
    c as int - '0' as int
  }

  /** The digit character for a value below ten; the inverse of `DigitValue`. */
  function DigitChar(d: nat): (c: char)
    requires d < 10
    ensures IsDigit(c) && DigitValue(c) == d
  {
    ('0' as int + d) as char
  }

  lemma DigitCharOfValue(c: char)
    requires IsDigit(c)
    ensures DigitChar(DigitValue(c)) == c
  {
  }

  function Pow10(k: nat): (p: nat)
    ensures p >= 1
  {
    if k == 0 then 1 else 10 * Pow10(k - 1)
  }

  /**
   * The shortest decimal notation of `n`, most significant digit first, as Java's
   * `%d` conversion writes a non-negative int: no sign and no leading zero except
   * for zero itself.
   */
  function Decimal(n: nat): string {
    if n < 10 then [DigitChar(n)] else Decimal(n / 10) + [DigitChar(n % 10)]
  }

  /** The notation is a non-empty digit string, starts with '0' only for zero, and is one digit long below ten. */
  lemma {:induction false} DecimalShape(n: nat)
    ensures |Decimal(n)| >= 1 && AllDigits(Decimal(n))
    ensures Decimal(n)[0] == '0' <==> n == 0
    ensures n < 10 <==> |Decimal(n)| == 1
  {
    if n >= 10 {
      DecimalShape(n / 10);
      assert Decimal(n)[0] == Decimal(n / 10)[0];
    }
  }

  /** The number a string of digits denotes, read most significant digit first. */
  function Value(s: string): nat
    requires AllDigits(s)
  {
    if |s| == 0 then 0 else Value(s[..|s| - 1]) * 10 + DigitValue(s[|s| - 1])
  }

  /** A digit string with no superfluous leading zero: the shape `Decimal` produces. */
  predicate Canonical(s: string) {
    |s| >= 1 && AllDigits(s) && (s[0] != '0' || |s| == 1)
  }

  /** Reading back the notation of `n` gives `n`. */
  lemma {:induction false} ValueOfDecimal(n: nat)
    ensures AllDigits(Decimal(n)) && Value(Decimal(n)) == n
  {
    DecimalShape(n);
    if n >= 10 {
      var d := Decimal(n / 10);
      assert Decimal(n) == d + [DigitChar(n % 10)];
      assert Decimal(n)[..|Decimal(n)| - 1] == d;
      ValueOfDecimal(n / 10);
    }
  }

  /** Every canonical digit string is the notation of the number it denotes. */
  lemma {:induction false} DecimalOfValue(s: string)
    requires Canonical(s)
    ensures Decimal(Value(s)) == s
  {
    if |s| == 1 {
      DigitCharOfValue(s[0]);
      assert s == [s[0]];
    } else {
      var p := s[..|s| - 1];
      var c := s[|s| - 1];
      assert Canonical(p);
      DecimalOfValue(p);
      assert p != "0" by { assert p[0] == s[0]; }
      assert Value(p) >= 1;
      var v := Value(s);
      assert v == Value(p) * 10 + DigitValue(c);
      assert v / 10 == Value(p) && v % 10 == DigitValue(c);
      DigitCharOfValue(c);
      assert s == p + [c];
    }
  }

  /** A leading zero does not change the value of a digit string. */
  lemma {:induction false} ValueLeadingZero(s: string)
    requires AllDigits(s)
    ensures Value(['0'] + s) == Value(s)
  {
    if |s| > 0 {
      var t := ['0'] + s;
      assert t[..|t| - 1] == ['0'] + s[..|s| - 1];
      ValueLeadingZero(s[..|s| - 1]);
    }
  }

  /** A run of `k` zero characters: the padding `%0Nd` writes before a short number. */
  function Zeros(k: nat): (z: string)
    ensures |z| == k && forall i :: 0 <= i < k ==> z[i] == '0'
  {
    if k == 0 then [] else ['0'] + Zeros(k - 1)
  }

  /** Any number of leading zeros leaves the value of a digit string unchanged. */
  lemma {:induction false} ValueLeadingZeros(k: nat, s: string)
    requires AllDigits(s)
    ensures AllDigits(Zeros(k) + s)
    ensures Value(Zeros(k) + s) == Value(s)
  {
    if k > 0 {
      ValueLeadingZeros(k - 1, s);
      var rest := Zeros(k - 1) + s;
      assert Zeros(k) + s == ['0'] + rest;
      ValueLeadingZero(rest);
    } else {
      assert Zeros(k) + s == s;
    }
  }

  /** The notation of `n` has at most `k` digits exactly when `n` is below 10^k. */
  lemma {:induction false} DecimalLength(n: nat, k: nat)
    requires k >= 1
    ensures n < Pow10(k) <==> |Decimal(n)| <= k
  {
    if n >= 10 {
      assert |Decimal(n)| == |Decimal(n / 10)| + 1;
      if k == 1 {
        assert Pow10(1) == 10;
      } else {
        DecimalLength(n / 10, k - 1);
      }
    } else {
      PowAtLeastTen(k);
    }
  }

  lemma {:induction false} PowAtLeastTen(k: nat)
    requires k >= 1
    ensures Pow10(k) >= 10
  {
    if k > 1 {
      PowAtLeastTen(k - 1);
    }
  }
}
