/** Decimal notation of natural numbers, as produced by interpolating a
    non-negative integer into a JavaScript template literal, and its inverse. */
module Decimal {

  predicate IsDigit(c: char) {
    '0' <= c <= '9'
  }

  predicate AllDigits(s: string) {
    forall i :: 0 <= i < |s| ==> IsDigit(s[i])
  }

  /** The form JavaScript prints a non-negative integer in: at least one digit
      and no leading zero unless the number is zero itself. */
  predicate IsCanonical(s: string) {
    && |s| > 0
    && AllDigits(s)
    && (|s| == 1 || s[0] != '0')
  }

  function DigitValue(c: char): (d: nat)
    requires IsDigit(c)
    ensures d < 10
  {
    (c as int) - ('0' as int)
  }

  function DigitChar(d: nat): (c: char)
    requires d < 10
    ensures IsDigit(c) && DigitValue(c) == d
  {
    (('0' as int) + d) as char
  }

  /** The decimal text of `n`. */
  function Format(n: nat): (s: string)
    ensures IsCanonical(s)
  {
    if n < 10 then [DigitChar(n)] else Format(n / 10) + [DigitChar(n % 10)]
  }

  /** The number a string of digits denotes (most significant digit first). */
  function ValueOf(s: string): nat
    requires AllDigits(s)
  {
    if |s| == 0 then 0 else 10 * ValueOf(s[..|s| - 1]) + DigitValue(s[|s| - 1])
  }

  /** Reading back the decimal text of `n` gives `n`. */
  lemma {:induction false} ValueOfFormat(n: nat)
    ensures ValueOf(Format(n)) == n
  {
    if n >= 10 {
      var s := Format(n);
      assert s[..|s| - 1] == Format(n / 10);
      ValueOfFormat(n / 10);
    }
  }

  /** A string of digits denotes zero only if every digit is '0'. */
  lemma {:induction false} ZeroValueAllZeros(s: string)
    requires AllDigits(s)
    requires ValueOf(s) == 0
    ensures forall i :: 0 <= i < |s| ==> s[i] == '0'
  {
    if |s| > 0 {
      var p := s[..|s| - 1];
      ZeroValueAllZeros(p);
      assert forall i :: 0 <= i < |p| ==> s[i] == p[i];
    }
  }

  /** Formatting the value of a canonical digit string gives the string back,
      so every canonical string is the decimal text of exactly one number. */
  lemma {:induction false} FormatValueOf(s: string)
    requires IsCanonical(s)
    ensures Format(ValueOf(s)) == s
  {
    if |s| > 1 {
      var p := s[..|s| - 1];
      var last := s[|s| - 1];
      assert p[0] == s[0];
      if ValueOf(p) == 0 {
        ZeroValueAllZeros(p);
      }
      assert ValueOf(p) >= 1;
      FormatValueOf(p);
      var n := ValueOf(s);
      assert n / 10 == ValueOf(p) && n % 10 == DigitValue(last);
      assert DigitChar(DigitValue(last)) == last;
      assert s == p + [last];
    }
  }

  /** Distinct numbers have distinct decimal texts. */
  lemma FormatInjective(a: nat, b: nat)
    ensures Format(a) == Format(b) <==> a == b
  {
    if Format(a) == Format(b) {
      ValueOfFormat(a);
      ValueOfFormat(b);
    }
  }
}
