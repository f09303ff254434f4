/** Kotlin's 32-bit `Int` and its decimal rendering `Int.toString()`: an
    optional minus sign followed by the digits of the magnitude, most
    significant first, with no leading zero. */
module Decimal {

  const MIN_INT: int := -0x8000_0000
  const MAX_INT: int := 0x7FFF_FFFF

  /** Kotlin's `Int`, a two's-complement 32-bit integer. */
  type Int32 = x: int | MIN_INT <= x <= MAX_INT

  predicate IsDigit(c: char) {
    '0' <= c <= '9'
  }

  /** A non-empty string of decimal digits. */
  predicate IsDigitString(s: string) {
    s != [] && forall i :: 0 <= i < |s| ==> IsDigit(s[i])
  }

  function DigitValue(c: char): (d: nat)
    requires IsDigit(c)
    ensures d < 10
  {
    (c as int) - ('0' as int)
  }

  function DigitChar(d: nat): (c: char)
    requires d < 10
    ensures IsDigit(c) && DigitValue(c) == d
  {
    (('0' as int) + d) as char
  }

  /** The decimal digits of `n`, most significant first. */
  function Digits(n: nat): (r: string)
    ensures IsDigitString(r)
    ensures n < 10 <==> |r| == 1
  {
    if n < 10 then [DigitChar(n)] else Digits(n / 10) + [DigitChar(n % 10)]
  }

  /** `Int.toString()`: the sign of a negative number, then the digits of its
      magnitude. For `Int.MIN_VALUE` the magnitude 2^31 is itself not an
      `Int`, but its digits are still printed. */
  function ToString(x: Int32): (r: string)
    ensures r != [] && (r[0] == '-' <==> x < 0)
    ensures '.' !in r
    ensures IsSignedDecimal(r) && SignedValue(r) == x
  {
    SignedDigits(if x < 0 then -(x as int) else x as int);
    if x < 0 then "-" + Digits(-(x as int)) else Digits(x)
  }

  /** The number a digit string denotes (reference reader, the inverse of `Digits`). */
  function Value(s: string): (v: nat)
    requires forall i :: 0 <= i < |s| ==> IsDigit(s[i])
  {
    if s == [] then 0 else Value(s[..|s| - 1]) * 10 + DigitValue(s[|s| - 1])
  }

  /** Reading back the digits of `n` gives `n`. */
  lemma {:induction false} ValueOfDigits(n: nat)
    ensures Value(Digits(n)) == n
  {
    if n >= 10 {
      var s := Digits(n);
      assert s[..|s| - 1] == Digits(n / 10);
      ValueOfDigits(n / 10);
    }
  }

  /** Only zero is written with a leading zero. */
  lemma {:induction false} DigitsNoLeadingZero(n: nat)
    ensures Digits(n)[0] == '0' <==> n == 0
  {
    if n >= 10 {
      DigitsNoLeadingZero(n / 10);
      assert Digits(n)[0] == Digits(n / 10)[0];
    }
  }

  lemma {:induction false} ValuePositive(s: string)
    requires IsDigitString(s) && s[0] != '0'
    ensures Value(s) > 0
  {
    if |s| > 1 {
      ValuePositive(s[..|s| - 1]);
    }
  }

  /** Conversely, every digit string without a leading zero (or the single
      digit "0") is the rendering of its own value, so `Digits` is the one
      canonical decimal form. */
  lemma {:induction false} DigitsOfValue(s: string)
    requires IsDigitString(s) && (s[0] != '0' || |s| == 1)
    ensures Digits(Value(s)) == s
  {
    var p, c := s[..|s| - 1], s[|s| - 1];
    var d := DigitValue(c);
    assert DigitChar(d) == c;
    if |s| == 1 {
      assert s == [c];
    } else {
      assert p[0] == s[0];
      ValuePositive(p);
      DigitsOfValue(p);
      var v := Value(p);
      AppendDigit(v, d);
      assert s == p + [c];
    }
  }

  /** Appending digit `d` to the decimal form of a positive `v`. */
  lemma AppendDigit(v: nat, d: nat)
    requires v > 0 && d < 10
    ensures Digits(v * 10 + d) == Digits(v) + [DigitChar(d)]
  {
    var n := v * 10 + d;
    assert n / 10 == v && n % 10 == d;
  }

  /** An optional minus sign followed by a digit string. */
  predicate IsSignedDecimal(s: string) {
    if s != [] && s[0] == '-' then IsDigitString(s[1..]) else IsDigitString(s)
  }

  /** The integer a signed decimal string denotes (reference reader). */
  function SignedValue(s: string): (v: int)
    requires IsSignedDecimal(s)
  {
    if s[0] == '-' then 0 - Value(s[1..]) else Value(s)
  }

  /** The digits of `m`, alone or after a minus sign, form a signed decimal
      without separators that reads back as `m` or `-m`. */
  lemma SignedDigits(m: nat)
    ensures var d := Digits(m);
      && d[0] != '-' && '.' !in d
      && IsSignedDecimal(d) && SignedValue(d) == m
    ensures var n := "-" + Digits(m);
      && n[0] == '-' && '.' !in n
      && IsSignedDecimal(n) && SignedValue(n) == -(m as int)
  {
    var d := Digits(m);
    assert forall i :: 0 <= i < |d| ==> d[i] != '.' && d[i] != '-';
    ValueOfDigits(m);
    assert ("-" + d)[1..] == d;
  }
}
