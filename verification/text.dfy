/**
 * Character strings as the codec handles them: zero padding on the left and
 * on the right (fillLeftWithZeros, fillRightWithZeros), and the decimal
 * conversions of the Java library that the codec relies on (Long.toString,
 * Integer.parseInt, Long.parseLong, String.toUpperCase on hex digits).
 */
module Text {
  import opened Results

  /** Largest value of a Java int and of a Java long. */
  const IntMax: nat := 0x7FFF_FFFF
  const LongMax: nat := 0x7FFF_FFFF_FFFF_FFFF

  predicate IsDigit(c: char) {
    '0' <= c <= '9'
  }

  predicate AllDigits(s: string) {
    forall i :: 0 <= i < |s| ==> IsDigit(s[i])
  }

  predicate IsAscii(s: string) {
    forall i :: 0 <= i < |s| ==> s[i] as int < 128
  }

  /**
   * Text that the Java number parsers read exactly as this model does:
   * ASCII (no other Unicode digits) and no sign character.
   */
  predicate NumericText(s: string) {
    forall i :: 0 <= i < |s| ==> s[i] as int < 128 && s[i] != '+' && s[i] != '-'
  }

  function Pow10(n: nat): (r: nat)
    ensures r >= 1
  {
    if n == 0 then 1 else 10 * Pow10(n - 1)
  }

  function Zeros(n: nat): string {
    seq(n, i => '0')
  }

  /** fillLeftWithZeros: prefix '0' characters up to `digits`; never truncates. */
  function PadLeft(s: string, digits: int): (r: string)
    ensures |r| == if |s| < digits then digits else |s|
  {
    if |s| < digits then Zeros(digits - |s|) + s else s
  }

  /** The padded text ends in the original and starts with nothing but zeros. */
  lemma {:induction false} PadLeftShape(s: string, digits: int)
    ensures var r := PadLeft(s, digits);
      r[|r| - |s|..] == s && forall i :: 0 <= i < |r| - |s| ==> r[i] == '0'
  {
  }

  lemma {:induction false} AppendAssoc(a: string, b: string, c: string)
    ensures (a + b) + c == a + (b + c)
  {
  }

  /** fillRightWithZeros: append '0' characters up to `digits`; never truncates. */
  function PadRight(s: string, digits: int): (r: string)
    ensures |r| == if |s| < digits then digits else |s|
  {
    if |s| < digits then s + Zeros(digits - |s|) else s
  }

  /** The padded text starts with the original and ends in nothing but zeros. */
  lemma {:induction false} PadRightShape(s: string, digits: int)
    ensures var r := PadRight(s, digits);
      r[..|s|] == s && forall i :: |s| <= i < |r| ==> r[i] == '0'
  {
  }

  method FillLeftWithZeros(s: string, digits: int) returns (r: string)
    ensures r == PadLeft(s, digits)
  {
    r := s;
    while |r| < digits
      invariant |s| <= |r|
      invariant |s| < digits ==> |r| <= digits
      invariant r == Zeros(|r| - |s|) + s
      invariant |s| >= digits ==> r == s
      decreases digits - |r|
    {
      assert "0" + Zeros(|r| - |s|) == Zeros(|r| + 1 - |s|);
      r := "0" + r;
    }
  }

  method FillRightWithZeros(s: string, digits: int) returns (r: string)
    ensures r == PadRight(s, digits)
  {
    r := s;
    while |r| < digits
      invariant |s| <= |r|
      invariant |s| < digits ==> |r| <= digits
      invariant r == s + Zeros(|r| - |s|)
      invariant |s| >= digits ==> r == s
      decreases digits - |r|
    {
      assert Zeros(|r| - |s|) + "0" == Zeros(|r| + 1 - |s|);
      r := r + "0";
    }
  }

  // ---------------------------------------------------------------------
  // Decimal numbers

  function DigitValue(c: char): int {
    c as int - '0' as int
  }

  function DigitChar(d: nat): (c: char)
    requires d < 10
    ensures IsDigit(c) && DigitValue(c) == d
  {
    ('0' as int + d) as char
  }

  /** The value of a string of decimal digits, most significant first. */
  function DecimalValue(s: string): (v: nat)
    requires AllDigits(s)
    ensures v < Pow10(|s|)
  {
    if |s| == 0 then 0 else 10 * DecimalValue(s[..|s| - 1]) + DigitValue(s[|s| - 1])
  }

  /** Long.toString / Integer.toString of a non-negative value. */
  function NatToDecimal(n: nat): (r: string)
    ensures |r| >= 1 && AllDigits(r)
    ensures DecimalValue(r) == n
    ensures r[0] == '0' ==> n == 0
  {
    if n < 10 then [DigitChar(n)]
    else
      var prefix := NatToDecimal(n / 10);
      assert (prefix + [DigitChar(n % 10)])[..|prefix|] == prefix;
      prefix + [DigitChar(n % 10)]
  }

  /** Integer.toString of any int; the minus sign precedes the magnitude. */
  function IntToString(i: int): (r: string)
    ensures |r| >= 1
    ensures i >= 0 <==> AllDigits(r)
  {
    if i < 0 then
      var r := "-" + NatToDecimal(-i);
      assert !IsDigit(r[0]);
      r
    else NatToDecimal(i)
  }

  /** Integer.parseInt on NumericText: digits only, at most IntMax. */
  function ParseInt(s: string): Result<nat> {
    if |s| > 0 && AllDigits(s) && DecimalValue(s) <= IntMax then Success(DecimalValue(s))
    else Failure(MalformedNumber)
  }

  /** Long.parseLong on NumericText: digits only, at most LongMax. */
  function ParseLong(s: string): Result<nat> {
    if |s| > 0 && AllDigits(s) && DecimalValue(s) <= LongMax then Success(DecimalValue(s))
    else Failure(MalformedNumber)
  }

  function UpperChar(c: char): char {
    if 'a' <= c <= 'z' then (c as int - 32) as char else c
  }

  /** String.toUpperCase restricted to what the codec feeds it (hex digits). */
  function ToUpper(s: string): (r: string)
    ensures |r| == |s|
    ensures forall i :: 0 <= i < |s| ==> r[i] == UpperChar(s[i])
  {
    seq(|s|, i requires 0 <= i < |s| => UpperChar(s[i]))
  }

  // ---------------------------------------------------------------------
  // Lemmas about decimal strings

  /** Leading '0' characters do not change a decimal value. */
  lemma {:induction false} DecimalValueZeros(k: nat, s: string)
    requires AllDigits(s)
    ensures AllDigits(Zeros(k) + s)
    ensures DecimalValue(Zeros(k) + s) == DecimalValue(s)
  {
    var t := Zeros(k) + s;
    if |s| == 0 {
      assert t == Zeros(k);
      ZerosValue(k);
    } else {
      assert t[..|t| - 1] == Zeros(k) + s[..|s| - 1];
      DecimalValueZeros(k, s[..|s| - 1]);
    }
  }

  lemma {:induction false} ZerosValue(k: nat)
    ensures AllDigits(Zeros(k)) && DecimalValue(Zeros(k)) == 0
  {
    if k > 0 {
      assert Zeros(k)[..k - 1] == Zeros(k - 1);
      ZerosValue(k - 1);
    }
  }

  /** Two digit strings of the same length with the same value are equal. */
  lemma {:induction false} DecimalInjective(x: string, y: string)
    requires AllDigits(x) && AllDigits(y) && |x| == |y|
    requires DecimalValue(x) == DecimalValue(y)
    ensures x == y
  {
    if |x| > 0 {
      var n := |x| - 1;
      LastDigit(x);
      LastDigit(y);
      DecimalInjective(x[..n], y[..n]);
      SplitLast(x);
      SplitLast(y);
    }
  }

  /** The last digit of a decimal string is its value modulo 10, the rest its value divided by 10. */
  lemma {:induction false} LastDigit(s: string)
    requires AllDigits(s) && |s| > 0
    ensures DigitValue(s[|s| - 1]) == DecimalValue(s) % 10
    ensures DecimalValue(s[..|s| - 1]) == DecimalValue(s) / 10
  {
    DivMod10(DecimalValue(s[..|s| - 1]), DigitValue(s[|s| - 1]));
  }

  lemma {:induction false} DivMod10(a: nat, d: int)
    requires 0 <= d < 10
    ensures (10 * a + d) % 10 == d && (10 * a + d) / 10 == a
  {
  }

  lemma {:induction false} SplitLast(s: string)
    requires |s| > 0
    ensures s == s[..|s| - 1] + [s[|s| - 1]]
  {
  }

  /** Long.toString(n) has at most k digits exactly when n < 10^k. */
  lemma {:induction false} DecimalLength(n: nat, k: nat)
    requires k >= 1
    ensures |NatToDecimal(n)| <= k <==> n < Pow10(k)
  {
    if n >= 10 {
      if k == 1 {
        assert |NatToDecimal(n)| == |NatToDecimal(n / 10)| + 1;
      } else {
        DecimalLength(n / 10, k - 1);
      }
    } else {
      assert Pow10(k) >= 10 by { PowGrows(k); }
    }
  }

  lemma {:induction false} PowGrows(k: nat)
    requires k >= 1
    ensures Pow10(k) >= 10
  {
    if k > 1 {
      PowGrows(k - 1);
    }
  }

  /**
   * A decimal field read back from its value and padded to its own length
   * is the field itself: the decoder's zero padding restores leading zeros.
   */
  lemma {:induction false} CanonicalDecimal(s: string)
    requires AllDigits(s) && |s| >= 1
    ensures PadLeft(NatToDecimal(DecimalValue(s)), |s|) == s
  {
    var v := DecimalValue(s);
    var d := NatToDecimal(v);
    DecimalLength(v, |s|);
    var p := PadLeft(d, |s|);
    DecimalValueZeros(|s| - |d|, d);
    assert p == Zeros(|s| - |d|) + d;
    DecimalInjective(p, s);
  }

  /** Integer.parseInt reads back a zero-padded Long.toString. */
  lemma {:induction false} ParsePadded(n: nat, k: int)
    requires n <= IntMax
    ensures ParseInt(PadLeft(NatToDecimal(n), k)) == Success(n)
  {
    var d := NatToDecimal(n);
    var p := PadLeft(d, k);
    if |d| < k {
      DecimalValueZeros(k - |d|, d);
      assert p == Zeros(k - |d|) + d;
    }
  }
}
