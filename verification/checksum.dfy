/**
 * The GS1 mod-10 check digit (section 7.9 of the GS1 General
 * Specifications) as getChecksum computes it, and the GTIN validation
 * isValidGTIN performs with it.
 */
module Checksum {
  import opened Results
  import opened Text

  /** The weight of a digit that stands k places left of the last one: 3, 1, 3, ... */
  function Weight(k: nat): (w: nat)
    ensures w == 1 || w == 3
  {
    if k % 2 == 0 then 3 else 1
  }

  /** The weighted digit sum, the rightmost digit weighted 3. */
  function WeightedSum(s: string): nat
    requires AllDigits(s)
  {
    if |s| == 0 then 0 else DigitValue(s[0]) * Weight(|s| - 1) + WeightedSum(s[1..])
  }

  /** Java's % on int: the remainder takes the sign of the dividend. */
  function JavaRem(a: int, b: nat): (r: int)
    requires b > 0
    ensures -(b as int) < r < b
    ensures a >= 0 ==> r == a % b
  {
    if a >= 0 then a % b else -((-a) % b)
  }

  /**
   * getChecksum: (1000 - weighted sum) % 10 with Java's remainder; a
   * character Integer.parseInt rejects fails.
   */
  function CheckDigit(s: string): (r: Result<int>)
    ensures r.Success? <==> AllDigits(s)
    ensures r.Success? ==> -10 < r.value < 10
  {
    if AllDigits(s) then Success(JavaRem(1000 - WeightedSum(s), 10)) else Failure(ChecksumError)
  }

  method GetChecksum(sscc: string) returns (r: Result<int>)
    ensures r == CheckDigit(sscc)
  {
    var checksum := 0;
    var factor := 3;
    var i := |sscc|;
    while i > 0
      invariant 0 <= i <= |sscc|
      invariant AllDigits(sscc[i..])
      invariant checksum == WeightedSum(sscc[i..])
      invariant factor == Weight(|sscc| - i)
    {
      if !IsDigit(sscc[i - 1]) {
        assert !AllDigits(sscc);
        return Failure(ChecksumError);
      }
      assert sscc[i - 1..][1..] == sscc[i..];
      checksum := checksum + DigitValue(sscc[i - 1]) * factor;
      factor := 4 - factor;
      i := i - 1;
    }
    assert sscc[i..] == sscc;
    return Success(JavaRem(1000 - checksum, 10));
  }

  /**
   * isValidGTIN: a non-empty digit string whose last digit equals the check
   * digit of the digits before it.
   */
  predicate ValidGtin(g: string) {
    |g| > 0 && AllDigits(g)
    && JavaRem(1000 - WeightedSum(g[..|g| - 1]), 10) == DigitValue(g[|g| - 1])
  }

  method IsValidGtin(gtin: string) returns (ok: bool)
    ensures ok == ValidGtin(gtin)
  {
    if |gtin| == 0 {
      return false;
    }
    var n := |gtin|;
    if !IsDigit(gtin[n - 1]) {
      return false;
    }
    var currentCC := DigitValue(gtin[n - 1]);
    var factor := 3;
    var checksum := 0;
    var i := n - 1;
    while i > 0
      invariant 0 <= i <= n - 1
      invariant AllDigits(gtin[i..n - 1])
      invariant checksum == WeightedSum(gtin[i..n - 1])
      invariant factor == Weight(n - 1 - i)
    {
      if !IsDigit(gtin[i - 1]) {
        assert !AllDigits(gtin);
        return false;
      }
      assert gtin[i - 1..n - 1][1..] == gtin[i..n - 1];
      checksum := checksum + DigitValue(gtin[i - 1]) * factor;
      factor := 4 - factor;
      i := i - 1;
    }
    assert gtin[i..n - 1] == gtin[..n - 1];
    assert AllDigits(gtin) by {
      assert gtin == gtin[..n - 1] + [gtin[n - 1]];
    }
    var realCC := JavaRem(1000 - checksum, 10);
    return realCC == currentCC;
  }

  // ---------------------------------------------------------------------
  // Lemmas

  /** Each digit contributes at most 9 times its weight. */
  lemma {:induction false} WeightedSumBound(s: string)
    requires AllDigits(s)
    ensures WeightedSum(s) <= 27 * ((|s| + 1) / 2) + 9 * (|s| / 2)
  {
    if |s| > 0 {
      WeightedSumBound(s[1..]);
    }
  }

  /**
   * For up to 55 digits the weighted sum stays below 1000, so the check
   * digit is a single digit 0..9 and completes the sum to a multiple of 10.
   */
  lemma {:induction false} CheckDigitRange(s: string)
    requires AllDigits(s) && |s| <= 55
    ensures CheckDigit(s).Success?
    ensures 0 <= CheckDigit(s).value <= 9
    ensures (WeightedSum(s) + CheckDigit(s).value) % 10 == 0
  {
    WeightedSumBound(s);
    var w := WeightedSum(s);
    assert w < 1000;
    Complement(w);
  }

  lemma {:induction false} Complement(w: nat)
    requires w < 1000
    ensures JavaRem(1000 - w, 10) == (1000 - w) % 10
    ensures (w + (1000 - w) % 10) % 10 == 0
  {
  }

  /**
   * isValidGTIN holds exactly for digit strings that end in the text of
   * getChecksum over the digits before the last.
   */
  lemma {:induction false} ValidGtinAgreesWithChecksum(g: string)
    requires |g| > 0
    ensures ValidGtin(g) <==>
      AllDigits(g) && CheckDigit(g[..|g| - 1]).Success?
      && [g[|g| - 1]] == IntToString(CheckDigit(g[..|g| - 1]).value)
  {
    var p, last := g[..|g| - 1], g[|g| - 1];
    assert g == p + [last];
    if AllDigits(g) {
      assert AllDigits(p);
      var c := JavaRem(1000 - WeightedSum(p), 10);
      if c >= 0 {
        assert IntToString(c) == [DigitChar(c)];
        if DigitValue(last) == c {
          assert last == DigitChar(c);
        }
      } else {
        assert |IntToString(c)| == 2;
      }
    }
  }

  /** Appending the check digit of a digit string yields a valid GTIN. */
  lemma {:induction false} AppendCheckDigit(s: string)
    requires AllDigits(s) && |s| <= 55
    ensures ValidGtin(s + IntToString(CheckDigit(s).value))
  {
    CheckDigitRange(s);
    var c := CheckDigit(s).value;
    assert IntToString(c) == [DigitChar(c)];
    var g := s + [DigitChar(c)];
    assert g[..|g| - 1] == s;
  }

  /** One step of the weighted sum: the digit at k, weighted by its distance from the end, then the rest. */
  lemma {:induction false} WeightedSumStep(s: string, k: nat, d: nat, w: nat, rest: nat)
    requires AllDigits(s) && k < |s|
    requires DigitValue(s[k]) == d && Weight(|s| - 1 - k) == w && WeightedSum(s[k + 1..]) == rest
    ensures WeightedSum(s[k..]) == d * w + rest
  {
    assert s[k..][1..] == s[k + 1..];
  }

  /** The GTIN body of the source's check-digit examples. */
  const ExampleBody: string := "0061414145324"

  /** The weighted sum of its last seven digits is 53. */
  lemma ExampleTailSum()
    ensures AllDigits(ExampleBody) && |ExampleBody| == 13 && WeightedSum(ExampleBody[6..]) == 53
  {
    var b := ExampleBody;
    assert WeightedSum(b[13..]) == 0;
    WeightedSumStep(b, 12, 4, 3, 0);
    WeightedSumStep(b, 11, 2, 1, 12);
    WeightedSumStep(b, 10, 3, 3, 14);
    WeightedSumStep(b, 9, 5, 1, 23);
    WeightedSumStep(b, 8, 4, 3, 28);
    WeightedSumStep(b, 7, 1, 1, 40);
    WeightedSumStep(b, 6, 4, 3, 41);
  }

  /** The weighted sum of its last ten digits is 67. */
  lemma ExampleMidSum()
    ensures AllDigits(ExampleBody) && |ExampleBody| == 13 && WeightedSum(ExampleBody[3..]) == 67
  {
    var b := ExampleBody;
    ExampleTailSum();
    WeightedSumStep(b, 5, 1, 1, 53);
    WeightedSumStep(b, 4, 4, 3, 54);
    WeightedSumStep(b, 3, 1, 1, 66);
  }

  /** Its weighted sum is 85, so its check digit is 5. */
  lemma ExampleBodySum()
    ensures AllDigits(ExampleBody) && |ExampleBody| == 13 && WeightedSum(ExampleBody) == 85
  {
    var b := ExampleBody;
    ExampleMidSum();
    WeightedSumStep(b, 2, 6, 3, 67);
    WeightedSumStep(b, 1, 0, 1, 85);
    WeightedSumStep(b, 0, 0, 3, 85);
    assert b[0..] == b;
  }

  /** A digit string followed by one more digit is a valid GTIN exactly when that digit is the check digit. */
  lemma {:induction false} AppendedDigit(body: string, c: char)
    requires AllDigits(body) && IsDigit(c)
    ensures ValidGtin(body + [c]) <==> JavaRem(1000 - WeightedSum(body), 10) == DigitValue(c)
  {
    var g := body + [c];
    assert g[..|g| - 1] == body;
    assert AllDigits(g) by {
      forall k | 0 <= k < |g| ensures IsDigit(g[k]) {
        if k < |body| { assert g[k] == body[k]; }
      }
    }
  }

  /** 00614141453245 is a valid GTIN; 00614141453246 is not. */
  lemma GtinExamples()
    ensures ValidGtin(ExampleBody + "5")
    ensures !ValidGtin(ExampleBody + "6")
  {
    ExampleBodySum();
    assert JavaRem(1000 - 85, 10) == 5;
    AppendedDigit(ExampleBody, '5');
    AppendedDigit(ExampleBody, '6');
  }
}
