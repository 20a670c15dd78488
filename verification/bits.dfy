/**
 * Bit strings (Java strings of '0' and '1') and their conversions: unsigned
 * big-endian values (binStringToLong, Integer.toBinaryString), hex digits
 * expanded to four bits each (hexToBinaryString), and the grouping of a bit
 * string into hex digits that the encoders perform (binaryStringToHex on
 * successive four-bit chunks).
 */
module BitStrings {
  import opened Results
  import opened Text

  predicate IsBits(s: string) {
    forall i :: 0 <= i < |s| ==> s[i] == '0' || s[i] == '1'
  }

  function Pow2(n: nat): (r: nat)
    ensures r >= 1
  {
    if n == 0 then 1 else 2 * Pow2(n - 1)
  }

  /** Math.pow on the small naturals binStringToLong uses; note Power(0, 0) == 1. */
  function Power(b: nat, e: nat): nat {
    if e == 0 then 1 else b * Power(b, e - 1)
  }

  /**
   * The unsigned big-endian value of a bit string; as in binStringToLong,
   * every character other than '0' counts as a one bit.
   */
  function BitsToNat(s: string): (v: nat)
    ensures v < Pow2(|s|)
  {
    if |s| == 0 then 0
    else (if s[0] != '0' then Pow2(|s| - 1) else 0) + BitsToNat(s[1..])
  }

  /**
   * binStringToLong: scans from the last character to the first, adding
   * Math.pow(2 or 0, z) for the character z places from the end. The first
   * scanned character is skipped when it is '0', since Math.pow(0, 0) is 1.
   */
  method BinStringToLong(s: string) returns (erg: nat)
    ensures erg == BitsToNat(s)
  {
    var z: nat := 0;
    erg := 0;
    var i := |s| - 1;
    while i >= 0
      invariant -1 <= i < |s|
      invariant z == |s| - 1 - i
      invariant erg == BitsToNat(s[i + 1..])
    {
      assert s[i..][1..] == s[i + 1..];
      if z == 0 && s[i] == '0' {
        z := z + 1;
        i := i - 1;
        continue;
      }
      PowerOfTwoOrZero(z);
      erg := erg + Power(if s[i] != '0' then 2 else 0, z);
      z := z + 1;
      i := i - 1;
    }
    assert s[0..] == s;
  }

  lemma {:induction false} PowerOfTwoOrZero(z: nat)
    ensures Power(2, z) == Pow2(z)
    ensures z > 0 ==> Power(0, z) == 0
  {
    if z > 0 {
      PowerOfTwoOrZero(z - 1);
    }
  }

  function BitChar(b: nat): char
    requires b < 2
  {
    if b == 0 then '0' else '1'
  }

  /** Integer.toBinaryString / Long.toBinaryString of a non-negative value. */
  function NatToBits(n: nat): (r: string)
    ensures |r| >= 1 && IsBits(r)
    ensures r[0] == '0' ==> n == 0
  {
    if n < 2 then [BitChar(n)] else NatToBits(n / 2) + [BitChar(n % 2)]
  }

  // ---------------------------------------------------------------------
  // Values of bit strings

  lemma {:induction false} Pow2Add(a: nat, b: nat)
    ensures Pow2(a + b) == Pow2(a) * Pow2(b)
  {
    if a > 0 {
      Pow2Add(a - 1, b);
    }
  }

  /** The value of a concatenation: the left part is shifted by the right part's width. */
  lemma {:induction false} BitsToNatConcat(x: string, y: string)
    ensures BitsToNat(x + y) == BitsToNat(x) * Pow2(|y|) + BitsToNat(y)
  {
    if |x| == 0 {
      assert x + y == y;
    } else {
      assert (x + y)[0] == x[0] && (x + y)[1..] == x[1..] + y;
      BitsToNatConcat(x[1..], y);
      ShiftedLead(x[0] != '0', |x| - 1, |y|, BitsToNat(x[1..]), BitsToNat(y));
    }
  }

  /** The arithmetic of one step of BitsToNatConcat: a leading bit, shifted. */
  lemma {:induction false} ShiftedLead(b: bool, k: nat, m: nat, r: nat, v: nat)
    ensures (if b then Pow2(k + m) else 0) + (r * Pow2(m) + v)
      == ((if b then Pow2(k) else 0) + r) * Pow2(m) + v
  {
    Pow2Add(k, m);
    Distribute(if b then Pow2(k) else 0, r, Pow2(m));
  }

  lemma {:induction false} Distribute(a: nat, b: nat, p: nat)
    ensures a * p + b * p == (a + b) * p
  {
  }

  lemma {:induction false} ZeroBitsValue(k: nat)
    ensures IsBits(Zeros(k)) && BitsToNat(Zeros(k)) == 0
  {
    if k > 0 {
      assert Zeros(k)[1..] == Zeros(k - 1);
      ZeroBitsValue(k - 1);
    }
  }

  /** Leading zero bits do not change a value. */
  lemma {:induction false} ZeroPaddedValue(s: string, w: int)
    ensures BitsToNat(PadLeft(s, w)) == BitsToNat(s)
    ensures IsBits(s) ==> IsBits(PadLeft(s, w))
  {
    if |s| < w {
      BitsToNatConcat(Zeros(w - |s|), s);
      ZeroBitsValue(w - |s|);
    }
  }

  /** Integer.toBinaryString is read back by binStringToLong. */
  lemma {:induction false} NatToBitsValue(n: nat)
    ensures BitsToNat(NatToBits(n)) == n
  {
    if n >= 2 {
      NatToBitsValue(n / 2);
      BitsToNatConcat(NatToBits(n / 2), [BitChar(n % 2)]);
      BitValue(n % 2);
      assert Pow2(1) == 2;
    } else {
      BitValue(n);
    }
  }

  lemma {:induction false} BitValue(b: nat)
    requires b < 2
    ensures BitsToNat([BitChar(b)]) == b
  {
    assert [BitChar(b)][1..] == "";
  }

  /** Integer.toBinaryString(n) has at most w characters exactly when n < 2^w. */
  lemma {:induction false} NatToBitsLength(n: nat, w: nat)
    requires w >= 1
    ensures |NatToBits(n)| <= w <==> n < Pow2(w)
  {
    if n >= 2 {
      if w == 1 {
        assert Pow2(1) == 2;
      } else {
        NatToBitsLength(n / 2, w - 1);
      }
    } else {
      Pow2AtLeastTwo(w);
    }
  }

  lemma {:induction false} Pow2AtLeastTwo(w: nat)
    requires w >= 1
    ensures Pow2(w) >= 2
  {
    if w > 1 {
      Pow2AtLeastTwo(w - 1);
    }
  }

  /**
   * A value that fits its field width is laid out in exactly that width by
   * fillLeftWithZeros(Integer.toBinaryString(n), w), and binStringToLong
   * reads it back.
   */
  lemma {:induction false} Field(n: nat, w: nat)
    requires w >= 1 && n < Pow2(w)
    ensures |PadLeft(NatToBits(n), w)| == w
    ensures IsBits(PadLeft(NatToBits(n), w))
    ensures BitsToNat(PadLeft(NatToBits(n), w)) == n
  {
    NatToBitsLength(n, w);
    ZeroPaddedValue(NatToBits(n), w);
    NatToBitsValue(n);
  }

  /** Two bit strings of the same length with the same value are equal. */
  lemma {:induction false} BitsInjective(x: string, y: string)
    requires IsBits(x) && IsBits(y) && |x| == |y|
    requires BitsToNat(x) == BitsToNat(y)
    ensures x == y
  {
    if |x| > 0 {
      assert x[0] == y[0];
      BitsInjective(x[1..], y[1..]);
      assert x == [x[0]] + x[1..] && y == [y[0]] + y[1..];
    }
  }

  // ---------------------------------------------------------------------
  // Hex digits

  predicate IsHexChar(c: char) {
    '0' <= c <= '9' || 'a' <= c <= 'f' || 'A' <= c <= 'F'
  }

  predicate AllHex(s: string) {
    forall i :: 0 <= i < |s| ==> IsHexChar(s[i])
  }

  /** Integer.parseInt(c, 16) for a hex digit. */
  function HexValue(c: char): nat
    requires IsHexChar(c)
  {
    if c <= '9' then c as int - '0' as int
    else if c <= 'F' then c as int - 'A' as int + 10
    else c as int - 'a' as int + 10
  }

  /** The digit Long.toHexString writes for a value below 16 (lower case). */
  function HexChar(v: nat): (c: char)
    requires v < 16
    ensures IsHexChar(c) && HexValue(c) == v
    ensures IsHexChar(UpperChar(c)) && HexValue(UpperChar(c)) == v
    ensures '0' <= UpperChar(c) <= '9' || 'A' <= UpperChar(c) <= 'F'
  {
    if v < 10 then ('0' as int + v) as char else ('a' as int + v - 10) as char
  }

  /** fillLeftWithZeros(Integer.toBinaryString(Integer.parseInt(c, 16)), 4). */
  function Nibble(c: char): (r: string)
    requires IsHexChar(c)
    ensures |r| == 4 && IsBits(r) && BitsToNat(r) == HexValue(c)
  {
    Field(HexValue(c), 4);
    PadLeft(NatToBits(HexValue(c)), 4)
  }

  function Expand(h: string): (r: string)
    requires AllHex(h)
    ensures |r| == 4 * |h|
  {
    if |h| == 0 then "" else Nibble(h[0]) + Expand(h[1..])
  }

  /** hexToBinaryString: four bits per hex digit; a non-hex character fails. */
  function HexToBits(h: string): Result<string> {
    if AllHex(h) then Success(Expand(h)) else Failure(MalformedHex)
  }

  method HexToBinaryString(hex: string) returns (r: Result<string>)
    ensures r == HexToBits(hex)
  {
    var bin := "";
    var i := 0;
    while i < |hex|
      invariant 0 <= i <= |hex|
      invariant Expanding(hex, i, bin) == Expanding(hex, 0, "")
    {
      if !IsHexChar(hex[i]) {
        ExpandingResult(hex, 0, "");
        assert hex[0..] == hex;
        return Failure(MalformedHex);
      }
      var digit := FillLeftWithZeros(NatToBits(HexValue(hex[i])), 4);
      bin := bin + digit;
      i := i + 1;
    }
    ExpandingResult(hex, 0, "");
    assert hex[0..] == hex && "" + Expand(hex) == Expand(hex);
    return Success(bin);
  }

  /**
   * What hexToBinaryString returns once it has converted on from digit `i`,
   * having built `acc` before.
   */
  function Expanding(hex: string, i: nat, acc: string): Result<string>
    decreases |hex| - i
  {
    if i >= |hex| then Success(acc)
    else if !IsHexChar(hex[i]) then Failure(MalformedHex)
    else Expanding(hex, i + 1, acc + Nibble(hex[i]))
  }

  lemma {:induction false} ExpandingResult(hex: string, i: nat, acc: string)
    requires i <= |hex|
    ensures Expanding(hex, i, acc)
      == if AllHex(hex[i..]) then Success(acc + Expand(hex[i..])) else Failure(MalformedHex)
    decreases |hex| - i
  {
    var t := hex[i..];
    if i == |hex| {
      assert t == "" && acc + Expand(t) == acc;
    } else {
      assert t[0] == hex[i] && t[1..] == hex[i + 1..];
      if IsHexChar(hex[i]) {
        ExpandingResult(hex, i + 1, acc + Nibble(hex[i]));
        if AllHex(t) {
          AppendAssoc(acc, Nibble(hex[i]), Expand(hex[i + 1..]));
        }
      }
    }
  }

  lemma {:induction false} ExpandIsBits(h: string)
    requires AllHex(h)
    ensures IsBits(Expand(h))
  {
    if |h| > 0 {
      ExpandIsBits(h[1..]);
    }
  }

  /**
   * hexToBinaryString yields four bits per digit, and nibble k holds the
   * big-endian value of digit k.
   */
  lemma {:induction false} ExpandAt(h: string, k: nat)
    requires AllHex(h) && k < |h|
    ensures Expand(h)[4 * k..4 * k + 4] == Nibble(h[k])
  {
    var n0, rest := Nibble(h[0]), Expand(h[1..]);
    assert Expand(h) == n0 + rest;
    if k > 0 {
      ExpandAt(h[1..], k - 1);
      assert h[1..][k - 1] == h[k];
      NextNibble(n0, rest, k);
    } else {
      assert (n0 + rest)[0..4] == n0;
    }
  }

  /** Nibble k of a nibble followed by the rest is nibble k - 1 of the rest. */
  lemma {:induction false} NextNibble(n0: string, rest: string, k: nat)
    requires |n0| == 4 && 0 < k && 4 * k + 4 <= 4 + |rest|
    ensures (n0 + rest)[4 * k..4 * k + 4] == rest[4 * (k - 1)..4 * (k - 1) + 4]
  {
    SliceAfter(n0, rest, 4 * (k - 1));
  }

  /** A window of the right part of a concatenation, shifted by the left part. */
  lemma {:induction false} SliceAfter(x: string, y: string, i: nat)
    requires i + 4 <= |y|
    ensures (x + y)[|x| + i..|x| + i + 4] == y[i..i + 4]
  {
  }

  /** The header byte of an image is the value of its first two hex digits. */
  lemma {:induction false} LeadingByte(h: string)
    requires AllHex(h) && |h| >= 2
    ensures |Expand(h)| >= 8
    ensures BitsToNat(Expand(h)[..8]) == 16 * HexValue(h[0]) + HexValue(h[1])
  {
    var a, b := Nibble(h[0]), Nibble(h[1]);
    LeadingNibbles(h);
    assert Pow2(4) == 16;
    BitsToNatConcat(a, b);
    assert BitsToNat(a + b) == BitsToNat(a) * 16 + BitsToNat(b);
  }

  lemma {:induction false} LeadingNibbles(h: string)
    requires AllHex(h) && |h| >= 2
    ensures Expand(h)[..8] == Nibble(h[0]) + Nibble(h[1])
  {
    var t := h[1..];
    assert t[0] == h[1];
    assert Expand(h) == Nibble(h[0]) + Expand(t);
    assert Expand(t) == Nibble(h[1]) + Expand(t[1..]);
    LeadingEight(Nibble(h[0]), Nibble(h[1]), Expand(t[1..]));
  }

  lemma {:induction false} LeadingEight(a: string, b: string, c: string)
    requires |a| == 4 && |b| == 4
    ensures (a + (b + c))[..8] == a + b
  {
  }

  // ---------------------------------------------------------------------
  // Grouping bits into hex digits, as the encoders do

  /** Long.toHexString of a non-negative value (lower case). */
  function NatToHex(n: nat): (r: string)
    ensures n < 16 ==> r == [HexChar(n)]
  {
    if n < 16 then [HexChar(n)] else NatToHex(n / 16) + [HexChar(n % 16)]
  }

  /** binaryStringToHex: Long.toHexString(binStringToLong(bin)). */
  method BinaryStringToHex(bin: string) returns (hex: string)
    ensures hex == NatToHex(BitsToNat(bin))
    ensures |bin| <= 4 ==> hex == [HexChar(BitsToNat(bin))]
  {
    var v := BinStringToLong(bin);
    if |bin| <= 4 {
      assert Pow2(|bin|) <= 16 by { Pow2Monotone(|bin|, 4); }
    }
    hex := NatToHex(v);
  }

  lemma {:induction false} Pow2Monotone(a: nat, b: nat)
    requires a <= b
    ensures Pow2(a) <= Pow2(b)
  {
    if a < b {
      Pow2Monotone(a, b - 1);
    }
  }

  /**
   * The hex digits an encoder emits for a bit string: one digit per group of
   * four bits from the left, a shorter last group taken as it is.
   */
  function HexOfBits(b: string): (r: string)
    ensures |r| == (|b| + 3) / 4
  {
    if |b| == 0 then ""
    else
      var k := if |b| < 4 then |b| else 4;
      Pow2Monotone(k, 4);
      [HexChar(BitsToNat(b[..k]))] + HexOfBits(b[k..])
  }

  /**
   * The bits a reader recovers from such hex digits: every full group as it
   * was, a shorter last group zero-extended on the left to four bits.
   */
  function Widened(b: string): (r: string)
  {
    if |b| == 0 then ""
    else if |b| < 4 then PadLeft(b, 4)
    else b[..4] + Widened(b[4..])
  }

  /** Reading back the upper-cased hex digits of a bit string yields its widened bits. */
  lemma {:induction false} HexImageRoundTrip(b: string)
    requires IsBits(b)
    ensures HexToBits(ToUpper(HexOfBits(b))) == Success(Widened(b))
  {
    ExpandImage(b);
  }

  lemma {:induction false} ExpandImage(b: string)
    requires IsBits(b)
    ensures AllHex(ToUpper(HexOfBits(b)))
    ensures Expand(ToUpper(HexOfBits(b))) == Widened(b)
  {
    if |b| > 0 {
      var k := if |b| < 4 then |b| else 4;
      var g, t := b[..k], b[k..];
      GroupDigit(g);
      ExpandImage(t);
      ImageStep(b);
      ExpandCons(UpperChar(HexChar(BitsToNat(g))), ToUpper(HexOfBits(t)));
      WidenedStep(b);
    }
  }

  /** The upper-cased digits of a bit string: its first group's digit, then the rest. */
  lemma {:induction false} ImageStep(b: string)
    requires |b| > 0
    ensures var k := if |b| < 4 then |b| else 4;
      BitsToNat(b[..k]) < 16
      && ToUpper(HexOfBits(b)) == [UpperChar(HexChar(BitsToNat(b[..k])))] + ToUpper(HexOfBits(b[k..]))
  {
    var k := if |b| < 4 then |b| else 4;
    Pow2Monotone(k, 4);
    assert Pow2(4) == 16;
    var c := HexChar(BitsToNat(b[..k]));
    ToUpperCons(c, HexOfBits(b[k..]));
  }

  lemma {:induction false} ToUpperCons(c: char, t: string)
    ensures ToUpper([c] + t) == [UpperChar(c)] + ToUpper(t)
  {
  }

  lemma {:induction false} ExpandCons(c: char, u: string)
    requires IsHexChar(c) && AllHex(u)
    ensures AllHex([c] + u) && Expand([c] + u) == Nibble(c) + Expand(u)
  {
    assert ([c] + u)[0] == c && ([c] + u)[1..] == u;
  }

  /** The widened bits of a bit string: its first group widened, then the rest. */
  lemma {:induction false} WidenedStep(b: string)
    requires |b| > 0
    ensures var k := if |b| < 4 then |b| else 4;
      Widened(b) == PadLeft(b[..k], 4) + Widened(b[k..])
  {
    if |b| < 4 {
      assert b[..|b|] == b && b[|b|..] == "";
    }
  }

  /** One group of at most four bits comes back from its digit as its four-bit widening. */
  lemma {:induction false} GroupDigit(g: string)
    requires IsBits(g) && 0 < |g| <= 4
    ensures BitsToNat(g) < 16
    ensures Nibble(UpperChar(HexChar(BitsToNat(g)))) == PadLeft(g, 4)
  {
    Pow2Monotone(|g|, 4);
    assert Pow2(4) == 16;
    var c := UpperChar(HexChar(BitsToNat(g)));
    ZeroPaddedValue(g, 4);
    BitsInjective(Nibble(c), PadLeft(g, 4));
  }

  /** Without a short last group the widened bits are the bits themselves. */
  lemma {:induction false} WidenedAligned(b: string)
    requires |b| % 4 == 0
    ensures Widened(b) == b
  {
    if |b| > 0 {
      WidenedAligned(b[4..]);
      assert b == b[..4] + b[4..];
    }
  }

  /** A short last group comes back zero-extended on the left to four bits. */
  lemma {:induction false} WidenedTail(x: string, t: string)
    requires |x| % 4 == 0 && 0 < |t| < 4
    ensures Widened(x + t) == x + PadLeft(t, 4)
  {
    if |x| == 0 {
      assert x + t == t;
    } else {
      assert (x + t)[..4] == x[..4];
      assert (x + t)[4..] == x[4..] + t;
      WidenedTail(x[4..], t);
      assert x == x[..4] + x[4..];
    }
  }

  /** One turn of an encoder's chunk loop: the group at `offs`, then the rest. */
  lemma {:induction false} HexOfBitsStep(b: string, offs: nat, len: nat)
    requires offs < |b| && len == if offs + 4 > |b| then |b| - offs else 4
    ensures BitsToNat(b[offs..offs + len]) < 16
    ensures HexOfBits(b[offs..]) == [HexChar(BitsToNat(b[offs..offs + len]))] + HexOfBits(b[offs + len..])
  {
    var t := b[offs..];
    Pow2Monotone(len, 4);
    assert Pow2(4) == 16;
    assert t[..len] == b[offs..offs + len];
    assert t[len..] == b[offs + len..];
  }

  /**
   * The digits an encoder's chunk loop holds once it has read on from bit
   * `offs`, having written `acc` before.
   */
  function HexFrom(b: string, offs: nat, acc: string): string
    decreases |b| - offs
  {
    if offs >= |b| then acc
    else
      var len := if offs + 4 > |b| then |b| - offs else 4;
      Pow2Monotone(len, 4);
      assert Pow2(4) == 16;
      HexFrom(b, offs + 4, acc + [HexChar(BitsToNat(b[offs..offs + len]))])
  }

  lemma {:induction false} HexFromResult(b: string, offs: nat, acc: string)
    requires offs <= |b|
    ensures HexFrom(b, offs, acc) == acc + HexOfBits(b[offs..])
    decreases |b| - offs
  {
    if offs == |b| {
      assert b[offs..] == "" && acc + "" == acc;
    } else {
      var len := if offs + 4 > |b| then |b| - offs else 4;
      HexOfBitsStep(b, offs, len);
      var d := [HexChar(BitsToNat(b[offs..offs + len]))];
      assert HexFrom(b, offs, acc) == HexFrom(b, offs + 4, acc + d);
      if offs + 4 <= |b| {
        HexFromResult(b, offs + 4, acc + d);
        AppendAssoc(acc, d, HexOfBits(b[offs + 4..]));
      } else {
        assert HexFrom(b, offs + 4, acc + d) == acc + d;
        assert b[offs + len..] == "" && d + "" == d;
      }
    }
  }

  /** Read from the first bit on, the chunk loop yields the digits of the whole string. */
  lemma {:induction false} HexFromStart(b: string)
    ensures HexFrom(b, 0, "") == HexOfBits(b)
  {
    HexFromResult(b, 0, "");
    assert b[0..] == b && "" + HexOfBits(b) == HexOfBits(b);
  }

  /** An encoder's upper-cased output consists of the digits 0-9 and A-F. */
  lemma {:induction false} ImageDigits(b: string)
    ensures forall i :: 0 <= i < |HexOfBits(b)| ==>
      var c := UpperChar(HexOfBits(b)[i]); '0' <= c <= '9' || 'A' <= c <= 'F'
  {
    if |b| > 0 {
      var k := if |b| < 4 then |b| else 4;
      Pow2Monotone(k, 4);
      ImageDigits(b[k..]);
      assert HexOfBits(b) == [HexChar(BitsToNat(b[..k]))] + HexOfBits(b[k..]);
    }
  }

  /** The first two digits of an image are those of its first eight bits. */
  lemma {:induction false} LeadingDigits(b: string)
    requires |b| >= 8
    ensures |HexOfBits(b)| >= 2
    ensures Pow2(4) == 16 && BitsToNat(b[..4]) < 16 && BitsToNat(b[4..8]) < 16
    ensures HexOfBits(b)[0] == HexChar(BitsToNat(b[..4]))
    ensures HexOfBits(b)[1] == HexChar(BitsToNat(b[4..8]))
  {
    assert Pow2(4) == 16;
    assert b[4..][..4] == b[4..8];
    assert HexOfBits(b) == [HexChar(BitsToNat(b[..4]))] + HexOfBits(b[4..]);
    assert HexOfBits(b[4..]) == [HexChar(BitsToNat(b[4..8]))] + HexOfBits(b[8..]);
  }

  /** An image whose first eight bits hold the byte h starts with the two digits of h. */
  lemma {:induction false} HeaderDigits(b: string, h: nat)
    requires |b| >= 8 && BitsToNat(b[..8]) == h
    ensures h < 256
    ensures |HexOfBits(b)| >= 2
    ensures HexOfBits(b)[0] == HexChar(h / 16) && HexOfBits(b)[1] == HexChar(h % 16)
  {
    LeadingDigits(b);
    assert b[..8] == b[..4] + b[4..8];
    BitsToNatConcat(b[..4], b[4..8]);
  }
}
