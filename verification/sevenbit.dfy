/**
 * The 7-bit character packing of SGTIN-198 serial numbers: toBinaryString
 * writes every ASCII character as seven bits, and binStringTo7bitASCII reads
 * groups of seven bits back as characters, dropping control values 0..9.
 */
module SevenBit {
  import opened Text
  import opened BitStrings

  /** Integer.toBinaryString of an ASCII character, zero-filled to seven bits. */
  function Septet(c: char): (r: string)
    requires c as int < 128
    ensures |r| == 7 && IsBits(r) && BitsToNat(r) == c as int
  {
    assert Pow2(7) == 128;
    Field(c as int, 7);
    PadLeft(NatToBits(c as int), 7)
  }

  /** The bits toBinaryString emits for an ASCII string: one septet per character. */
  function Pack7(s: string): (r: string)
    requires IsAscii(s)
    ensures |r| == 7 * |s|
  {
    if |s| == 0 then "" else Septet(s[0]) + Pack7(s[1..])
  }

  method ToBinaryString(s: string) returns (ret: string)
    requires IsAscii(s)
    ensures ret == Pack7(s)
  {
    ret := "";
    var i := 0;
    while i < |s|
      invariant 0 <= i <= |s|
      invariant ret + Pack7(s[i..]) == Pack7(s)
    {
      assert s[i..][1..] == s[i + 1..];
      var septet := FillLeftWithZeros(NatToBits(s[i] as int), 7);
      ret := ret + septet;
      i := i + 1;
    }
    assert Pack7(s[i..]) == "";
  }

  /** A group of bits read as a character, kept only when its value exceeds 9. */
  function Glyph(g: string): (r: string)
    requires |g| <= 7
    ensures |r| <= 1
    ensures |r| == 1 <==> BitsToNat(g) > 9
    ensures |r| == 1 ==> r[0] as int == BitsToNat(g)
  {
    Pow2Monotone(|g|, 7);
    assert Pow2(7) == 128;
    var v := BitsToNat(g);
    if v > 9 then [v as char] else ""
  }

  /**
   * The characters binStringTo7bitASCII reads from a bit string: groups of
   * seven bits from the left, the last group possibly shorter.
   */
  function Unpack7(b: string): string {
    if |b| == 0 then ""
    else if |b| < 7 then Glyph(b)
    else Glyph(b[..7]) + Unpack7(b[7..])
  }

  method BinStringTo7BitAscii(s: string) returns (ret: string)
    ensures ret == Unpack7(s)
  {
    var offset := 0;
    ret := "";
    while offset < |s|
      invariant 0 <= offset
      invariant Unpacking(s, offset, ret) == Unpacking(s, 0, "")
    {
      var length := if offset + 7 > |s| then |s| - offset else 7;
      var group := s[offset..offset + length];
      var l := BinStringToLong(group);
      ghost var kept := ret;
      if l > 9 {
        var c := BinStringToLong(group);
        ret := ret + [c as char];
      }
      assert ret == kept + Glyph(group);
      offset := offset + 7;
    }
    UnpackingResult(s, 0, "");
  }

  /**
   * The characters binStringTo7bitASCII holds once it has read on from
   * `offset`, having read `acc` before.
   */
  function Unpacking(s: string, offset: nat, acc: string): string
    decreases |s| - offset
  {
    if offset >= |s| then acc
    else
      var length := if offset + 7 > |s| then |s| - offset else 7;
      Unpacking(s, offset + 7, acc + Glyph(s[offset..offset + length]))
  }

  lemma {:induction false} UnpackingResult(s: string, offset: nat, acc: string)
    requires offset <= |s|
    ensures Unpacking(s, offset, acc) == acc + Unpack7(s[offset..])
    decreases |s| - offset
  {
    if offset < |s| {
      var length := if offset + 7 > |s| then |s| - offset else 7;
      var g := Glyph(s[offset..offset + length]);
      Unpack7Step(s, offset, length);
      if offset + 7 <= |s| {
        UnpackingResult(s, offset + 7, acc + g);
        AppendAssoc(acc, g, Unpack7(s[offset + 7..]));
      } else {
        assert Unpack7(s[offset + length..]) == "";
      }
    }
  }

  /** One turn of the unpacking loop: the group at `offset`, then the rest. */
  lemma {:induction false} Unpack7Step(s: string, offset: nat, length: nat)
    requires offset < |s| && length == if offset + 7 > |s| then |s| - offset else 7
    ensures Unpack7(s[offset..]) == Glyph(s[offset..offset + length]) + Unpack7(s[offset + length..])
  {
    var t := s[offset..];
    assert t[..length] == s[offset..offset + length];
    assert t[length..] == s[offset + length..];
    if length < 7 {
      assert t[..length] == t && t[length..] == [];
      assert Unpack7(t) == Glyph(t);
      assert Unpack7(t[length..]) == "";
    }
  }

  /** The characters the decoder keeps: everything but the control values 0..9. */
  function DropControl(s: string): (r: string)
    ensures |r| <= |s|
    ensures forall i :: 0 <= i < |r| ==> r[i] as int > 9
  {
    if |s| == 0 then ""
    else (if s[0] as int > 9 then [s[0]] else []) + DropControl(s[1..])
  }

  // ---------------------------------------------------------------------
  // Lemmas

  lemma {:induction false} Pack7Bits(s: string)
    requires IsAscii(s)
    ensures IsBits(Pack7(s))
  {
    if |s| > 0 {
      Pack7Bits(s[1..]);
    }
  }

  lemma {:induction false} Pack7Concat(x: string, y: string)
    requires IsAscii(x) && IsAscii(y)
    ensures IsAscii(x + y) && Pack7(x + y) == Pack7(x) + Pack7(y)
  {
    if |x| == 0 {
      assert x + y == y;
    } else {
      assert (x + y)[0] == x[0] && (x + y)[1..] == x[1..] + y;
      Pack7Concat(x[1..], y);
    }
  }

  /** Reading septets back yields every character, control values dropped. */
  lemma {:induction false} Unpack7Pack7(s: string)
    requires IsAscii(s)
    ensures Unpack7(Pack7(s)) == DropControl(s)
  {
    if |s| > 0 {
      var p := Pack7(s);
      assert p[..7] == Septet(s[0]) && p[7..] == Pack7(s[1..]);
      Unpack7Pack7(s[1..]);
      if s[0] as int > 9 {
        assert (s[0] as int) as char == s[0];
      }
    }
  }

  /** Groups aligned on seven bits decode independently. */
  lemma {:induction false} Unpack7Concat(x: string, y: string)
    requires |x| % 7 == 0
    ensures Unpack7(x + y) == Unpack7(x) + Unpack7(y)
  {
    if |x| == 0 {
      assert x + y == y;
    } else {
      assert (x + y)[..7] == x[..7] && (x + y)[7..] == x[7..] + y;
      Unpack7Concat(x[7..], y);
    }
  }

  /** A short trailing group of at most three bits is always dropped. */
  lemma {:induction false} ShortGroupDropped(g: string)
    requires 0 < |g| <= 3
    ensures Unpack7(g) == ""
  {
    Pow2Monotone(|g|, 3);
    assert Pow2(3) == 8;
  }

  /** The control value 0 (the character an all-zero septet stands for) is dropped. */
  lemma {:induction false} NulsDropped(k: nat)
    ensures IsAscii(Nuls(k)) && DropControl(Nuls(k)) == ""
  {
    if k > 0 {
      assert Nuls(k)[1..] == Nuls(k - 1);
      NulsDropped(k - 1);
    }
  }

  function Nuls(k: nat): (r: string)
    ensures |r| == k
  {
    if k == 0 then [] else [0 as char] + Nuls(k - 1)
  }

  lemma {:induction false} NulsLast(k: nat)
    requires k > 0
    ensures Nuls(k)[k - 1] == 0 as char
  {
    if k > 1 {
      NulsLast(k - 1);
    }
  }

  lemma {:induction false} DropControlConcat(x: string, y: string)
    ensures DropControl(x + y) == DropControl(x) + DropControl(y)
  {
    if |x| == 0 {
      assert x + y == y;
    } else {
      assert (x + y)[0] == x[0] && (x + y)[1..] == x[1..] + y;
      DropControlConcat(x[1..], y);
    }
  }

  /** Characters above the control values are all kept. */
  lemma {:induction false} DropControlKeeps(s: string)
    requires forall k :: 0 <= k < |s| ==> s[k] as int > 9
    ensures DropControl(s) == s
  {
    if |s| > 0 {
      DropControlKeeps(s[1..]);
      assert s == [s[0]] + s[1..];
    }
  }

  /** fillRightWithZeros on packed septets appends septets of the character 0. */
  lemma {:induction false} Pack7Nuls(k: nat)
    ensures IsAscii(Nuls(k)) && Pack7(Nuls(k)) == Zeros(7 * k)
  {
    if k > 0 {
      assert Nuls(k)[0] == 0 as char && Nuls(k)[1..] == Nuls(k - 1);
      Pack7Nuls(k - 1);
      ZeroBitsValue(7);
      BitsInjective(Septet(0 as char), Zeros(7));
      assert Zeros(7) + Zeros(7 * (k - 1)) == Zeros(7 * k);
    }
  }

  /** The character with its two low bits cleared. */
  function ClearLow2(c: char): (r: char)
    requires c as int < 128
    ensures r as int < 128 && r as int % 4 == 0 && c as int - 4 < r as int <= c as int
  {
    (c as int - c as int % 4) as char
  }

  /**
   * Moving the last two bits of a septet two places right (the decoder's
   * widening of a final two-bit chunk) turns the septet's five high bits
   * into the septet of the character with its two low bits cleared.
   */
  lemma {:induction false} SeptetWidened(c: char)
    requires c as int < 128
    ensures Septet(c)[..5] + "00" == Septet(ClearLow2(c))
    ensures BitsToNat(Septet(c)[5..]) == c as int % 4
  {
    var x := Septet(c);
    var hi, lo := x[..5], x[5..];
    assert x == hi + lo;
    LowBits(hi, lo);
    LowRemainder(BitsToNat(hi), BitsToNat(lo));
    BitsInjective(hi + "00", Septet(ClearLow2(c)));
  }

  /** The value of bits that end in two low bits, and of the same bits with those cleared. */
  lemma {:induction false} LowBits(hi: string, lo: string)
    requires |lo| == 2
    ensures BitsToNat(hi + lo) == 4 * BitsToNat(hi) + BitsToNat(lo) && BitsToNat(lo) < 4
    ensures BitsToNat(hi + "00") == 4 * BitsToNat(hi)
    ensures IsBits(hi) ==> IsBits(hi + "00")
  {
    assert Pow2(2) == 4;
    BitsToNatConcat(hi, lo);
    BitsToNatConcat(hi, "00");
    ZeroBitsValue(2);
    assert "00" == Zeros(2);
  }

  lemma {:induction false} LowRemainder(a: nat, b: nat)
    requires b < 4
    ensures (4 * a + b) % 4 == b && 4 * a + b - (4 * a + b) % 4 == 4 * a
  {
  }
}
